/** The foreign libraries the pipeline calls, made abstract: planar
    geometry (shapely through geopandas) and k-means clustering (sklearn).
    Nothing is known about a geometry except what these operations return. */
module Geo {

  /** A polygon or multi-polygon in the shared planar reference. */
  type Geom

  /** A planar point; a block's centroid. */
  datatype Point = Point(x: real, y: real)

  /** The library operations the pipeline uses.
      - intersects(g, mask): `GeoSeries.intersects`, boundary contact included;
      - clip(g, mask): the part of g inside mask (`GeoDataFrame.clip`);
      - unaryUnion(gs): `unary_union` of a group of geometries;
      - centroid(g): the planar centroid;
      - kmeans(pts, k): `KMeans(n_clusters=k, random_state=0).fit_predict(pts)`,
        a fixed function of its input because the seed is fixed. */
  datatype Lib = Lib(
    intersects: (Geom, Geom) -> bool,
    clip: (Geom, Geom) -> Geom,
    unaryUnion: seq<Geom> -> Geom,
    centroid: Geom -> Point,
    kmeans: (seq<Point>, nat) -> seq<nat>)
  {
    /** The only thing relied on about k-means: given at least k points it
        labels every point with a cluster index in [0, k). */
    ghost predicate Valid() {
      forall pts: seq<Point>, k: nat :: 1 <= k <= |pts| ==> IsLabelling(kmeans(pts, k), |pts|, k)
    }
  }

  /** `labels` gives each of `count` items a cluster index below `k`. */
  predicate IsLabelling(labels: seq<nat>, count: nat, k: nat) {
    |labels| == count && forall i :: 0 <= i < |labels| ==> labels[i] < k
  }
}
