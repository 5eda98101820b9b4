/** The per-comuna app: one comuna is chosen, its parts are read from the
    cache directory or built and written there, and the chosen part (or all
    of them) is shown. The directory is a map from comuna id to the stored
    parts; reading a file back gives exactly what was written. */
module Poligono2 {
  import opened Geo
  import opened Subcomunas

  /** `comunas[comunas['comuna'] == comuna_id].geometry.values[0]`: the
      geometry of the first row with that id. */
  function ComunaGeometry(comunas: seq<Comuna>, id: ComunaId): (g: Geom)
    requires exists i :: 0 <= i < |comunas| && comunas[i].id == id
    ensures exists i :: 0 <= i < |comunas| && comunas[i].id == id && comunas[i].geometry == g
                        && forall j :: 0 <= j < i ==> comunas[j].id != id
  {
    if comunas[0].id == id then comunas[0].geometry
    else
      var g := ComunaGeometry(comunas[1..], id);
      assert forall i :: 1 <= i < |comunas| ==> comunas[1..][i - 1] == comunas[i];
      g
  }

  /** What the cache ever writes for comuna `id`: a non-empty list of its
      parts with distinct labels. */
  ghost predicate Written(id: ComunaId, parts: seq<Part>) {
    |parts| > 0 && BelongsTo(parts, id) && LabelsUnique(parts)
  }

  /** The cache directory `cache/`, one GeoJSON file per comuna id. */
  class SubcomunaCache {
    /** `cache/subcomuna_{id}.geojson`, by id. */
    var files: map<ComunaId, seq<Part>>
    /** How many times the pipeline (filter, clustering, union) has run. */
    ghost var builds: nat

    /** Every file holds what the cache writes. */
    ghost predicate Valid()
      reads this
    {
      forall id :: id in files ==> Written(id, files[id])
    }

    /** The directory as found at start-up. */
    constructor (existing: map<ComunaId, seq<Part>>)
      ensures files == existing && builds == 0
      ensures Valid() <==> forall id :: id in existing ==> Written(id, existing[id])
    {
      files := existing;
      builds := 0;
    }

    /** `cargar_o_generar_subcomunas`: a stored file is returned as it is;
        otherwise the parts are built, and written only when there are any. */
    method LoadOrBuild(lib: Lib, comunaId: ComunaId, comunas: seq<Comuna>, manzanas: seq<Geom>, n: nat)
      returns (parts: seq<Part>)
      requires lib.Valid() && n >= 1
      requires comunaId !in files ==> exists i :: 0 <= i < |comunas| && comunas[i].id == comunaId
      modifies this
      ensures comunaId in old(files) ==>
        parts == old(files)[comunaId] && files == old(files) && builds == old(builds)
      ensures comunaId !in old(files) ==>
        && builds == old(builds) + 1
        && parts == ComunaParts(lib, comunaId, ComunaGeometry(comunas, comunaId), manzanas, n)
        && files == (if |parts| == 0 then old(files) else old(files)[comunaId := parts])
      ensures old(Valid()) ==> Valid() && BelongsTo(parts, comunaId) && LabelsUnique(parts)
    {
      if comunaId in files {
        parts := files[comunaId];
        return;
      }
      builds := builds + 1;
      var mask := ComunaGeometry(comunas, comunaId);
      var clipped := FilterClip(lib, mask, manzanas);
      ComunaPartsShape(lib, comunaId, mask, manzanas, n);
      if |clipped| == 0 {
        parts := [];
        return;
      }
      var grouping := Divide(lib, clipped, n);
      parts := MergeGroups(lib, comunaId, clipped, grouping);
      files := files[comunaId := parts];
    }

    /** Two runs of the app for the same comuna, with any `n_partes`: a
        non-empty first answer is stored, so the second is the same list and
        nothing is rebuilt; an empty first answer is not stored, so the
        second run builds again and is empty too. */
    method RequestTwice(lib: Lib, comunaId: ComunaId, comunas: seq<Comuna>, manzanas: seq<Geom>, n1: nat, n2: nat)
      returns (first: seq<Part>, second: seq<Part>)
      requires lib.Valid() && n1 >= 1 && n2 >= 1
      requires comunaId !in files ==> exists i :: 0 <= i < |comunas| && comunas[i].id == comunaId
      modifies this
      ensures |first| > 0 ==> second == first && builds <= old(builds) + 1
      ensures comunaId in old(files) ==> first == second == old(files)[comunaId] && builds == old(builds)
      ensures comunaId !in old(files) && |first| == 0 ==>
        |second| == 0 && builds == old(builds) + 2 && files == old(files)
    {
      first := LoadOrBuild(lib, comunaId, comunas, manzanas, n1);
      if comunaId !in old(files) && |first| == 0 {
        var mask := ComunaGeometry(comunas, comunaId);
        ComunaPartsShape(lib, comunaId, mask, manzanas, n1);
        ComunaPartsShape(lib, comunaId, mask, manzanas, n2);
      }
      second := LoadOrBuild(lib, comunaId, comunas, manzanas, n2);
    }
  }

  /** `sorted(comunas['comuna'].unique())`: every comuna of the frame, once,
      ascending, whether or not any block meets it. */
  function ComunaOptions(comunas: seq<Comuna>): (opts: seq<ComunaId>)
    ensures StrictlyIncreasing(opts)
    ensures forall c :: c in opts <==> exists i :: 0 <= i < |comunas| && comunas[i].id == c
  {
    var ids := seq(|comunas|, i requires 0 <= i < |comunas| => comunas[i].id);
    assert forall i :: 0 <= i < |comunas| ==> ids[i] == comunas[i].id;
    SortedDistinct(ids)
  }

  /** `["Todas"] + gdf_subcomunas['subparte'].tolist()`. */
  function SubparteOptions(parts: seq<Part>): (opts: seq<string>)
  {
    [Todas] + Labels(parts)
  }

  /** The parts shown for the chosen subparte option. */
  function Select(parts: seq<Part>, sel: string): seq<Part> {
    if sel == Todas then parts else WithSubparte(parts, sel)
  }

  /** For the parts of one comuna, option 0 ("Todas") shows all of them and
      option k shows exactly the k-th part. */
  lemma SelectOption(parts: seq<Part>, id: ComunaId, k: nat)
    requires BelongsTo(parts, id) && LabelsUnique(parts)
    requires k < |SubparteOptions(parts)|
    ensures |SubparteOptions(parts)| == |parts| + 1
    ensures k == 0 ==> Select(parts, SubparteOptions(parts)[k]) == parts
    ensures k > 0 ==> Select(parts, SubparteOptions(parts)[k]) == [parts[k - 1]]
  {
    if k > 0 {
      var p := parts[k - 1];
      assert SubparteOptions(parts)[k] == p.subparte;
      PrefixedIsNotTodas(id, p.subparte);
      SelectUniqueLabel(parts, k - 1);
    }
  }
}
