/** The whole-city app: the parts of every comuna are built in one pass,
    then a comuna and one of its parts (or all of them) are chosen. */
module Poligonos1 {
  import opened Geo
  import opened Subcomunas

  /** `n_partes=6`, the default `generar_subcomunas` relies on. */
  const DefaultParts: nat := 6

  /** A column of the blocks frame. */
  datatype Column = Reals(values: seq<real>) | Groups(grouping: Grouping) | Texts(texts: seq<string>)

  function ColumnLength(c: Column): nat {
    match c
    case Reals(v) => |v|
    case Groups(g) => |g.labels|
    case Texts(t) => |t|
  }

  /** `geometry.centroid.x` and `geometry.centroid.y`. */
  function CentroidXs(lib: Lib, blocks: seq<Geom>): (xs: seq<real>)
    ensures |xs| == |blocks|
  {
    seq(|blocks|, i requires 0 <= i < |blocks| => lib.centroid(blocks[i]).x)
  }

  function CentroidYs(lib: Lib, blocks: seq<Geom>): (ys: seq<real>)
    ensures |ys| == |blocks|
  {
    seq(|blocks|, i requires 0 <= i < |blocks| => lib.centroid(blocks[i]).y)
  }

  /** The columns `dividir_manzanas` adds. */
  const AddedColumns: set<string> := {"centroid_x", "centroid_y", "grupo"}

  /** A GeoDataFrame of blocks: the geometry column and named columns, all
      of one length. */
  class GeoFrame {
    var geometry: seq<Geom>
    var columns: map<string, Column>

    ghost predicate Valid()
      reads this
    {
      forall name :: name in columns ==> ColumnLength(columns[name]) == |geometry|
    }

    constructor (geometry: seq<Geom>, columns: map<string, Column>)
      requires forall name :: name in columns ==> ColumnLength(columns[name]) == |geometry|
      ensures Valid() && this.geometry == geometry && this.columns == columns
    {
      this.geometry := geometry;
      this.columns := columns;
    }

    /** `dividir_manzanas`, which writes into the frame it is given: the
        centroid coordinates and the group of every block become columns;
        the rows and every other column stay as they were. */
    method Divide(lib: Lib, n: nat)
      requires Valid() && lib.Valid() && n >= 1
      modifies this
      ensures Valid() && geometry == old(geometry)
      ensures columns.Keys == old(columns).Keys + AddedColumns
      ensures columns["centroid_x"] == Reals(CentroidXs(lib, geometry))
      ensures columns["centroid_y"] == Reals(CentroidYs(lib, geometry))
      ensures columns["grupo"] == Groups(Subcomunas.Divide(lib, geometry, n))
      ensures forall name :: name in old(columns) && name !in AddedColumns ==> columns[name] == old(columns)[name]
    {
      columns := columns["centroid_x" := Reals(CentroidXs(lib, geometry))];
      columns := columns["centroid_y" := Reals(CentroidYs(lib, geometry))];
      var cx, cy := columns["centroid_x"].values, columns["centroid_y"].values;
      var coords := seq(|cx|, i requires 0 <= i < |cx| && i < |cy| => Point(cx[i], cy[i]));
      assert coords == Centroids(lib, geometry);
      columns := columns["grupo" := Groups(AssignLabels(lib, coords, n))];
    }
  }

  /** The parts of every comuna, in frame order, each comuna's in group
      order; a comuna that no block meets contributes none. */
  function CityParts(lib: Lib, comunas: seq<Comuna>, manzanas: seq<Geom>): seq<Part>
    requires lib.Valid()
  {
    if |comunas| == 0 then []
    else
      var c := comunas[|comunas| - 1];
      CityParts(lib, comunas[..|comunas| - 1], manzanas) + ComunaParts(lib, c.id, c.geometry, manzanas, DefaultParts)
  }

  /** `generar_subcomunas`: the loop over the comunas, skipping those with no
      block, and for each of the others the loop over its groups. */
  method GenerateSubcomunas(lib: Lib, comunas: seq<Comuna>, manzanas: seq<Geom>) returns (parts: seq<Part>)
    requires lib.Valid()
    ensures parts == CityParts(lib, comunas, manzanas)
  {
    parts := [];
    for i := 0 to |comunas|
      invariant parts == CityParts(lib, comunas[..i], manzanas)
    {
      assert comunas[..i + 1][..i] == comunas[..i];
      var comunaId, mask := comunas[i].id, comunas[i].geometry;
      var clipped := FilterClip(lib, mask, manzanas);
      if |clipped| == 0 {
        continue;
      }
      var frame := new GeoFrame(clipped, map[]);
      frame.Divide(lib, DefaultParts);
      var grouping := frame.columns["grupo"].grouping;
      var group := MergeGroups(lib, comunaId, clipped, grouping);
      parts := parts + group;
    }
    assert comunas[..|comunas|] == comunas;
  }

  /** The parts of comuna `c`, in order (`gdf[gdf['comuna'] == c]`). */
  function OfComuna(parts: seq<Part>, c: ComunaId): (r: seq<Part>)
    ensures forall p :: p in r ==> p in parts && p.comuna == c
    ensures forall j :: 0 <= j < |parts| && parts[j].comuna == c ==> parts[j] in r
  {
    if |parts| == 0 then []
    else
      var last := |parts| - 1;
      assert forall j :: 0 <= j < last ==> parts[..last][j] == parts[j];
      var rest := OfComuna(parts[..last], c);
      if parts[last].comuna == c then rest + [parts[last]] else rest
  }

  /** `sorted(gdf_subcomunas['comuna'].unique())`. */
  function ComunaOptions(parts: seq<Part>): (opts: seq<ComunaId>)
    ensures StrictlyIncreasing(opts)
    ensures forall c :: c in opts <==> exists j :: 0 <= j < |parts| && parts[j].comuna == c
  {
    var ids := seq(|parts|, i requires 0 <= i < |parts| => parts[i].comuna);
    assert forall j :: 0 <= j < |parts| ==> ids[j] == parts[j].comuna;
    SortedDistinct(ids)
  }

  /** `["Todas"]` and the labels of the chosen comuna's parts. */
  function SubparteOptions(parts: seq<Part>, c: ComunaId): seq<string> {
    var mine := OfComuna(parts, c);
    [Todas] + Labels(mine)
  }

  /** The parts shown: all of the chosen comuna's for "Todas", else those
      with the chosen label. */
  function Select(parts: seq<Part>, c: ComunaId, sel: string): seq<Part> {
    if sel == Todas then OfComuna(parts, c) else WithSubparte(parts, sel)
  }

  // ---------------------------------------------------------------------
  // Properties of the city-wide list

  /** No two rows of the comunas frame share an id (it is dissolved by id). */
  predicate DistinctIds(comunas: seq<Comuna>) {
    forall i, j :: 0 <= i < j < |comunas| ==> comunas[i].id != comunas[j].id
  }

  /** Some block meets the comuna. */
  predicate HasBlocks(lib: Lib, comuna: Comuna, manzanas: seq<Geom>) {
    exists j :: 0 <= j < |manzanas| && lib.intersects(manzanas[j], comuna.geometry)
  }

  /** Every part carries the label prefix of its own comuna. */
  predicate WellLabelled(parts: seq<Part>) {
    forall j :: 0 <= j < |parts| ==> LabelPrefix(parts[j].comuna) <= parts[j].subparte
  }

  lemma {:induction false} OfComunaAppend(a: seq<Part>, b: seq<Part>, c: ComunaId)
    ensures OfComuna(a + b, c) == OfComuna(a, c) + OfComuna(b, c)
  {
    if |b| > 0 {
      var last := |b| - 1;
      var front := b[..last];
      var tail := if b[last].comuna == c then [b[last]] else [];
      assert (a + b)[..|a| + last] == a + front;
      assert (a + b)[|a| + last] == b[last];
      assert OfComuna(a + b, c) == OfComuna(a + front, c) + tail;
      assert OfComuna(b, c) == OfComuna(front, c) + tail;
      OfComunaAppend(a, front, c);
    } else {
      assert a + b == a;
    }
  }

  /** Filtering one comuna's own parts keeps all of them or none. */
  lemma {:induction false} OfComunaOfBelonging(parts: seq<Part>, id: ComunaId, c: ComunaId)
    requires BelongsTo(parts, id)
    ensures OfComuna(parts, c) == if id == c then parts else []
  {
    if |parts| > 0 {
      var last := |parts| - 1;
      OfComunaOfBelonging(parts[..last], id, c);
      assert parts == parts[..last] + [parts[last]];
    }
  }

  lemma WellLabelledAppend(a: seq<Part>, b: seq<Part>)
    requires WellLabelled(a) && WellLabelled(b)
    ensures WellLabelled(a + b)
  {
    forall j | 0 <= j < |a + b|
      ensures LabelPrefix((a + b)[j].comuna) <= (a + b)[j].subparte
    {
      if j >= |a| {
        assert (a + b)[j] == b[j - |a|];
      }
    }
  }

  /** Every part of the city list carries its own comuna's label prefix. */
  lemma {:induction false} CityPartsWellLabelled(lib: Lib, comunas: seq<Comuna>, manzanas: seq<Geom>)
    requires lib.Valid()
    ensures WellLabelled(CityParts(lib, comunas, manzanas))
  {
    if |comunas| > 0 {
      var last := |comunas| - 1;
      var row := comunas[last];
      CityPartsWellLabelled(lib, comunas[..last], manzanas);
      ComunaPartsShape(lib, row.id, row.geometry, manzanas, DefaultParts);
      WellLabelledAppend(CityParts(lib, comunas[..last], manzanas),
                         ComunaParts(lib, row.id, row.geometry, manzanas, DefaultParts));
    }
  }

  /** Filtering the city list by comuna, one row at a time. */
  lemma OfComunaSnoc(lib: Lib, comunas: seq<Comuna>, manzanas: seq<Geom>, c: ComunaId)
    requires lib.Valid() && |comunas| > 0
    ensures var last := |comunas| - 1;
      var row := comunas[last];
      OfComuna(CityParts(lib, comunas, manzanas), c)
        == OfComuna(CityParts(lib, comunas[..last], manzanas), c)
           + (if row.id == c then ComunaParts(lib, row.id, row.geometry, manzanas, DefaultParts) else [])
  {
    var last := |comunas| - 1;
    var row := comunas[last];
    var a := CityParts(lib, comunas[..last], manzanas);
    var b := ComunaParts(lib, row.id, row.geometry, manzanas, DefaultParts);
    RowParts(lib, row, manzanas);
    OfComunaAppend(a, b, c);
    OfComunaOfBelonging(b, row.id, c);
  }

  /** With distinct ids, the parts listed for comuna `c` are exactly the
      parts built for its row. */
  lemma {:induction false} CityPartsOfComuna(lib: Lib, comunas: seq<Comuna>, manzanas: seq<Geom>, c: ComunaId, i: nat)
    requires lib.Valid() && DistinctIds(comunas)
    requires i < |comunas| && comunas[i].id == c
    ensures OfComuna(CityParts(lib, comunas, manzanas), c) == ComunaParts(lib, c, comunas[i].geometry, manzanas, DefaultParts)
  {
    var last := |comunas| - 1;
    var front := comunas[..last];
    var g := comunas[i].geometry;
    var mine := ComunaParts(lib, c, g, manzanas, DefaultParts);
    var whole := OfComuna(CityParts(lib, comunas, manzanas), c);
    if i < last {
      assert front[i] == comunas[i];
      assert DistinctIds(front);
      CityPartsOfComuna(lib, front, manzanas, c, i);
      CityPartsOfEarlierRow(lib, comunas, manzanas, c);
      assert whole == OfComuna(CityParts(lib, front, manzanas), c) == mine;
    } else {
      assert i == last;
      CityPartsOfLastRow(lib, comunas, manzanas);
      assert whole == mine;
    }
  }

  /** The last row adds nothing for a comuna it is not. */
  lemma CityPartsOfEarlierRow(lib: Lib, comunas: seq<Comuna>, manzanas: seq<Geom>, c: ComunaId)
    requires lib.Valid() && |comunas| > 0 && comunas[|comunas| - 1].id != c
    ensures OfComuna(CityParts(lib, comunas, manzanas), c) == OfComuna(CityParts(lib, comunas[..|comunas| - 1], manzanas), c)
  {
    OfComunaSnoc(lib, comunas, manzanas, c);
    var front := OfComuna(CityParts(lib, comunas[..|comunas| - 1], manzanas), c);
    assert front + [] == front;
  }

  /** The last row's parts are all its comuna has when no earlier row
      shares its id. */
  lemma CityPartsOfLastRow(lib: Lib, comunas: seq<Comuna>, manzanas: seq<Geom>)
    requires lib.Valid() && |comunas| > 0
    requires forall k :: 0 <= k < |comunas| - 1 ==> comunas[k].id != comunas[|comunas| - 1].id
    ensures var row := comunas[|comunas| - 1];
      OfComuna(CityParts(lib, comunas, manzanas), row.id) == ComunaParts(lib, row.id, row.geometry, manzanas, DefaultParts)
  {
    var row := comunas[|comunas| - 1];
    var front := comunas[..|comunas| - 1];
    forall k | 0 <= k < |front|
      ensures front[k].id != row.id
    {
      assert front[k] == comunas[k];
    }
    OfComunaSnoc(lib, comunas, manzanas, row.id);
    CityPartsOfAbsent(lib, comunas[..|comunas| - 1], manzanas, row.id);
    var mine := ComunaParts(lib, row.id, row.geometry, manzanas, DefaultParts);
    assert [] + mine == mine;
  }

  /** A comuna no row has gets no part. */
  lemma {:induction false} CityPartsOfAbsent(lib: Lib, comunas: seq<Comuna>, manzanas: seq<Geom>, c: ComunaId)
    requires lib.Valid()
    requires forall k :: 0 <= k < |comunas| ==> comunas[k].id != c
    ensures OfComuna(CityParts(lib, comunas, manzanas), c) == []
  {
    if |comunas| > 0 {
      var last := |comunas| - 1;
      var row := comunas[last];
      CityPartsOfAbsent(lib, comunas[..last], manzanas, c);
      OfComunaSnoc(lib, comunas, manzanas, c);
    }
  }

  /** One row's parts belong to it, and there are some exactly when a block
      meets it. */
  lemma RowParts(lib: Lib, row: Comuna, manzanas: seq<Geom>)
    requires lib.Valid()
    ensures var b := ComunaParts(lib, row.id, row.geometry, manzanas, DefaultParts);
      BelongsTo(b, row.id) && (|b| > 0 <==> HasBlocks(lib, row, manzanas))
  {
    ComunaPartsShape(lib, row.id, row.geometry, manzanas, DefaultParts);
  }

  /** Some row has id `c` and meets a block. */
  ghost predicate Present(lib: Lib, comunas: seq<Comuna>, manzanas: seq<Geom>, c: ComunaId) {
    exists i :: 0 <= i < |comunas| && comunas[i].id == c && HasBlocks(lib, comunas[i], manzanas)
  }

  lemma PresentSnoc(lib: Lib, comunas: seq<Comuna>, manzanas: seq<Geom>, c: ComunaId)
    requires |comunas| > 0
    ensures var last := |comunas| - 1;
      Present(lib, comunas, manzanas, c) <==>
        Present(lib, comunas[..last], manzanas, c) || (comunas[last].id == c && HasBlocks(lib, comunas[last], manzanas))
  {
    var last := |comunas| - 1;
    var front := comunas[..last];
    if Present(lib, front, manzanas, c) {
      var i :| 0 <= i < |front| && front[i].id == c && HasBlocks(lib, front[i], manzanas);
      assert comunas[i] == front[i];
    }
    if Present(lib, comunas, manzanas, c) {
      var i :| 0 <= i < |comunas| && comunas[i].id == c && HasBlocks(lib, comunas[i], manzanas);
      if i < last {
        assert front[i] == comunas[i];
      }
    }
  }

  /** Comuna `c` has some part exactly when a row with that id meets some
      block. */
  lemma {:induction false} CityPartsOfPresent(lib: Lib, comunas: seq<Comuna>, manzanas: seq<Geom>, c: ComunaId)
    requires lib.Valid()
    ensures |OfComuna(CityParts(lib, comunas, manzanas), c)| > 0 <==> Present(lib, comunas, manzanas, c)
  {
    if |comunas| > 0 {
      var last := |comunas| - 1;
      var front := comunas[..last];
      var row := comunas[last];
      CityPartsOfPresent(lib, front, manzanas, c);
      RowParts(lib, row, manzanas);
      OfComunaSnoc(lib, comunas, manzanas, c);
      PresentSnoc(lib, comunas, manzanas, c);
    }
  }

  /** Some part has comuna `c` exactly when filtering by `c` keeps one. */
  lemma {:induction false} OfComunaNonEmpty(parts: seq<Part>, c: ComunaId)
    ensures |OfComuna(parts, c)| > 0 <==> exists j :: 0 <= j < |parts| && parts[j].comuna == c
  {
    if |parts| > 0 {
      var last := |parts| - 1;
      OfComunaNonEmpty(parts[..last], c);
      assert forall k :: 0 <= k < last ==> parts[..last][k] == parts[k];
    }
  }

  /** A comuna is offered exactly when it is in the frame and some block
      meets it; comunas left without blocks are never offered. */
  lemma ComunaOptionsExact(lib: Lib, comunas: seq<Comuna>, manzanas: seq<Geom>, c: ComunaId)
    requires lib.Valid()
    ensures c in ComunaOptions(CityParts(lib, comunas, manzanas)) <==> Present(lib, comunas, manzanas, c)
  {
    var parts := CityParts(lib, comunas, manzanas);
    CityPartsOfPresent(lib, comunas, manzanas, c);
    OfComunaNonEmpty(parts, c);
  }

  /** Every offered comuna has between 1 and 6 parts. */
  lemma PartsPerComuna(lib: Lib, comunas: seq<Comuna>, manzanas: seq<Geom>, c: ComunaId)
    requires lib.Valid() && DistinctIds(comunas)
    requires c in ComunaOptions(CityParts(lib, comunas, manzanas))
    ensures 1 <= |OfComuna(CityParts(lib, comunas, manzanas), c)| <= DefaultParts
  {
    ComunaOptionsExact(lib, comunas, manzanas, c);
    var i :| 0 <= i < |comunas| && comunas[i].id == c && HasBlocks(lib, comunas[i], manzanas);
    CityPartsOfComuna(lib, comunas, manzanas, c, i);
    ComunaPartsShape(lib, c, comunas[i].geometry, manzanas, DefaultParts);
  }

  /** Selecting a label of comuna `c` looks only at comuna `c`'s parts. */
  lemma {:induction false} WithSubparteOfComuna(parts: seq<Part>, c: ComunaId, sel: string)
    requires WellLabelled(parts) && LabelPrefix(c) <= sel
    ensures WithSubparte(parts, sel) == WithSubparte(OfComuna(parts, c), sel)
  {
    if |parts| > 0 {
      var last := |parts| - 1;
      var p := parts[last];
      WithSubparteOfComuna(parts[..last], c, sel);
      if p.subparte == sel && p.comuna != c {
        PrefixDeterminesComuna(p.comuna, c, sel);
      }
      if p.comuna == c {
        assert OfComuna(parts, c) == OfComuna(parts[..last], c) + [p];
        assert (OfComuna(parts[..last], c) + [p])[..|OfComuna(parts[..last], c)|] == OfComuna(parts[..last], c);
      }
    }
  }

  /** For a comuna of the frame, the options after "Todas" are the labels of
      its parts in order; option 0 shows all of its parts and option k its
      k-th part alone. */
  lemma SelectOption(lib: Lib, comunas: seq<Comuna>, manzanas: seq<Geom>, i: nat, k: nat)
    requires lib.Valid() && DistinctIds(comunas) && i < |comunas|
    requires k < |SubparteOptions(CityParts(lib, comunas, manzanas), comunas[i].id)|
    ensures var parts := CityParts(lib, comunas, manzanas);
      var mine := ComunaParts(lib, comunas[i].id, comunas[i].geometry, manzanas, DefaultParts);
      var sel := SubparteOptions(parts, comunas[i].id)[k];
      && SubparteOptions(parts, comunas[i].id) == [Todas] + Labels(mine)
      && (k == 0 ==> Select(parts, comunas[i].id, sel) == mine)
      && (k > 0 ==> Select(parts, comunas[i].id, sel) == [mine[k - 1]])
  {
    var c := comunas[i].id;
    var parts := CityParts(lib, comunas, manzanas);
    var mine := ComunaParts(lib, c, comunas[i].geometry, manzanas, DefaultParts);
    CityPartsOfComuna(lib, comunas, manzanas, c, i);
    ComunaPartsShape(lib, c, comunas[i].geometry, manzanas, DefaultParts);
    CityPartsWellLabelled(lib, comunas, manzanas);
    OptionsOf(parts, mine, c, k);
  }

  /** One option per part of the comuna, after "Todas". */
  lemma OptionsLength(parts: seq<Part>, c: ComunaId)
    ensures |SubparteOptions(parts, c)| == |OfComuna(parts, c)| + 1
  {
  }

  /** The options of a comuna whose parts are `mine`, and what each selects,
      in any well-labelled list. */
  lemma OptionsOf(parts: seq<Part>, mine: seq<Part>, c: ComunaId, k: nat)
    requires OfComuna(parts, c) == mine
    requires WellLabelled(parts) && BelongsTo(mine, c) && LabelsUnique(mine)
    requires k < |SubparteOptions(parts, c)|
    ensures SubparteOptions(parts, c) == [Todas] + Labels(mine)
    ensures k == 0 ==> Select(parts, c, SubparteOptions(parts, c)[k]) == mine
    ensures k > 0 ==> Select(parts, c, SubparteOptions(parts, c)[k]) == [mine[k - 1]]
  {
    OptionsLength(parts, c);
    assert SubparteOptions(parts, c) == [Todas] + Labels(mine);
    if k > 0 {
      assert ([Todas] + Labels(mine))[k] == Labels(mine)[k - 1] == mine[k - 1].subparte;
      SelectLabelOfComuna(parts, mine, c, k - 1);
    }
  }

  /** A label of a comuna's part selects that part alone from the city list. */
  lemma CitySelectLabel(lib: Lib, comunas: seq<Comuna>, manzanas: seq<Geom>, i: nat, j: nat)
    requires lib.Valid() && DistinctIds(comunas) && i < |comunas|
    requires j < |ComunaParts(lib, comunas[i].id, comunas[i].geometry, manzanas, DefaultParts)|
    ensures var mine := ComunaParts(lib, comunas[i].id, comunas[i].geometry, manzanas, DefaultParts);
      Select(CityParts(lib, comunas, manzanas), comunas[i].id, mine[j].subparte) == [mine[j]]
  {
    var c := comunas[i].id;
    var parts := CityParts(lib, comunas, manzanas);
    var mine := ComunaParts(lib, c, comunas[i].geometry, manzanas, DefaultParts);
    CityPartsOfComuna(lib, comunas, manzanas, c, i);
    ComunaPartsShape(lib, c, comunas[i].geometry, manzanas, DefaultParts);
    CityPartsWellLabelled(lib, comunas, manzanas);
    SelectLabelOfComuna(parts, mine, c, j);
  }

  /** A label of comuna `c` selects the one part that carries it. */
  lemma SelectLabelOfComuna(parts: seq<Part>, mine: seq<Part>, c: ComunaId, j: nat)
    requires OfComuna(parts, c) == mine && j < |mine|
    requires WellLabelled(parts) && BelongsTo(mine, c) && LabelsUnique(mine)
    ensures Select(parts, c, mine[j].subparte) == [mine[j]]
  {
    var sel := mine[j].subparte;
    PrefixedIsNotTodas(c, sel);
    WithSubparteOfComuna(parts, c, sel);
    SelectUniqueLabel(mine, j);
  }

  lemma UniqueAppend(a: seq<Part>, b: seq<Part>, id: ComunaId)
    requires LabelsUnique(a) && WellLabelled(a)
    requires forall j :: 0 <= j < |a| ==> a[j].comuna != id
    requires LabelsUnique(b) && BelongsTo(b, id)
    ensures LabelsUnique(a + b)
  {
    forall x, y | 0 <= x < y < |a + b|
      ensures (a + b)[x].subparte != (a + b)[y].subparte
    {
      if x < |a| && y >= |a| {
        var p, q := a[x], b[y - |a|];
        if p.subparte == q.subparte {
          PrefixDeterminesComuna(p.comuna, id, p.subparte);
        }
      } else if y < |a| {
        assert (a + b)[x] == a[x] && (a + b)[y] == a[y];
      } else {
        assert (a + b)[x] == b[x - |a|] && (a + b)[y] == b[y - |a|];
      }
    }
  }

  /** With distinct ids no two parts of the city list share a label. */
  lemma {:induction false} CityLabelsUnique(lib: Lib, comunas: seq<Comuna>, manzanas: seq<Geom>)
    requires lib.Valid() && DistinctIds(comunas)
    ensures LabelsUnique(CityParts(lib, comunas, manzanas))
  {
    if |comunas| > 0 {
      var last := |comunas| - 1;
      var front := comunas[..last];
      var row := comunas[last];
      assert DistinctIds(front);
      CityLabelsUnique(lib, front, manzanas);
      CityPartsWellLabelled(lib, front, manzanas);
      CityPartsOfAbsent(lib, front, manzanas, row.id);
      var a := CityParts(lib, front, manzanas);
      OfComunaNonEmpty(a, row.id);
      ComunaPartsShape(lib, row.id, row.geometry, manzanas, DefaultParts);
      UniqueAppend(a, ComunaParts(lib, row.id, row.geometry, manzanas, DefaultParts), row.id);
    }
  }
}
