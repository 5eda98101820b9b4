/** The partitioning pipeline both app files run for one comuna: keep the
    blocks (manzanas) that meet the comuna and clip them to it, label each
    block with a group (the degenerate rule or k-means), then build one part
    per group present, in ascending group order, labelled
    "Comuna {id} - Parte {g+1}" and holding the union of the group's blocks. */
module Subcomunas {
  import opened Text
  import opened Geo

  type ComunaId = nat

  /** One row of the comunas frame. */
  datatype Comuna = Comuna(id: ComunaId, geometry: Geom)

  /** One produced sub-region: the record built per group. */
  datatype Part = Part(comuna: ComunaId, subparte: string, geometry: Geom)

  /** The numpy dtype of the `grupo` column: `np.zeros` gives float64,
      `KMeans.fit_predict` gives int32. It decides how `g + 1` is printed. */
  datatype Dtype = Float64 | Int32

  /** The `grupo` column: one label per block, and its dtype. */
  datatype Grouping = Grouping(dtype: Dtype, labels: seq<nat>)

  /** The option that stands for every part. */
  const Todas: string := "Todas"

  // ---------------------------------------------------------------------
  // Spatial filter

  /** `manzanas[manzanas.intersects(mask)].clip(mask)`: the intersecting
      blocks, in frame order, each cut down to the mask. */
  function FilterClip(lib: Lib, mask: Geom, blocks: seq<Geom>): (r: seq<Geom>)
    ensures |r| <= |blocks|
    ensures |r| == 0 <==> forall i :: 0 <= i < |blocks| ==> !lib.intersects(blocks[i], mask)
  {
    if |blocks| == 0 then []
    else
      var last := |blocks| - 1;
      var front := blocks[..last];
      assert forall i :: 0 <= i < last ==> front[i] == blocks[i];
      var rest := FilterClip(lib, mask, front);
      if lib.intersects(blocks[last], mask) then rest + [lib.clip(blocks[last], mask)] else rest
  }

  /** Every kept geometry is the clip of an intersecting block, and the clip
      of every intersecting block is kept. */
  lemma {:induction false} FilterClipElements(lib: Lib, mask: Geom, blocks: seq<Geom>)
    ensures var r := FilterClip(lib, mask, blocks);
      && (forall j :: 0 <= j < |r| ==>
            exists i :: 0 <= i < |blocks| && lib.intersects(blocks[i], mask) && r[j] == lib.clip(blocks[i], mask))
      && (forall i :: 0 <= i < |blocks| && lib.intersects(blocks[i], mask) ==> lib.clip(blocks[i], mask) in r)
  {
    if |blocks| > 0 {
      var last := |blocks| - 1;
      var front := blocks[..last];
      FilterClipElements(lib, mask, front);
      var rest := FilterClip(lib, mask, front);
      var r := FilterClip(lib, mask, blocks);
      forall j | 0 <= j < |r|
        ensures exists i :: 0 <= i < |blocks| && lib.intersects(blocks[i], mask) && r[j] == lib.clip(blocks[i], mask)
      {
        if j < |rest| {
          var i :| 0 <= i < |front| && lib.intersects(front[i], mask) && rest[j] == lib.clip(front[i], mask);
          assert blocks[i] == front[i];
          assert r[j] == rest[j];
        } else {
          assert r[j] == lib.clip(blocks[last], mask);
        }
      }
      forall i | 0 <= i < |blocks| && lib.intersects(blocks[i], mask)
        ensures lib.clip(blocks[i], mask) in r
      {
        if i < last {
          assert blocks[i] == front[i];
          assert lib.clip(front[i], mask) in rest;
        }
      }
    }
  }

  /** The rows the filter keeps: the indices of the intersecting blocks,
      ascending, each once. */
  function KeptRows(lib: Lib, mask: Geom, blocks: seq<Geom>): (idx: seq<nat>)
    ensures forall j :: 0 <= j < |idx| ==> idx[j] < |blocks|
  {
    if |blocks| == 0 then []
    else
      var last := |blocks| - 1;
      var rest := KeptRows(lib, mask, blocks[..last]);
      if lib.intersects(blocks[last], mask) then rest + [last] else rest
  }

  /** The kept rows are ascending, each meets the mask, and every row that
      meets the mask is kept. */
  lemma {:induction false} KeptRowsExact(lib: Lib, mask: Geom, blocks: seq<Geom>)
    ensures var idx := KeptRows(lib, mask, blocks);
      && StrictlyIncreasing(idx)
      && (forall j :: 0 <= j < |idx| ==> lib.intersects(blocks[idx[j]], mask))
      && (forall i :: 0 <= i < |blocks| && lib.intersects(blocks[i], mask) ==> i in idx)
  {
    if |blocks| > 0 {
      var last := |blocks| - 1;
      var front := blocks[..last];
      KeptRowsExact(lib, mask, front);
      var rest, idx := KeptRows(lib, mask, front), KeptRows(lib, mask, blocks);
      var hit := lib.intersects(blocks[last], mask);
      assert idx == rest + (if hit then [last] else []);
      forall j | 0 <= j < |idx|
        ensures lib.intersects(blocks[idx[j]], mask)
      {
        if j < |rest| {
          assert idx[j] == rest[j] && blocks[rest[j]] == front[rest[j]];
        }
      }
      forall i | 0 <= i < |blocks| && lib.intersects(blocks[i], mask)
        ensures i in idx
      {
        if i < last {
          assert front[i] == blocks[i];
          assert i in rest;
        }
      }
    }
  }

  /** The filter holds one clip per kept row, in row order: so its length,
      which the labelling rule compares with `n_partes`, is the number of
      blocks that meet the mask. */
  lemma {:induction false} FilterClipIsKeptRows(lib: Lib, mask: Geom, blocks: seq<Geom>)
    ensures var r := FilterClip(lib, mask, blocks);
      var idx := KeptRows(lib, mask, blocks);
      && |r| == |idx|
      && forall j :: 0 <= j < |r| ==> r[j] == lib.clip(blocks[idx[j]], mask)
  {
    if |blocks| > 0 {
      var last := |blocks| - 1;
      var front := blocks[..last];
      FilterClipIsKeptRows(lib, mask, front);
      FilterSnoc(lib, mask, blocks);
      var rest, restIdx := FilterClip(lib, mask, front), KeptRows(lib, mask, front);
      var r, idx := FilterClip(lib, mask, blocks), KeptRows(lib, mask, blocks);
      forall j | 0 <= j < |r|
        ensures r[j] == lib.clip(blocks[idx[j]], mask)
      {
        if j < |rest| {
          assert r[j] == rest[j] && idx[j] == restIdx[j] < |front|;
          assert blocks[idx[j]] == front[restIdx[j]];
        } else {
          assert r[j] == lib.clip(blocks[last], mask) && idx[j] == last;
        }
      }
    }
  }

  /** One more block adds its clip and its row, or neither. */
  lemma FilterSnoc(lib: Lib, mask: Geom, blocks: seq<Geom>)
    requires |blocks| > 0
    ensures var last := |blocks| - 1;
      var hit := lib.intersects(blocks[last], mask);
      && FilterClip(lib, mask, blocks)
         == FilterClip(lib, mask, blocks[..last]) + (if hit then [lib.clip(blocks[last], mask)] else [])
      && KeptRows(lib, mask, blocks) == KeptRows(lib, mask, blocks[..last]) + (if hit then [last] else [])
  {
    FilterClipSnoc(lib, mask, blocks);
    KeptRowsSnoc(lib, mask, blocks);
  }

  lemma FilterClipSnoc(lib: Lib, mask: Geom, blocks: seq<Geom>)
    requires |blocks| > 0
    ensures var last := |blocks| - 1;
      FilterClip(lib, mask, blocks)
        == FilterClip(lib, mask, blocks[..last])
           + (if lib.intersects(blocks[last], mask) then [lib.clip(blocks[last], mask)] else [])
  {
    var last := |blocks| - 1;
    var rest := FilterClip(lib, mask, blocks[..last]);
    if lib.intersects(blocks[last], mask) {
      assert FilterClip(lib, mask, blocks) == rest + [lib.clip(blocks[last], mask)];
    } else {
      assert FilterClip(lib, mask, blocks) == rest;
      assert rest + [] == rest;
    }
  }

  lemma KeptRowsSnoc(lib: Lib, mask: Geom, blocks: seq<Geom>)
    requires |blocks| > 0
    ensures var last := |blocks| - 1;
      KeptRows(lib, mask, blocks)
        == KeptRows(lib, mask, blocks[..last]) + (if lib.intersects(blocks[last], mask) then [last] else [])
  {
    var last := |blocks| - 1;
    var rest := KeptRows(lib, mask, blocks[..last]);
    if !lib.intersects(blocks[last], mask) {
      assert rest + [] == rest;
    }
  }

  // ---------------------------------------------------------------------
  // Group assignment

  /** The centroid of every block, in order. */
  function Centroids(lib: Lib, blocks: seq<Geom>): (pts: seq<Point>)
    ensures |pts| == |blocks|
  {
    seq(|blocks|, i requires 0 <= i < |blocks| => lib.centroid(blocks[i]))
  }

  /** The labelling rule: with fewer points than `n` every point gets the
      float label 0; otherwise k-means with `n` clusters labels them. */
  function AssignLabels(lib: Lib, coords: seq<Point>, n: nat): (g: Grouping)
    requires lib.Valid() && n >= 1
    ensures |g.labels| == |coords|
    ensures forall i :: 0 <= i < |g.labels| ==> g.labels[i] < n
    ensures g.dtype == Float64 <==> |coords| < n
    ensures |coords| < n ==> forall i :: 0 <= i < |g.labels| ==> g.labels[i] == 0
    ensures |coords| >= n ==> g.labels == lib.kmeans(coords, n)
  {
    if |coords| < n then Grouping(Float64, seq(|coords|, _ => 0))
    else Grouping(Int32, lib.kmeans(coords, n))
  }

  /** `dividir_manzanas` of the cached app: the `grupo` column of a copy of
      the blocks, computed from their centroids. */
  function Divide(lib: Lib, blocks: seq<Geom>, n: nat): (g: Grouping)
    requires lib.Valid() && n >= 1
    ensures IsLabelling(g.labels, |blocks|, n)
    ensures g.dtype == Float64 <==> |blocks| < n
    ensures |blocks| < n ==> forall i :: 0 <= i < |g.labels| ==> g.labels[i] == 0
    ensures |blocks| >= n ==> g.labels == lib.kmeans(Centroids(lib, blocks), n)
  {
    AssignLabels(lib, Centroids(lib, blocks), n)
  }

  /** On the filtered blocks, the degenerate branch runs exactly when fewer
      than `n` blocks meet the mask. */
  lemma DegenerateExactly(lib: Lib, mask: Geom, manzanas: seq<Geom>, n: nat)
    requires lib.Valid() && n >= 1
    ensures Divide(lib, FilterClip(lib, mask, manzanas), n).dtype == Float64
            <==> |KeptRows(lib, mask, manzanas)| < n
  {
    FilterClipIsKeptRows(lib, mask, manzanas);
  }

  // ---------------------------------------------------------------------
  // Group keys in `groupby` order

  predicate StrictlyIncreasing(s: seq<nat>) {
    forall i, j :: 0 <= i < j < |s| ==> s[i] < s[j]
  }

  /** The values below `bound` that occur in `xs`, ascending. */
  function KeysBelow(xs: seq<nat>, bound: nat): (r: seq<nat>)
    ensures StrictlyIncreasing(r)
    ensures forall v :: v in r <==> v < bound && v in xs
  {
    if bound == 0 then []
    else
      var r := KeysBelow(xs, bound - 1);
      assert forall i :: 0 <= i < |r| ==> r[i] in r;
      if bound - 1 in xs then r + [bound - 1] else r
  }

  /** One more than every value of `xs`. */
  function Bound(xs: seq<nat>): (b: nat)
    ensures forall i :: 0 <= i < |xs| ==> xs[i] < b
  {
    if |xs| == 0 then 0
    else
      var b := Bound(xs[1..]);
      assert forall i :: 1 <= i < |xs| ==> xs[i] == xs[1..][i - 1];
      if xs[0] < b then b else xs[0] + 1
  }

  /** The distinct values of `xs` in ascending order: the keys `groupby`
      visits and what `sorted(...unique())` returns. */
  function SortedDistinct(xs: seq<nat>): (r: seq<nat>)
    ensures StrictlyIncreasing(r)
    ensures forall v :: v in r <==> v in xs
  {
    KeysBelow(xs, Bound(xs))
  }

  /** An ascending sequence of values below `n` has at most `n` elements. */
  lemma IncreasingBelowBound(s: seq<nat>, n: nat)
    requires StrictlyIncreasing(s)
    requires forall i :: 0 <= i < |s| ==> s[i] < n
    ensures |s| <= n
  {
    if |s| > n {
      IncreasingAtLeastIndex(s, n);
    }
  }

  lemma {:induction false} IncreasingAtLeastIndex(s: seq<nat>, i: nat)
    requires StrictlyIncreasing(s) && i < |s|
    ensures s[i] >= s[0] + i
  {
    if i > 0 {
      IncreasingAtLeastIndex(s, i - 1);
    }
  }

  // ---------------------------------------------------------------------
  // Group members

  /** The blocks labelled `k`, in frame order: one `groupby` group. */
  function Members(blocks: seq<Geom>, labels: seq<nat>, k: nat): (r: seq<Geom>)
    requires |labels| == |blocks|
    ensures |r| <= |blocks|
    ensures |r| > 0 <==> k in labels
  {
    if |blocks| == 0 then []
    else
      var last := |blocks| - 1;
      assert labels == labels[..last] + [labels[last]];
      var rest := Members(blocks[..last], labels[..last], k);
      if labels[last] == k then rest + [blocks[last]] else rest
  }

  /** The group of `k` holds exactly the blocks labelled `k`: each of them,
      and nothing else. */
  lemma {:induction false} MembersExact(blocks: seq<Geom>, labels: seq<nat>, k: nat)
    requires |labels| == |blocks|
    ensures var r := Members(blocks, labels, k);
      && (forall i :: 0 <= i < |blocks| && labels[i] == k ==> blocks[i] in r)
      && (forall g :: g in r ==> exists i :: 0 <= i < |blocks| && labels[i] == k && blocks[i] == g)
  {
    if |blocks| > 0 {
      var last := |blocks| - 1;
      var front, frontLabels := blocks[..last], labels[..last];
      MembersExact(front, frontLabels, k);
      var rest := Members(front, frontLabels, k);
      var r := Members(blocks, labels, k);
      assert r == if labels[last] == k then rest + [blocks[last]] else rest;
      forall i | 0 <= i < |blocks| && labels[i] == k
        ensures blocks[i] in r
      {
        if i < last {
          assert front[i] == blocks[i] && frontLabels[i] == labels[i];
        }
      }
      forall g | g in r
        ensures exists i :: 0 <= i < |blocks| && labels[i] == k && blocks[i] == g
      {
        if g in rest {
          var i :| 0 <= i < last && frontLabels[i] == k && front[i] == g;
          assert labels[i] == k && blocks[i] == g;
        } else {
          assert labels[last] == k && blocks[last] == g;
        }
      }
    }
  }

  /** The groups for `keys`, one after the other. */
  function GroupedBlocks(blocks: seq<Geom>, labels: seq<nat>, keys: seq<nat>): seq<Geom>
    requires |labels| == |blocks|
  {
    if |keys| == 0 then []
    else GroupedBlocks(blocks, labels, keys[..|keys| - 1]) + Members(blocks, labels, keys[|keys| - 1])
  }

  lemma {:induction false} GroupedBlocksOfNone(keys: seq<nat>)
    ensures GroupedBlocks([], [], keys) == []
  {
    if |keys| > 0 {
      GroupedBlocksOfNone(keys[..|keys| - 1]);
    }
  }

  lemma SnocMembership(s: seq<nat>, x: nat)
    requires |s| > 0
    ensures x in s <==> x in s[..|s| - 1] || x == s[|s| - 1]
  {
    assert s == s[..|s| - 1] + [s[|s| - 1]];
  }

  /** In an ascending list, the earlier values are below the last one. */
  lemma BelowLastKey(s: seq<nat>, x: nat)
    requires |s| > 0 && StrictlyIncreasing(s)
    ensures x in s[..|s| - 1] ==> x < s[|s| - 1]
  {
    if x in s[..|s| - 1] {
      var i :| 0 <= i < |s| - 1 && s[..|s| - 1][i] == x;
      assert s[i] == x;
    }
  }

  /** Adding one block adds it to exactly the group of its label, if listed. */
  lemma {:induction false} GroupedBlocksSnoc(blocks: seq<Geom>, labels: seq<nat>, keys: seq<nat>)
    requires |labels| == |blocks| > 0
    requires StrictlyIncreasing(keys)
    ensures var n := |blocks| - 1;
      multiset(GroupedBlocks(blocks, labels, keys))
        == multiset(GroupedBlocks(blocks[..n], labels[..n], keys))
           + (if labels[n] in keys then multiset{blocks[n]} else multiset{})
  {
    var n := |blocks| - 1;
    if |keys| > 0 {
      var m := |keys| - 1;
      var init := keys[..m];
      assert StrictlyIncreasing(init);
      GroupedBlocksSnoc(blocks, labels, init);
      var added := if labels[n] in init then multiset{blocks[n]} else multiset{};
      var extra := if labels[n] == keys[m] then multiset{blocks[n]} else multiset{};
      MembersSnoc(blocks, labels, keys[m]);
      GroupedBlocksStep(blocks, labels, keys);
      GroupedBlocksStep(blocks[..n], labels[..n], keys);
      KeySnoc(keys, labels[n], multiset{blocks[n]});
      Rearrange(multiset(GroupedBlocks(blocks[..n], labels[..n], init)), added,
                multiset(Members(blocks[..n], labels[..n], keys[m])), extra);
    }
  }

  /** One more block joins the group of `k` exactly when it is labelled `k`. */
  lemma MembersSnoc(blocks: seq<Geom>, labels: seq<nat>, k: nat)
    requires |labels| == |blocks| > 0
    ensures var n := |blocks| - 1;
      multiset(Members(blocks, labels, k))
        == multiset(Members(blocks[..n], labels[..n], k)) + (if labels[n] == k then multiset{blocks[n]} else multiset{})
  {
  }

  /** The groups for `keys` are those for all but the last key, then the last key's. */
  lemma GroupedBlocksStep(blocks: seq<Geom>, labels: seq<nat>, keys: seq<nat>)
    requires |labels| == |blocks| && |keys| > 0
    ensures var m := |keys| - 1;
      multiset(GroupedBlocks(blocks, labels, keys))
        == multiset(GroupedBlocks(blocks, labels, keys[..m])) + multiset(Members(blocks, labels, keys[m]))
  {
  }

  /** In an ascending list, a value is among the earlier keys or is the last
      key, never both. */
  lemma KeySnoc<T>(keys: seq<nat>, x: nat, a: multiset<T>)
    requires |keys| > 0 && StrictlyIncreasing(keys)
    ensures var m := |keys| - 1;
      (if x in keys[..m] then a else multiset{}) + (if x == keys[m] then a else multiset{})
        == (if x in keys then a else multiset{})
  {
    SnocMembership(keys, x);
    BelowLastKey(keys, x);
  }

  lemma MultisetSnoc<T>(s: seq<T>)
    requires |s| > 0
    ensures multiset(s) == multiset(s[..|s| - 1]) + multiset{s[|s| - 1]}
  {
    assert s == s[..|s| - 1] + [s[|s| - 1]];
  }

  lemma Rearrange<T>(a: multiset<T>, b: multiset<T>, c: multiset<T>, d: multiset<T>)
    ensures (a + b) + (c + d) == (a + c) + (b + d)
  {
  }

  /** The groups partition the blocks: taken together they hold every block
      exactly once, as long as the keys list every label once. */
  lemma {:induction false} GroupsPartitionBlocks(blocks: seq<Geom>, labels: seq<nat>, keys: seq<nat>)
    requires |labels| == |blocks|
    requires StrictlyIncreasing(keys)
    requires forall i :: 0 <= i < |labels| ==> labels[i] in keys
    ensures multiset(GroupedBlocks(blocks, labels, keys)) == multiset(blocks)
  {
    if |blocks| == 0 {
      GroupedBlocksOfNone(keys);
    } else {
      var n := |blocks| - 1;
      var front, frontLabels := blocks[..n], labels[..n];
      forall i | 0 <= i < n
        ensures frontLabels[i] in keys
      {
        assert frontLabels[i] == labels[i];
      }
      GroupsPartitionBlocks(front, frontLabels, keys);
      GroupedBlocksSnoc(blocks, labels, keys);
      assert labels[n] in keys;
      MultisetSnoc(blocks);
    }
  }

  /** With every label equal to `k`, the group of `k` is all of the blocks. */
  lemma {:induction false} MembersOfUniformLabels(blocks: seq<Geom>, labels: seq<nat>, k: nat)
    requires |labels| == |blocks|
    requires forall i :: 0 <= i < |labels| ==> labels[i] == k
    ensures Members(blocks, labels, k) == blocks
  {
    if |blocks| > 0 {
      var last := |blocks| - 1;
      MembersOfUniformLabels(blocks[..last], labels[..last], k);
      assert blocks == blocks[..last] + [blocks[last]];
    }
  }

  // ---------------------------------------------------------------------
  // Labels

  /** `f'{g}'` for the value `g` of the column's dtype. */
  function KeyText(dtype: Dtype, g: nat): string {
    NatText(g) + FloatSuffix(dtype)
  }

  /** An integral float prints with ".0", an int with nothing after it. */
  function FloatSuffix(dtype: Dtype): string {
    if dtype == Float64 then ".0" else ""
  }

  function LabelPrefix(id: ComunaId): string {
    "Comuna " + NatText(id) + " - Parte "
  }

  /** `f'Comuna {comuna_id} - Parte {grupo_id + 1}'`. */
  function GroupLabel(id: ComunaId, dtype: Dtype, g: nat): string {
    LabelPrefix(id) + KeyText(dtype, g + 1)
  }

  /** Only a float label prints with a decimal point. */
  lemma KeyTextHasPoint(d: Dtype, g: nat)
    ensures '.' in KeyText(d, g) <==> d == Float64
  {
    var G := NatText(g);
    if d == Float64 {
      assert (G + ".0")[|G|] == '.';
    } else {
      assert KeyText(d, g) == G + "" == G;
      assert forall i :: 0 <= i < |G| ==> G[i] != '.';
    }
  }

  /** The printed group number determines the dtype and the number. */
  lemma KeyTextInjective(d1: Dtype, a: nat, d2: Dtype, b: nat)
    requires KeyText(d1, a) == KeyText(d2, b)
    ensures d1 == d2 && a == b
  {
    KeyTextHasPoint(d1, a);
    KeyTextHasPoint(d2, b);
    var A, B := NatText(a), NatText(b);
    var t := FloatSuffix(d1);
    assert FloatSuffix(d2) == t;
    assert A == (A + t)[..|A|];
    assert B == (B + t)[..|B|];
    assert |A| == |B|;
    NatTextInjective(a, b);
  }

  /** The number of decimal digits `s` starts with. */
  function LeadingDigits(s: string): nat {
    if |s| > 0 && '0' <= s[0] <= '9' then 1 + LeadingDigits(s[1..]) else 0
  }

  lemma {:induction false} LeadingDigitsOfNumeral(A: string, t: string)
    requires IsDigits(A)
    requires |t| > 0 && !('0' <= t[0] <= '9')
    ensures LeadingDigits(A + t) == |A|
  {
    if |A| > 0 {
      assert (A + t)[1..] == A[1..] + t;
      LeadingDigitsOfNumeral(A[1..], t);
    } else {
      assert A + t == t;
    }
  }

  /** Two numerals followed by non-digits cannot overlap unequal. */
  lemma NumeralsAgree(A: string, t1: string, B: string, t2: string)
    requires IsDigits(A) && IsDigits(B) && A + t1 == B + t2
    requires |t1| > 0 && !('0' <= t1[0] <= '9')
    requires |t2| > 0 && !('0' <= t2[0] <= '9')
    ensures A == B
  {
    LeadingDigitsOfNumeral(A, t1);
    LeadingDigitsOfNumeral(B, t2);
    assert A == (A + t1)[..|A|];
    assert B == (B + t2)[..|B|];
  }

  /** What follows "Comuna " in a label is the id's numeral and a space. */
  lemma PrefixTail(id: ComunaId, s: string)
    requires LabelPrefix(id) <= s
    ensures var A := NatText(id);
      7 + |A| < |s| && s[7..] == A + s[7 + |A|..] && s[7 + |A|] == ' '
  {
    var A := NatText(id);
    var p := LabelPrefix(id);
    assert p == "Comuna " + A + " - Parte ";
    assert |p| == 7 + |A| + 9;
    assert p[7..7 + |A|] == A;
    assert p[7 + |A|] == ' ';
    assert s[7..7 + |A|] == p[7..7 + |A|];
    assert s[7..] == s[7..7 + |A|] + s[7 + |A|..];
  }

  /** A label's prefix names exactly one comuna. */
  lemma PrefixDeterminesComuna(a: ComunaId, b: ComunaId, s: string)
    requires LabelPrefix(a) <= s && LabelPrefix(b) <= s
    ensures a == b
  {
    var A, B := NatText(a), NatText(b);
    PrefixTail(a, s);
    PrefixTail(b, s);
    NumeralsAgree(A, s[7 + |A|..], B, s[7 + |B|..]);
    NatTextInjective(a, b);
  }

  /** A label names one comuna, one dtype and one group. */
  lemma GroupLabelInjective(a: ComunaId, d1: Dtype, g1: nat, b: ComunaId, d2: Dtype, g2: nat)
    requires GroupLabel(a, d1, g1) == GroupLabel(b, d2, g2)
    ensures a == b && d1 == d2 && g1 == g2
  {
    var p := LabelPrefix(a);
    var s := p + KeyText(d1, g1 + 1);
    assert s == GroupLabel(a, d1, g1);
    assert LabelPrefix(b) <= GroupLabel(b, d2, g2);
    PrefixDeterminesComuna(a, b, s);
    assert s == p + KeyText(d2, g2 + 1);
    assert s[|p|..] == KeyText(d1, g1 + 1);
    assert s[|p|..] == KeyText(d2, g2 + 1);
    KeyTextInjective(d1, g1 + 1, d2, g2 + 1);
  }

  /** No label is the "Todas" option. */
  lemma GroupLabelIsNotTodas(id: ComunaId, dtype: Dtype, g: nat)
    ensures GroupLabel(id, dtype, g) != Todas
  {
    var text := GroupLabel(id, dtype, g);
    assert text[..|LabelPrefix(id)|] == LabelPrefix(id);
    PrefixedIsNotTodas(id, text);
  }

  /** Nothing that starts with a label prefix is the "Todas" option. */
  lemma PrefixedIsNotTodas(id: ComunaId, s: string)
    requires LabelPrefix(id) <= s
    ensures s != Todas
  {
    assert s[0] == LabelPrefix(id)[0] == 'C';
  }

  /** Comuna 7 with group index 2, and the degenerate group. */
  lemma LabelExample()
    ensures GroupLabel(7, Int32, 2) == "Comuna 7 - Parte 3"
    ensures GroupLabel(7, Float64, 0) == "Comuna 7 - Parte 1.0"
  {
  }

  // ---------------------------------------------------------------------
  // Merger

  /** No two parts share a label. */
  predicate LabelsUnique(parts: seq<Part>) {
    forall i, j :: 0 <= i < j < |parts| ==> parts[i].subparte != parts[j].subparte
  }

  /** Every part belongs to comuna `id` and carries its label prefix. */
  predicate BelongsTo(parts: seq<Part>, id: ComunaId) {
    forall j :: 0 <= j < |parts| ==> parts[j].comuna == id && LabelPrefix(id) <= parts[j].subparte
  }

  /** The `subparte` column, in order. */
  function Labels(parts: seq<Part>): (ls: seq<string>)
    ensures |ls| == |parts|
  {
    seq(|parts|, i requires 0 <= i < |parts| => parts[i].subparte)
  }

  /** The part built for group `k`. */
  function GroupPart(lib: Lib, id: ComunaId, blocks: seq<Geom>, grouping: Grouping, k: nat): Part
    requires |grouping.labels| == |blocks|
  {
    Part(id, GroupLabel(id, grouping.dtype, k), lib.unaryUnion(Members(blocks, grouping.labels, k)))
  }

  /** The records `groupby('grupo')` turns into: one per key, ascending. */
  function MergedParts(lib: Lib, id: ComunaId, blocks: seq<Geom>, grouping: Grouping): seq<Part>
    requires |grouping.labels| == |blocks|
  {
    var keys := SortedDistinct(grouping.labels);
    seq(|keys|, j requires 0 <= j < |keys| => GroupPart(lib, id, blocks, grouping, keys[j]))
  }

  /** The loop over the groups, appending one record per group. */
  method MergeGroups(lib: Lib, id: ComunaId, blocks: seq<Geom>, grouping: Grouping) returns (parts: seq<Part>)
    requires |grouping.labels| == |blocks|
    ensures parts == MergedParts(lib, id, blocks, grouping)
  {
    var keys := SortedDistinct(grouping.labels);
    ghost var all := MergedParts(lib, id, blocks, grouping);
    parts := [];
    var j := 0;
    while j < |keys|
      invariant 0 <= j <= |keys| == |all|
      invariant parts == all[..j]
    {
      var members := Members(blocks, grouping.labels, keys[j]);
      var part := Part(id, GroupLabel(id, grouping.dtype, keys[j]), lib.unaryUnion(members));
      assert part == all[j];
      assert all[..j + 1] == all[..j] + [all[j]];
      parts := parts + [part];
      j := j + 1;
    }
    assert all[..j] == all;
  }

  /** There is a part for a group value exactly when some block has that
      value, and it is that group's label and union. */
  lemma MergedPartsCoverGroups(lib: Lib, id: ComunaId, blocks: seq<Geom>, grouping: Grouping, v: nat)
    requires |grouping.labels| == |blocks|
    ensures var parts := MergedParts(lib, id, blocks, grouping);
      v in grouping.labels <==>
        exists j :: 0 <= j < |parts| && parts[j] == Part(id, GroupLabel(id, grouping.dtype, v),
                                                          lib.unaryUnion(Members(blocks, grouping.labels, v)))
  {
    var parts := MergedParts(lib, id, blocks, grouping);
    var keys := SortedDistinct(grouping.labels);
    if v in grouping.labels {
      var j :| 0 <= j < |keys| && keys[j] == v;
      assert parts[j] == GroupPart(lib, id, blocks, grouping, v);
    }
    if j :| 0 <= j < |parts| && parts[j].subparte == GroupLabel(id, grouping.dtype, v) {
      GroupLabelInjective(id, grouping.dtype, keys[j], id, grouping.dtype, v);
      assert keys[j] in keys;
    }
  }

  /** The parts come in ascending group order and each group is non-empty. */
  lemma MergedPartsAscending(lib: Lib, id: ComunaId, blocks: seq<Geom>, grouping: Grouping, i: nat, j: nat, vi: nat, vj: nat)
    requires |grouping.labels| == |blocks|
    requires i < j < |MergedParts(lib, id, blocks, grouping)|
    requires MergedParts(lib, id, blocks, grouping)[i].subparte == GroupLabel(id, grouping.dtype, vi)
    requires MergedParts(lib, id, blocks, grouping)[j].subparte == GroupLabel(id, grouping.dtype, vj)
    ensures vi < vj
    ensures |Members(blocks, grouping.labels, vi)| > 0 && |Members(blocks, grouping.labels, vj)| > 0
  {
    var keys := SortedDistinct(grouping.labels);
    GroupLabelInjective(id, grouping.dtype, keys[i], id, grouping.dtype, vi);
    GroupLabelInjective(id, grouping.dtype, keys[j], id, grouping.dtype, vj);
    assert keys[i] in keys && keys[j] in keys;
  }

  /** The parts of one comuna belong to it and have distinct labels. */
  lemma MergedPartsWellLabelled(lib: Lib, id: ComunaId, blocks: seq<Geom>, grouping: Grouping)
    requires |grouping.labels| == |blocks|
    ensures BelongsTo(MergedParts(lib, id, blocks, grouping), id)
    ensures LabelsUnique(MergedParts(lib, id, blocks, grouping))
  {
    var parts := MergedParts(lib, id, blocks, grouping);
    var keys := SortedDistinct(grouping.labels);
    forall i, j | 0 <= i < j < |parts|
      ensures parts[i].subparte != parts[j].subparte
    {
      if parts[i].subparte == parts[j].subparte {
        GroupLabelInjective(id, grouping.dtype, keys[i], id, grouping.dtype, keys[j]);
      }
    }
  }

  /** Each part's geometry is the union of its group, and the groups of all
      parts together hold every clipped block exactly once. */
  lemma MergedPartsPartition(lib: Lib, id: ComunaId, blocks: seq<Geom>, grouping: Grouping)
    requires |grouping.labels| == |blocks|
    ensures var keys := SortedDistinct(grouping.labels);
      var parts := MergedParts(lib, id, blocks, grouping);
      && |parts| == |keys|
      && (forall j :: 0 <= j < |parts| ==>
            parts[j].geometry == lib.unaryUnion(Members(blocks, grouping.labels, keys[j]))
            && |Members(blocks, grouping.labels, keys[j])| > 0)
      && multiset(GroupedBlocks(blocks, grouping.labels, keys)) == multiset(blocks)
  {
    var keys := SortedDistinct(grouping.labels);
    assert forall j :: 0 <= j < |keys| ==> keys[j] in keys;
    assert forall i :: 0 <= i < |grouping.labels| ==> grouping.labels[i] in keys;
    GroupsPartitionBlocks(blocks, grouping.labels, keys);
  }

  // ---------------------------------------------------------------------
  // One comuna, end to end

  /** Filter and clip, then (unless nothing is left) label and merge. */
  function ComunaParts(lib: Lib, id: ComunaId, mask: Geom, manzanas: seq<Geom>, n: nat): seq<Part>
    requires lib.Valid() && n >= 1
  {
    var clipped := FilterClip(lib, mask, manzanas);
    if |clipped| == 0 then [] else MergedParts(lib, id, clipped, Divide(lib, clipped, n))
  }

  /** A comuna gets no part exactly when no block meets it, and otherwise
      between 1 and `n` parts, all of it, with distinct labels. */
  lemma ComunaPartsShape(lib: Lib, id: ComunaId, mask: Geom, manzanas: seq<Geom>, n: nat)
    requires lib.Valid() && n >= 1
    ensures var parts := ComunaParts(lib, id, mask, manzanas, n);
      && (|parts| == 0 <==> forall i :: 0 <= i < |manzanas| ==> !lib.intersects(manzanas[i], mask))
      && |parts| <= n
      && BelongsTo(parts, id)
      && LabelsUnique(parts)
  {
    var clipped := FilterClip(lib, mask, manzanas);
    if |clipped| > 0 {
      var grouping := Divide(lib, clipped, n);
      var keys := SortedDistinct(grouping.labels);
      assert grouping.labels[0] in keys;
      assert forall j :: 0 <= j < |keys| ==> keys[j] in grouping.labels;
      IncreasingBelowBound(keys, n);
      MergedPartsWellLabelled(lib, id, clipped, grouping);
    }
  }

  /** A non-empty column of one repeated value has that value as its only key. */
  lemma SortedDistinctOfUniform(xs: seq<nat>, k: nat)
    requires |xs| > 0 && forall i :: 0 <= i < |xs| ==> xs[i] == k
    ensures SortedDistinct(xs) == [k]
  {
    var keys := SortedDistinct(xs);
    assert xs[0] in keys;
    forall i | 0 <= i < |keys|
      ensures keys[i] == k
    {
      assert keys[i] in keys;
      var j :| 0 <= j < |xs| && xs[j] == keys[i];
    }
    IncreasingAtLeastIndex(keys, |keys| - 1);
  }

  /** The label of the single degenerate group. */
  lemma DegenerateLabel(id: ComunaId)
    ensures GroupLabel(id, Float64, 0) == "Comuna " + NatText(id) + " - Parte 1.0"
  {
    assert Digit(1) == '1';
    assert NatText(1) == [Digit(1)];
  }

  /** Fewer blocks than `n`: a single part, the union of all of them,
      whose label ends in "Parte 1.0". */
  lemma DegenerateSinglePart(lib: Lib, id: ComunaId, blocks: seq<Geom>, n: nat)
    requires lib.Valid() && 1 <= |blocks| < n
    ensures MergedParts(lib, id, blocks, Divide(lib, blocks, n))
      == [Part(id, "Comuna " + NatText(id) + " - Parte 1.0", lib.unaryUnion(blocks))]
  {
    var grouping := Divide(lib, blocks, n);
    SortedDistinctOfUniform(grouping.labels, 0);
    MergedPartsOfSingleKey(lib, id, blocks, grouping, 0);
    MembersOfUniformLabels(blocks, grouping.labels, 0);
    DegenerateLabel(id);
  }

  lemma MergedPartsOfSingleKey(lib: Lib, id: ComunaId, blocks: seq<Geom>, grouping: Grouping, k: nat)
    requires |grouping.labels| == |blocks|
    requires SortedDistinct(grouping.labels) == [k]
    ensures MergedParts(lib, id, blocks, grouping) == [GroupPart(lib, id, blocks, grouping, k)]
  {
  }

  // ---------------------------------------------------------------------
  // Selecting by label

  /** `parts[parts['subparte'] == sel]`. */
  function WithSubparte(parts: seq<Part>, sel: string): (r: seq<Part>)
    ensures forall p :: p in r ==> p in parts && p.subparte == sel
    ensures forall p :: p in parts && p.subparte == sel ==> p in r
  {
    if |parts| == 0 then []
    else
      var last := |parts| - 1;
      assert parts == parts[..last] + [parts[last]];
      var rest := WithSubparte(parts[..last], sel);
      if parts[last].subparte == sel then rest + [parts[last]] else rest
  }

  /** With distinct labels, selecting a part's label yields just that part. */
  lemma {:induction false} SelectUniqueLabel(parts: seq<Part>, j: nat)
    requires LabelsUnique(parts) && j < |parts|
    ensures WithSubparte(parts, parts[j].subparte) == [parts[j]]
  {
    var last := |parts| - 1;
    var front := parts[..last];
    if j < last {
      SelectUniqueLabel(front, j);
      assert front[j] == parts[j];
    } else {
      WithSubparteAbsent(front, parts[j].subparte);
    }
  }

  /** Selecting a label no part carries yields nothing. */
  lemma WithSubparteAbsent(parts: seq<Part>, sel: string)
    requires forall i :: 0 <= i < |parts| ==> parts[i].subparte != sel
    ensures WithSubparte(parts, sel) == []
  {
    if |parts| > 0 {
      WithSubparteAbsent(parts[..|parts| - 1], sel);
    }
  }
}
