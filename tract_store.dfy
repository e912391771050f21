/** The streamline store of `TractModel` as a value: the active streamlines
    with their colours and tags, the stacks of deleted streamlines grouped by
    `deleted_count`, the `is_cut` marks, the redo stack and the cut counter.
    Every editing operation of the class is a function from store to store
    here, and the properties of undo, redo and cutting are lemmas about
    these functions. */
module TractStore {
  import opened Common

  /** A streamline: its coordinates, three floats per point. */
  type Tract = seq<real>

  /** One redo entry: where an undone group was re-appended, and its size. */
  datatype Span = Span(offset: nat, count: nat)

  datatype Store = Store(
    data: seq<Tract>, color: seq<nat>, tag: seq<nat>,
    delData: seq<Tract>, delColor: seq<nat>, delTag: seq<nat>,
    delCount: seq<nat>, isCut: seq<nat>,
    redo: seq<Span>, cutId: nat, saved: bool)

  /** The three active arrays run in parallel, so do the three deleted
      stacks; the group sizes account for every deleted streamline; each
      group has its cut mark; cut ids start above 0. */
  predicate Valid(s: Store)
  {
    && |s.data| == |s.color| == |s.tag|
    && |s.delData| == |s.delColor| == |s.delTag|
    && Sum(s.delCount) == |s.delData|
    && |s.delCount| <= |s.isCut|
    && s.cutId > 0
  }

  predicate InRange(idx: seq<nat>, n: nat)
  {
    forall k :: 0 <= k < |idx| ==> idx[k] < n
  }

  predicate Distinct(idx: seq<nat>)
  {
    forall a, b :: 0 <= a < b < |idx| ==> idx[a] != idx[b]
  }

  predicate AllNonEmpty(ts: seq<Tract>)
  {
    forall i :: 0 <= i < |ts| ==> ts[i] != []
  }

  /** The entries of `xs` at the positions `idx`, in that order. */
  function Pick<T>(xs: seq<T>, idx: seq<nat>): (r: seq<T>)
    requires InRange(idx, |xs|)
    ensures |r| == |idx| && forall k :: 0 <= k < |idx| ==> r[k] == xs[idx[k]]
  {
    seq(|idx|, k requires 0 <= k < |idx| => xs[idx[k]])
  }

  /** `n` consecutive indices from `a`. */
  function Range(a: nat, n: nat): (r: seq<nat>)
    ensures |r| == n && forall k :: 0 <= k < n ==> r[k] == a + k
  {
    seq(n, k requires 0 <= k < n => a + k)
  }

  function Repeat<T>(x: T, n: nat): (r: seq<T>)
    ensures |r| == n && forall k :: 0 <= k < n ==> r[k] == x
  {
    seq(n, k requires 0 <= k < n => x)
  }

  /** The mask that keeps the positions below `n` not listed in `idx`. */
  function Outside(idx: seq<nat>, n: nat): (keep: seq<bool>)
    ensures |keep| == n && forall i :: 0 <= i < n ==> (keep[i] <==> i !in idx)
  {
    seq(n, i requires 0 <= i < n => i !in idx)
  }

  function NonEmpty(ts: seq<Tract>): (keep: seq<bool>)
    ensures |keep| == |ts| && forall i :: 0 <= i < |ts| ==> (keep[i] <==> ts[i] != [])
  {
    seq(|ts|, i requires 0 <= i < |ts| => ts[i] != [])
  }

  // ---------------------------------------------------------------------
  // erase_empty, clear, clear_deleted, add_tracts, add
  // ---------------------------------------------------------------------

  /** `erase_empty`: the empty streamlines go, with their colour and tag. */
  function EraseEmpty(s: Store): (r: Store)
    requires |s.data| == |s.color| == |s.tag|
  {
    var keep := NonEmpty(s.data);
    s.(data := Filter(s.data, keep), color := Filter(s.color, keep), tag := Filter(s.tag, keep))
  }

  /** `clear`: the active streamlines and the redo stack are emptied; the
      deleted stacks stay. */
  function Clear(s: Store): (r: Store)
  {
    s.(data := [], color := [], tag := [], redo := [])
  }

  /** `clear_deleted`: the deleted stacks and the redo stack are emptied;
      the `is_cut` marks stay. */
  function ClearDeleted(s: Store): (r: Store)
  {
    s.(delData := [], delColor := [], delTag := [], delCount := [], redo := [])
  }

  /** The new streamlines `kept` appended with colour `c` and tag 0. */
  function Appended(s: Store, kept: seq<Tract>, c: nat): (r: Store)
  {
    s.(data := s.data + kept, color := s.color + Repeat(c, |kept|),
       tag := s.tag + Repeat(0, |kept|), saved := false)
  }

  /** `add_tracts(new_tract, color)`: the non-empty new streamlines are
      appended with that colour and tag 0. */
  function AddTracts(s: Store, news: seq<Tract>, c: nat): (r: Store)
  {
    Appended(s, Filter(news, NonEmpty(news)), c)
  }

  /** The point count less one of a streamline of `size` values, in the
      unsigned 64-bit arithmetic of `size()/3-1`: below one point it wraps
      to the largest value. */
  function StepsOf(size: nat): nat
  {
    if size / 3 >= 1 then size / 3 - 1 else 0xFFFF_FFFF_FFFF_FFFF
  }

  /** The streamlines whose step count is not below the threshold. */
  function LongOnes(news: seq<Tract>, threshold: nat): (keep: seq<bool>)
    ensures |keep| == |news| && forall i :: 0 <= i < |news| ==> (keep[i] <==> StepsOf(|news[i]|) >= threshold)
  {
    seq(|news|, i requires 0 <= i < |news| => StepsOf(|news[i]|) >= threshold)
  }

  /** `add_tracts(new_tract, length_threshold, color)`: the new streamlines
      that pass the length test are appended with that colour and tag 0. */
  function AddLongTracts(s: Store, news: seq<Tract>, threshold: nat, c: nat): (r: Store)
  {
    Appended(s, Filter(news, LongOnes(news, threshold)), c)
  }

  /** Redo entries of another model, moved past this model's streamlines. */
  function Shift(rs: seq<Span>, d: nat): (r: seq<Span>)
    ensures |r| == |rs| && forall k :: 0 <= k < |rs| ==> r[k] == Span(rs[k].offset + d, rs[k].count)
  {
    seq(|rs|, k requires 0 <= k < |rs| => Span(rs[k].offset + d, rs[k].count))
  }

  /** `TractModel::add`: every list of the other model is appended, except
      its group sizes, which go in front of this model's. */
  function Add(s: Store, o: Store): (r: Store)
  {
    s.(redo := s.redo + Shift(o.redo, |s.data|),
       data := s.data + o.data, color := s.color + o.color, tag := s.tag + o.tag,
       delData := s.delData + o.delData, delColor := s.delColor + o.delColor,
       delTag := s.delTag + o.delTag,
       delCount := o.delCount + s.delCount, isCut := s.isCut + o.isCut)
  }

  // ---------------------------------------------------------------------
  // delete_tracts, select_tracts
  // ---------------------------------------------------------------------

  /** Moving one streamline onto the deleted stacks leaves an empty one in
      its place (a moved-from vector). */
  function MoveOne(s: Store, i: nat): (r: Store)
    requires i < |s.data| == |s.color| == |s.tag|
  {
    s.(data := s.data[i := []], delData := s.delData + [s.data[i]],
       delColor := s.delColor + [s.color[i]], delTag := s.delTag + [s.tag[i]])
  }

  /** The loop of `delete_tracts`: each listed streamline in turn. */
  function MoveOut(s: Store, idx: seq<nat>): (r: Store)
    requires |s.data| == |s.color| == |s.tag| && InRange(idx, |s.data|)
    ensures |r.data| == |s.data| && r.color == s.color && r.tag == s.tag
    ensures |r.delData| == |s.delData| + |idx|
    ensures |r.delColor| == |s.delColor| + |idx| && |r.delTag| == |s.delTag| + |idx|
    ensures r.delCount == s.delCount && r.isCut == s.isCut && r.redo == s.redo
    ensures r.cutId == s.cutId && r.saved == s.saved
  {
    if idx == [] then s
    else MoveOne(MoveOut(s, idx[..|idx| - 1]), idx[|idx| - 1])
  }

  /** `delete_tracts`: an empty list changes nothing; otherwise the listed
      streamlines go onto the deleted stacks as one group, not a cut, and
      the redo stack is dropped. */
  function DeleteTracts(s: Store, idx: seq<nat>): (r: Store)
    requires Valid(s) && InRange(idx, |s.data|)
    ensures Valid(r)
  {
    if idx == [] then s
    else
      var m := EraseEmpty(MoveOut(s, idx));
      FilterLength(MoveOut(s, idx).data, NonEmpty(MoveOut(s, idx).data));
      FilterLength(s.color, NonEmpty(MoveOut(s, idx).data));
      FilterLength(s.tag, NonEmpty(MoveOut(s, idx).data));
      SumSnoc(s.delCount, |idx|);
      m.(delCount := s.delCount + [|idx|], isCut := s.isCut + [0], redo := [], saved := m.data == [])
  }

  /** The loop of `delete_tracts` one index further. */
  lemma {:induction false} MoveOutStep(s: Store, idx: seq<nat>, k: nat)
    requires |s.data| == |s.color| == |s.tag| && InRange(idx, |s.data|) && k < |idx|
    ensures MoveOut(s, idx[..k + 1]) == MoveOne(MoveOut(s, idx[..k]), idx[k])
  {
    assert idx[..k + 1][..k] == idx[..k];
  }

  /** `delete_tracts` on a non-empty list, step by step. */
  lemma {:induction false} DeleteUnfold(s: Store, idx: seq<nat>)
    requires Valid(s) && InRange(idx, |s.data|) && idx != []
    ensures var m := EraseEmpty(MoveOut(s, idx));
      DeleteTracts(s, idx) == m.(delCount := s.delCount + [|idx|], isCut := s.isCut + [0], redo := [], saved := m.data == [])
  {
  }

  lemma {:induction false} SumSnoc(s: seq<nat>, n: nat)
    ensures Sum(s + [n]) == Sum(s) + n
  {
    assert (s + [n])[..|s|] == s;
  }

  /** The indices below `n` that `sel` does not list, in increasing order
      (the two loops of `select_tracts`). */
  function NotSelected(n: nat, sel: seq<nat>): (r: seq<nat>)
    ensures InRange(r, n)
  {
    if n == 0 then []
    else NotSelected(n - 1, sel) + (if n - 1 in sel then [] else [n - 1])
  }

  /** `select_tracts`: every streamline not listed is deleted, as one group. */
  function SelectTracts(s: Store, sel: seq<nat>): (r: Store)
    requires Valid(s) && InRange(sel, |s.data|)
  {
    DeleteTracts(s, NotSelected(|s.data|, sel))
  }

  // ---------------------------------------------------------------------
  // undo, redo
  // ---------------------------------------------------------------------

  /** Empties the active streamlines carrying `id` as their tag. */
  function ClearTagged(s: Store, id: nat): (r: Store)
    requires |s.data| == |s.tag|
    ensures |r.data| == |s.data|
  {
    s.(data := seq(|s.data|, i requires 0 <= i < |s.data| => if s.tag[i] == id then [] else s.data[i]))
  }

  /** The loop of `undo`: the top group is popped off the deleted stacks
      and re-appended, last deleted first, and the redo stack records
      where it went. */
  function Restore(s: Store): (r: Store)
    requires Valid(s) && s.delCount != []
    ensures |r.data| == |r.color| == |r.tag| && |r.delData| == |r.delColor| == |r.delTag|
    ensures Sum(s.delCount[..|s.delCount| - 1]) == |r.delData|
    ensures r.delCount == s.delCount && r.isCut == s.isCut && r.cutId == s.cutId
  {
    var n := s.delCount[|s.delCount| - 1];
    SumNat(s.delCount);
    var m := |s.delData| - n;
    s.(data := s.data + Reverse(s.delData[m..]),
       color := s.color + Reverse(s.delColor[m..]),
       tag := s.tag + Reverse(s.delTag[m..]),
       delData := s.delData[..m], delColor := s.delColor[..m], delTag := s.delTag[..m],
       redo := s.redo + [Span(|s.data|, n)])
  }

  /** The cut branch of `undo`: with a cut id, the streamlines tagged with
      it are emptied, then every empty one is erased. */
  function DropCut(s: Store, id: nat): (r: Store)
    requires |s.data| == |s.color| == |s.tag|
    ensures |r.data| == |r.color| == |r.tag|
    ensures r.delData == s.delData && r.delColor == s.delColor && r.delTag == s.delTag
    ensures r.delCount == s.delCount && r.isCut == s.isCut && r.redo == s.redo && r.cutId == s.cutId
  {
    if id == 0 then s
    else
      var c := ClearTagged(s, id);
      FilterLength(c.data, NonEmpty(c.data));
      FilterLength(c.color, NonEmpty(c.data));
      FilterLength(c.tag, NonEmpty(c.data));
      EraseEmpty(c)
  }

  /** `undo`: with no deleted group nothing changes. Otherwise the top
      group is restored, the top cut mark is applied, and the cut mark and
      the group size are popped. */
  function Undo(s: Store): (r: Store)
    requires Valid(s)
    ensures Valid(r)
  {
    if s.delCount == [] then s
    else
      var kept := DropCut(Restore(s), s.isCut[|s.isCut| - 1]);
      kept.(isCut := s.isCut[..|s.isCut| - 1], delCount := s.delCount[..|s.delCount| - 1], saved := false)
  }

  /** The redo entry on top can be replayed: its range lies within the
      active streamlines (the source indexes them unchecked). */
  predicate RedoFits(s: Store)
  {
    s.redo != [] ==> s.redo[|s.redo| - 1].offset + s.redo[|s.redo| - 1].count <= |s.data|
  }

  /** `redo`: with an empty redo stack nothing changes. Otherwise the top
      entry is popped and its range deleted as one group; the rest of the
      redo stack survives that deletion. */
  function Redo(s: Store): (r: Store)
    requires Valid(s) && RedoFits(s)
    ensures Valid(r)
  {
    if s.redo == [] then s
    else
      var e := s.redo[|s.redo| - 1];
      var rest := s.redo[..|s.redo| - 1];
      DeleteTracts(s.(redo := rest), Range(e.offset, e.count)).(redo := rest)
  }

  // ---------------------------------------------------------------------
  // cut, get_cut_points, cut_by_slice
  // ---------------------------------------------------------------------

  /** `cut` splits a streamline at a selected float offset only inside it,
      and only one of more than two points. */
  predicate Splits(t: Tract, at: nat)
  {
    at != 0 && at < |t| && |t| > 6
  }

  /** The streamlines among the first `k` that `cut` splits. */
  function CutIndices(data: seq<Tract>, sel: seq<nat>, k: nat): (r: seq<nat>)
    requires |sel| == |data| && k <= |data|
    ensures InRange(r, k)
  {
    if k == 0 then []
    else CutIndices(data, sel, k - 1) + (if Splits(data[k - 1], sel[k - 1]) then [k - 1] else [])
  }

  /** The fragments `cut` makes of the first `k` streamlines: the part
      before the offset, then the part from it. */
  function CutPieces(data: seq<Tract>, sel: seq<nat>, k: nat): (r: seq<Tract>)
    requires |sel| == |data| && k <= |data|
  {
    if k == 0 then []
    else
      var t, at := data[k - 1], sel[k - 1];
      CutPieces(data, sel, k - 1) + (if Splits(t, at) then [t[..at], t[at..]] else [])
  }

  /** The colours of those fragments: the streamline's own, twice. */
  function CutColors(data: seq<Tract>, sel: seq<nat>, color: seq<nat>, k: nat): (r: seq<nat>)
    requires |sel| == |data| == |color| && k <= |data|
    ensures |r| == |CutPieces(data, sel, k)|
  {
    if k == 0 then []
    else
      var c := color[k - 1];
      CutColors(data, sel, color, k - 1) + (if Splits(data[k - 1], sel[k - 1]) then [c, c] else [])
  }

  /** `cut` with the selection offsets `sel` (one per streamline): nothing
      happens unless some streamline splits; otherwise the split ones are
      deleted as one group marked with the current cut id, their fragments
      are appended with that id as tag, and the cut id advances. */
  function Cut(s: Store, sel: seq<nat>): (r: Store)
    requires Valid(s) && |sel| == |s.data|
    ensures Valid(r)
  {
    var idx := CutIndices(s.data, sel, |sel|);
    if idx == [] then s
    else
      var d := DeleteTracts(s, idx);
      var frags := CutPieces(s.data, sel, |sel|);
      d.(isCut := d.isCut[|d.isCut| - 1 := s.cutId],
         data := d.data + frags, color := d.color + CutColors(s.data, sel, s.color, |sel|),
         tag := d.tag + Repeat(s.cutId, |frags|), cutId := s.cutId + 1, redo := [])
  }

  /** `get_cut_points` (no transformation): point t of a streamline is on
      the cut side when its coordinate on axis `dim` is below `pos`, or, with
      `greater`, when it is not. */
  function CutPoints(data: seq<Tract>, dim: nat, pos: real, greater: bool): (r: seq<seq<bool>>)
    requires dim < 3 && forall i :: 0 <= i < |data| ==> |data[i]| % 3 == 0
    ensures SliceShaped(data, r)
    ensures forall i, t :: 0 <= i < |data| && 0 <= t < |data[i]| / 3 ==>
              (r[i][t] <==> ((data[i][3 * t + dim] < pos) != greater))
  {
    seq(|data|, i requires 0 <= i < |data| => CutRow(data[i], dim, pos, greater))
  }

  /** The cut flags of one streamline. */
  function CutRow(tr: Tract, dim: nat, pos: real, greater: bool): (r: seq<bool>)
    requires dim < 3 && |tr| % 3 == 0
    ensures |tr| == 3 * |r|
  {
    seq(|tr| / 3, t requires 0 <= t < |tr| / 3 => (tr[3 * t + dim] < pos) != greater)
  }

  /** Point t of a streamline. */
  function PointOf(tr: Tract, t: nat): (p: seq<real>)
    requires 3 * t + 3 <= |tr|
    ensures |p| == 3
  {
    tr[3 * t..3 * t + 3]
  }

  /** The inner loop of `cut_by_slice` after its first `t` points: the
      fragments begun so far, and whether one is open. Leading cut-side
      points are skipped; a cut-side point met while a fragment is open
      closes it and opens a new one that starts with that point; a kept
      point met with none open opens one. */
  function SliceFrags(tr: Tract, cut: seq<bool>, t: nat): (r: (seq<Tract>, bool))
    requires |tr| == 3 * |cut| && t <= |cut|
    ensures r.1 ==> r.0 != []
  {
    if t == 0 then ([], false)
    else
      var (fs, adding) := SliceFrags(tr, cut, t - 1);
      var p := PointOf(tr, t - 1);
      if cut[t - 1] && !adding then (fs, false)
      else if cut[t - 1] || !adding then (fs + [p], true)
      else (fs[..|fs| - 1] + [fs[|fs| - 1] + p], true)
  }

  predicate SliceShaped(data: seq<Tract>, hasCut: seq<seq<bool>>)
  {
    |hasCut| == |data| && forall i :: 0 <= i < |data| ==> |data[i]| == 3 * |hasCut[i]|
  }

  /** The fragments of the first `k` streamlines, in order. */
  function SlicePieces(data: seq<Tract>, hasCut: seq<seq<bool>>, k: nat): seq<Tract>
    requires SliceShaped(data, hasCut) && k <= |data|
  {
    if k == 0 then []
    else SlicePieces(data, hasCut, k - 1) + SliceFrags(data[k - 1], hasCut[k - 1], |hasCut[k - 1]|).0
  }

  /** Their colours: each fragment takes its streamline's. */
  function SliceColors(data: seq<Tract>, hasCut: seq<seq<bool>>, color: seq<nat>, k: nat): (r: seq<nat>)
    requires SliceShaped(data, hasCut) && |color| == |data| && k <= |data|
    ensures |r| == |SlicePieces(data, hasCut, k)|
  {
    if k == 0 then []
    else
      var fs := SliceFrags(data[k - 1], hasCut[k - 1], |hasCut[k - 1]|).0;
      SliceColors(data, hasCut, color, k - 1) + Repeat(color[k - 1], |fs|)
  }

  /** Fragments of at least two points are kept. */
  function LongEnough(fs: seq<Tract>): (keep: seq<bool>)
    ensures |keep| == |fs| && forall i :: 0 <= i < |fs| ==> (keep[i] <==> |fs[i]| >= 6)
  {
    seq(|fs|, i requires 0 <= i < |fs| => |fs[i]| >= 6)
  }

  /** The source reads the top cut mark unchecked; it exists once there is
      a streamline to delete or an earlier group. */
  predicate SliceCanMark(s: Store)
  {
    s.data != [] || s.isCut != []
  }

  /** `cut_by_slice` with the per-point cut flags: every streamline is
      deleted as one group (none if there are none), the top cut mark is set
      to the current cut id, the fragments of at least two points are
      appended with that id as tag, and the cut id advances. */
  function CutBySlice(s: Store, hasCut: seq<seq<bool>>): (r: Store)
    requires Valid(s) && SliceShaped(s.data, hasCut) && SliceCanMark(s)
    ensures Valid(r)
  {
    var d := DeleteTracts(s, Range(0, |s.data|));
    var frags := SlicePieces(s.data, hasCut, |s.data|);
    var keep := LongEnough(frags);
    var kept := Filter(frags, keep);
    FilterLength(frags, keep);
    FilterLength(SliceColors(s.data, hasCut, s.color, |s.data|), keep);
    d.(isCut := d.isCut[|d.isCut| - 1 := s.cutId],
       data := d.data + kept, color := d.color + Filter(SliceColors(s.data, hasCut, s.color, |s.data|), keep),
       tag := d.tag + Repeat(s.cutId, |kept|), cutId := s.cutId + 1, redo := [])
  }

  // ---------------------------------------------------------------------
  // Properties
  // ---------------------------------------------------------------------

  /** `erase_empty` leaves no empty streamline, keeps the three arrays in
      step (survivor k is row KeptIndex(k) of the old arrays, in increasing
      order), and changes nothing when no streamline is empty. */
  lemma {:induction false} EraseEmptyKeeps(s: Store)
    requires |s.data| == |s.color| == |s.tag|
    ensures var r, keep := EraseEmpty(s), NonEmpty(s.data);
      && AllNonEmpty(r.data)
      && |r.data| == |r.color| == |r.tag| == CountTrue(keep)
      && (forall k :: 0 <= k < |r.data| ==>
            var i := KeptIndex(keep, k);
            r.data[k] == s.data[i] && r.color[k] == s.color[i] && r.tag[k] == s.tag[i])
      && (AllNonEmpty(s.data) ==> r == s)
  {
    var r, keep := EraseEmpty(s), NonEmpty(s.data);
    FilterLength(s.data, keep);
    FilterLength(s.color, keep);
    FilterLength(s.tag, keep);
    forall k | 0 <= k < |r.data|
      ensures var i := KeptIndex(keep, k);
        r.data[k] == s.data[i] && r.color[k] == s.color[i] && r.tag[k] == s.tag[i]
    {
      FilterAt(s.data, keep, k);
      FilterAt(s.color, keep, k);
      FilterAt(s.tag, keep, k);
    }
    if AllNonEmpty(s.data) {
      FilterAll(s.data, keep);
      FilterAll(s.color, keep);
      FilterAll(s.tag, keep);
    }
  }

  /** The loop of `delete_tracts` pushes the listed rows onto the deleted
      stacks in list order. */
  lemma {:induction false} MoveOutPushes(s: Store, idx: seq<nat>)
    requires |s.data| == |s.color| == |s.tag| && InRange(idx, |s.data|) && Distinct(idx)
    ensures PushesOk(s, idx)
    decreases |idx|
  {
    if idx != [] {
      NotEarlier(idx);
      MoveOutPushes(s, idx[..|idx| - 1]);
      MoveOutPushStep(s, idx);
    }
  }

  /** The deleted stacks after the loop of `delete_tracts` over `idx`. */
  ghost predicate PushesOk(s: Store, idx: seq<nat>)
    requires |s.data| == |s.color| == |s.tag| && InRange(idx, |s.data|)
  {
    var r := MoveOut(s, idx);
    && r.delData == s.delData + Pick(s.data, idx)
    && r.delColor == s.delColor + Pick(s.color, idx)
    && r.delTag == s.delTag + Pick(s.tag, idx)
  }

  lemma {:induction false} MoveOutPushStep(s: Store, idx: seq<nat>)
    requires |s.data| == |s.color| == |s.tag| && InRange(idx, |s.data|) && Distinct(idx) && idx != []
    requires PushesOk(s, idx[..|idx| - 1])
    ensures PushesOk(s, idx)
  {
    var pre, i := idx[..|idx| - 1], idx[|idx| - 1];
    var m := MoveOut(s, pre);
    var r := MoveOut(s, idx);
    assert r == MoveOne(m, i);
    MoveOutEmpties(s, pre);
    NotEarlier(idx);
    assert m.data[i] == s.data[i];
    PickSnoc(s.data, idx);
    PickSnoc(s.color, idx);
    PickSnoc(s.tag, idx);
    SnocAssoc(s.delData, Pick(s.data, pre), s.data[i]);
    SnocAssoc(s.delColor, Pick(s.color, pre), s.color[i]);
    SnocAssoc(s.delTag, Pick(s.tag, pre), s.tag[i]);
  }

  lemma {:induction false} SnocAssoc<T>(a: seq<T>, b: seq<T>, x: T)
    ensures a + b + [x] == a + (b + [x])
  {
  }

  lemma {:induction false} PickSnoc<T>(xs: seq<T>, idx: seq<nat>)
    requires InRange(idx, |xs|) && idx != []
    ensures Pick(xs, idx) == Pick(xs, idx[..|idx| - 1]) + [xs[idx[|idx| - 1]]]
  {
  }

  /** The last of distinct indices is not among the earlier ones. */
  lemma {:induction false} NotEarlier(idx: seq<nat>)
    requires Distinct(idx) && idx != []
    ensures idx[|idx| - 1] !in idx[..|idx| - 1] && Distinct(idx[..|idx| - 1])
  {
    var pre := idx[..|idx| - 1];
    forall a | 0 <= a < |pre|
      ensures pre[a] != idx[|idx| - 1]
    {
      assert idx[a] != idx[|idx| - 1];
    }
  }

  /** The loop of `delete_tracts` empties exactly the listed streamlines. */
  lemma {:induction false} MoveOutEmpties(s: Store, idx: seq<nat>)
    requires |s.data| == |s.color| == |s.tag| && InRange(idx, |s.data|)
    ensures var r := MoveOut(s, idx);
      forall i :: 0 <= i < |s.data| ==> r.data[i] == if i in idx then [] else s.data[i]
    decreases |idx|
  {
    if idx != [] {
      var pre, i := idx[..|idx| - 1], idx[|idx| - 1];
      MoveOutEmpties(s, pre);
      assert idx == pre + [i];
    }
  }

  /** `delete_tracts` on distinct indices of non-empty streamlines: the
      survivors are the unlisted streamlines in order, the listed ones are
      pushed in list order as one group that is not a cut, and the redo
      stack is dropped. */
  lemma {:induction false} DeleteEffect(s: Store, idx: seq<nat>)
    requires Valid(s) && InRange(idx, |s.data|) && Distinct(idx) && idx != []
    requires AllNonEmpty(s.data)
    ensures var r, keep := DeleteTracts(s, idx), Outside(idx, |s.data|);
      && r.data == Filter(s.data, keep)
      && r.color == Filter(s.color, keep)
      && r.tag == Filter(s.tag, keep)
      && r.delData == s.delData + Pick(s.data, idx)
      && r.delColor == s.delColor + Pick(s.color, idx)
      && r.delTag == s.delTag + Pick(s.tag, idx)
      && r.delCount == s.delCount + [|idx|]
      && r.isCut == s.isCut + [0]
      && r.redo == [] && r.cutId == s.cutId
  {
    var m, keep := MoveOut(s, idx), Outside(idx, |s.data|);
    MoveOutPushes(s, idx);
    MoveOutEmpties(s, idx);
    assert NonEmpty(m.data) == keep;
    FilterSame(m.data, s.data, keep);
  }

  /** What `select_tracts` deletes: exactly the unlisted indices, each
      once, in increasing order. */
  lemma {:induction false} NotSelectedFacts(n: nat, sel: seq<nat>)
    ensures UnlistedOk(n, sel)
  {
    if n > 0 {
      NotSelectedFacts(n - 1, sel);
      NotSelectedStep(n, sel);
    }
  }

  /** `NotSelected(n, sel)` lists the unlisted indices below `n` in
      increasing order. */
  ghost predicate UnlistedOk(n: nat, sel: seq<nat>)
  {
    var r := NotSelected(n, sel);
    && (forall i: nat :: i in r <==> i < n && i !in sel)
    && (forall a, b :: 0 <= a < b < |r| ==> r[a] < r[b])
  }

  lemma {:induction false} NotSelectedStep(n: nat, sel: seq<nat>)
    requires n > 0 && UnlistedOk(n - 1, sel)
    ensures UnlistedOk(n, sel)
  {
    var pre, r := NotSelected(n - 1, sel), NotSelected(n, sel);
    forall i: nat
      ensures i in r <==> i < n && i !in sel
    {
      assert i in r <==> i in pre || (i == n - 1 && n - 1 !in sel);
    }
  }

  /** The mask of listed positions. */
  function Listed(sel: seq<nat>, n: nat): (keep: seq<bool>)
    ensures |keep| == n && forall i :: 0 <= i < n ==> (keep[i] <==> i in sel)
  {
    seq(n, i requires 0 <= i < n => i in sel)
  }

  /** `select_tracts` on non-empty streamlines keeps exactly the listed
      ones, in their order, and moves every other one to the deleted
      stacks as one group; when all are listed nothing changes. */
  lemma {:induction false} SelectKeeps(s: Store, sel: seq<nat>)
    requires Valid(s) && InRange(sel, |s.data|) && AllNonEmpty(s.data)
    ensures var r, keep := SelectTracts(s, sel), Listed(sel, |s.data|);
      && r.data == Filter(s.data, keep)
      && r.color == Filter(s.color, keep)
      && r.tag == Filter(s.tag, keep)
      && (NotSelected(|s.data|, sel) != [] ==> r.delData == s.delData + Pick(s.data, NotSelected(|s.data|, sel)))
  {
    var n := |s.data|;
    var ns := NotSelected(n, sel);
    NotSelectedFacts(n, sel);
    if ns == [] {
      FilterAll(s.data, Listed(sel, n));
      FilterAll(s.color, Listed(sel, n));
      FilterAll(s.tag, Listed(sel, n));
    } else {
      DeleteEffect(s, ns);
      assert Outside(ns, n) == Listed(sel, n);
    }
  }

  /** Undoing a deletion of distinct indices brings the group back at the
      end, in reverse order of deletion, and restores the deleted stacks;
      the redo stack then holds the re-appended range. */
  lemma {:induction false} UndoDelete(s: Store, idx: seq<nat>)
    requires Valid(s) && InRange(idx, |s.data|) && Distinct(idx) && idx != []
    requires AllNonEmpty(s.data)
    ensures var d, u, keep := DeleteTracts(s, idx), Undo(DeleteTracts(s, idx)), Outside(idx, |s.data|);
      && u.data == Filter(s.data, keep) + Reverse(Pick(s.data, idx))
      && u.color == Filter(s.color, keep) + Reverse(Pick(s.color, idx))
      && u.tag == Filter(s.tag, keep) + Reverse(Pick(s.tag, idx))
      && u.delData == s.delData && u.delColor == s.delColor && u.delTag == s.delTag
      && u.delCount == s.delCount && u.isCut == s.isCut
      && u.redo == [Span(|d.data|, |idx|)]
  {
    var d := DeleteTracts(s, idx);
    DeleteEffect(s, idx);
    var m := |d.delData| - |idx|;
    assert m == |s.delData|;
    assert d.delData[m..] == Pick(s.data, idx) && d.delData[..m] == s.delData;
    assert d.delColor[m..] == Pick(s.color, idx) && d.delColor[..m] == s.delColor;
    assert d.delTag[m..] == Pick(s.tag, idx) && d.delTag[..m] == s.delTag;
    assert d.delCount[..|d.delCount| - 1] == s.delCount;
    assert d.isCut[..|d.isCut| - 1] == s.isCut;
  }

  /** A filter that keeps a prefix and drops the rest returns the prefix. */
  lemma {:induction false} FilterPrefix<T>(a: seq<T>, b: seq<T>, keep: seq<bool>)
    requires |keep| == |a| + |b|
    requires forall i :: 0 <= i < |keep| ==> (keep[i] <==> i < |a|)
    ensures Filter(a + b, keep) == a
  {
    var ka, kb := keep[..|a|], keep[|a|..];
    assert keep == ka + kb;
    FilterAppend(a, b, ka, kb);
    forall i | 0 <= i < |ka|
      ensures ka[i]
    {
      assert ka[i] == keep[i];
    }
    FilterAll(a, ka);
    forall i | 0 <= i < |kb|
      ensures !kb[i]
    {
      assert kb[i] == keep[i + |a|];
    }
    FilterNone(b, kb);
    assert a + [] == a;
  }

  /** Redo of an entry that spans the tail of the active streamlines moves
      that tail, in order, onto the deleted stacks as one group. */
  lemma {:induction false} RedoTail(t: Store, a: nat)
    requires Valid(t) && AllNonEmpty(t.data) && a < |t.data|
    requires t.redo != [] && t.redo[|t.redo| - 1] == Span(a, |t.data| - a)
    ensures Redo(t) == t.(data := t.data[..a], color := t.color[..a], tag := t.tag[..a],
                          delData := t.delData + t.data[a..], delColor := t.delColor + t.color[a..],
                          delTag := t.delTag + t.tag[a..], delCount := t.delCount + [|t.data| - a],
                          isCut := t.isCut + [0], redo := t.redo[..|t.redo| - 1], saved := a == 0)
  {
    var n := |t.data| - a;
    var rest := t.redo[..|t.redo| - 1];
    var idx := Range(a, n);
    DeleteEffect(t.(redo := rest), idx);
    TailRange(t.data, a, idx);
    TailRange(t.color, a, idx);
    TailRange(t.tag, a, idx);
  }

  /** Deleting the index range from `a` to the end keeps the prefix and
      picks the tail. */
  lemma {:induction false} TailRange<T>(xs: seq<T>, a: nat, idx: seq<nat>)
    requires a <= |xs| && idx == Range(a, |xs| - a)
    ensures Filter(xs, Outside(idx, |xs|)) == xs[..a]
    ensures Pick(xs, idx) == xs[a..]
  {
    TailKept(xs, a, idx);
    assert Pick(xs, idx) == xs[a..];
  }

  lemma {:induction false} TailKept<T>(xs: seq<T>, a: nat, idx: seq<nat>)
    requires a <= |xs| && idx == Range(a, |xs| - a)
    ensures Filter(xs, Outside(idx, |xs|)) == xs[..a]
  {
    var keep := Outside(idx, |xs|);
    forall i | 0 <= i < |xs|
      ensures keep[i] <==> i < a
    {
      if i >= a {
        assert idx[i - a] == i;
      }
    }
    assert xs == xs[..a] + xs[a..];
    FilterPrefix(xs[..a], xs[a..], keep);
  }

  /** Redo right after undoing a deletion deletes the same streamlines
      again, leaving the active arrays, the group sizes, the cut marks and
      the redo stack as the deletion left them; only the order of the group
      on the deleted stacks is reversed, since undo re-appended it back to
      front. */
  lemma {:induction false} RedoUndoDelete(s: Store, idx: seq<nat>)
    requires Valid(s) && InRange(idx, |s.data|) && Distinct(idx) && idx != []
    requires AllNonEmpty(s.data)
    ensures var d := DeleteTracts(s, idx);
      Redo(Undo(d)) == d.(delData := s.delData + Reverse(Pick(s.data, idx)),
                          delColor := s.delColor + Reverse(Pick(s.color, idx)),
                          delTag := s.delTag + Reverse(Pick(s.tag, idx)))
  {
    var d := DeleteTracts(s, idx);
    var u := Undo(d);
    var keep := Outside(idx, |s.data|);
    UndoDelete(s, idx);
    UndoDeleteNonEmpty(s, idx);
    var a := |d.data|;
    assert u.data[..a] == d.data && u.data[a..] == Reverse(Pick(s.data, idx));
    assert u.color[..a] == d.color && u.color[a..] == Reverse(Pick(s.color, idx));
    assert u.tag[..a] == d.tag && u.tag[a..] == Reverse(Pick(s.tag, idx));
    RedoTail(u, a);
  }

  /** Undoing a deletion of non-empty streamlines leaves none empty. */
  lemma {:induction false} UndoDeleteNonEmpty(s: Store, idx: seq<nat>)
    requires Valid(s) && InRange(idx, |s.data|) && Distinct(idx) && idx != []
    requires AllNonEmpty(s.data)
    ensures var d := DeleteTracts(s, idx);
      && |Undo(d).data| == |d.data| + |idx|
      && AllNonEmpty(Undo(d).data)
  {
    var keep := Outside(idx, |s.data|);
    var f, p := Filter(s.data, keep), Pick(s.data, idx);
    UndoDelete(s, idx);
    DeleteEffect(s, idx);
    FilterNonEmpty(s.data, keep);
    ReverseNonEmpty(p);
    JoinNonEmpty(f, Reverse(p));
  }

  lemma {:induction false} FilterNonEmpty(xs: seq<Tract>, keep: seq<bool>)
    requires |keep| == |xs| && AllNonEmpty(xs)
    ensures AllNonEmpty(Filter(xs, keep))
  {
    forall k | 0 <= k < |Filter(xs, keep)|
      ensures Filter(xs, keep)[k] != []
    {
      FilterFrom(xs, keep, k);
    }
  }

  lemma {:induction false} ReverseNonEmpty(xs: seq<Tract>)
    requires AllNonEmpty(xs)
    ensures AllNonEmpty(Reverse(xs))
  {
    forall k | 0 <= k < |xs|
      ensures Reverse(xs)[k] != []
    {
      ReverseAt(xs, k);
    }
  }

  lemma {:induction false} JoinNonEmpty(a: seq<Tract>, b: seq<Tract>)
    requires AllNonEmpty(a) && AllNonEmpty(b)
    ensures AllNonEmpty(a + b)
  {
    forall k | 0 <= k < |a + b|
      ensures (a + b)[k] != []
    {
      if k >= |a| {
        assert (a + b)[k] == b[k - |a|];
      }
    }
  }

  /** Which streamlines `cut` splits: exactly those whose offset lies
      inside them, once each, in increasing order. */
  lemma {:induction false} CutIndicesFacts(data: seq<Tract>, sel: seq<nat>, k: nat)
    requires |sel| == |data| && k <= |data|
    ensures IndicesOk(data, sel, k)
  {
    if k > 0 {
      CutIndicesFacts(data, sel, k - 1);
      CutIndicesStep(data, sel, k);
    }
  }

  /** What `CutIndices` lists among the first `k` streamlines. */
  ghost predicate IndicesOk(data: seq<Tract>, sel: seq<nat>, k: nat)
    requires |sel| == |data| && k <= |data|
  {
    var r := CutIndices(data, sel, k);
    && (forall i: nat :: i in r <==> i < k && Splits(data[i], sel[i]))
    && (forall a, b :: 0 <= a < b < |r| ==> r[a] < r[b])
    && (r == [] <==> forall i :: 0 <= i < k ==> !Splits(data[i], sel[i]))
  }

  lemma {:induction false} CutIndicesStep(data: seq<Tract>, sel: seq<nat>, k: nat)
    requires |sel| == |data| && 0 < k <= |data|
    requires IndicesOk(data, sel, k - 1)
    ensures IndicesOk(data, sel, k)
  {
    var pre, r := CutIndices(data, sel, k - 1), CutIndices(data, sel, k);
    forall i: nat
      ensures i in r <==> i < k && Splits(data[i], sel[i])
    {
      assert i in r <==> i in pre || (i == k - 1 && Splits(data[k - 1], sel[k - 1]));
    }
  }

  /** `cut` changes nothing when no offset lies inside its streamline. */
  lemma {:induction false} CutNothing(s: Store, sel: seq<nat>)
    requires Valid(s) && |sel| == |s.data|
    requires forall i :: 0 <= i < |sel| ==> !Splits(s.data[i], sel[i])
    ensures Cut(s, sel) == s
  {
    CutIndicesFacts(s.data, sel, |sel|);
  }

  /** Fragment pair m of `cut` is the m-th split streamline divided in two
      non-empty parts, both with that streamline's colour. */
  lemma {:induction false} CutPiecesFacts(data: seq<Tract>, sel: seq<nat>, color: seq<nat>, k: nat)
    requires |sel| == |data| == |color| && k <= |data|
    ensures PiecesOk(data, sel, color, k)
  {
    if k > 0 {
      CutPiecesFacts(data, sel, color, k - 1);
      CutPiecesStep(data, sel, color, k);
    }
  }

  /** The fragments and colours `cut` makes of the first `k` streamlines,
      pair by pair. */
  ghost predicate PiecesOk(data: seq<Tract>, sel: seq<nat>, color: seq<nat>, k: nat)
    requires |sel| == |data| == |color| && k <= |data|
  {
    var idx, ps, cs := CutIndices(data, sel, k), CutPieces(data, sel, k), CutColors(data, sel, color, k);
    && |ps| == |cs| == 2 * |idx|
    && forall m :: 0 <= m < |idx| ==>
         && ps[2 * m] + ps[2 * m + 1] == data[idx[m]]
         && ps[2 * m] != [] && ps[2 * m + 1] != []
         && cs[2 * m] == cs[2 * m + 1] == color[idx[m]]
  }

  lemma {:induction false} CutPiecesStep(data: seq<Tract>, sel: seq<nat>, color: seq<nat>, k: nat)
    requires |sel| == |data| == |color| && 0 < k <= |data|
    requires PiecesOk(data, sel, color, k - 1)
    ensures PiecesOk(data, sel, color, k)
  {
    var t, at := data[k - 1], sel[k - 1];
    if Splits(t, at) {
      var idx0, ps0, cs0 := CutIndices(data, sel, k - 1), CutPieces(data, sel, k - 1), CutColors(data, sel, color, k - 1);
      var idx, ps, cs := CutIndices(data, sel, k), CutPieces(data, sel, k), CutColors(data, sel, color, k);
      assert idx == idx0 + [k - 1];
      assert ps == ps0 + [t[..at], t[at..]];
      assert cs == cs0 + [color[k - 1], color[k - 1]];
      forall m | 0 <= m < |idx|
        ensures ps[2 * m] + ps[2 * m + 1] == data[idx[m]]
        ensures ps[2 * m] != [] && ps[2 * m + 1] != []
        ensures cs[2 * m] == cs[2 * m + 1] == color[idx[m]]
      {
        if m < |idx0| {
          assert ps[2 * m] == ps0[2 * m] && ps[2 * m + 1] == ps0[2 * m + 1];
          assert cs[2 * m] == cs0[2 * m] && cs[2 * m + 1] == cs0[2 * m + 1];
          assert idx[m] == idx0[m];
        } else {
          assert t[..at] + t[at..] == t;
        }
      }
    }
  }

  /** Every active tag is below the current cut id (tags are 0 or the id
      of an earlier cut). */
  predicate TagsBelow(s: Store)
  {
    forall i :: 0 <= i < |s.tag| ==> s.tag[i] < s.cutId
  }

  /** `cut` on non-empty streamlines that splits at least one: the split
      ones leave as one group marked with the cut id, the survivors keep
      their order, the fragments follow them tagged with the cut id, and
      the cut id advances. */
  lemma {:induction false} CutEffect(s: Store, sel: seq<nat>)
    requires Valid(s) && |sel| == |s.data| && AllNonEmpty(s.data)
    requires CutIndices(s.data, sel, |sel|) != []
    ensures var idx, r := CutIndices(s.data, sel, |sel|), Cut(s, sel);
      var keep := Outside(idx, |s.data|);
      && r.data == Filter(s.data, keep) + CutPieces(s.data, sel, |sel|)
      && r.color == Filter(s.color, keep) + CutColors(s.data, sel, s.color, |sel|)
      && r.tag == Filter(s.tag, keep) + Repeat(s.cutId, 2 * |idx|)
      && r.delData == s.delData + Pick(s.data, idx)
      && r.delColor == s.delColor + Pick(s.color, idx)
      && r.delTag == s.delTag + Pick(s.tag, idx)
      && r.delCount == s.delCount + [|idx|]
      && r.isCut == s.isCut + [s.cutId]
      && r.cutId == s.cutId + 1 && r.redo == []
  {
    var idx := CutIndices(s.data, sel, |sel|);
    CutIndicesFacts(s.data, sel, |sel|);
    CutPiecesFacts(s.data, sel, s.color, |sel|);
    DeleteEffect(s, idx);
    SnocUpdate(s.isCut, 0, s.cutId);
  }

  lemma {:induction false} SnocUpdate<T>(a: seq<T>, x: T, y: T)
    ensures (a + [x])[|a| := y] == a + [y]
  {
  }

  /** A filter that keeps the two ends and drops the middle. */
  lemma {:induction false} FilterMiddle<T>(a: seq<T>, b: seq<T>, c: seq<T>, keep: seq<bool>)
    requires |keep| == |a| + |b| + |c|
    requires forall i :: 0 <= i < |keep| ==> (keep[i] <==> i < |a| || i >= |a| + |b|)
    ensures Filter(a + b + c, keep) == a + c
  {
    var kab, kc := keep[..|a| + |b|], keep[|a| + |b|..];
    assert keep == kab + kc;
    FilterAppend(a + b, c, kab, kc);
    FilterPrefix(a, b, kab);
    forall i | 0 <= i < |kc|
      ensures kc[i]
    {
      assert kc[i] == keep[i + |a| + |b|];
    }
    FilterAll(c, kc);
  }

  /** Survivors of a filter are elements of the filtered sequence. */
  lemma {:induction false} FilterFrom<T>(s: seq<T>, keep: seq<bool>, k: nat)
    requires |keep| == |s| && k < |Filter(s, keep)|
    ensures exists i :: 0 <= i < |s| && s[i] == Filter(s, keep)[k]
  {
    FilterMembers(s, keep, Filter(s, keep)[k]);
  }

  /** The survivors of a deletion from a store whose streamlines are
      non-empty and whose tags are below the cut id are so too. */
  lemma {:induction false} SurvivorsBelow(s: Store, keep: seq<bool>)
    requires |s.data| == |s.tag| == |keep| && AllNonEmpty(s.data) && TagsBelow(s)
    ensures AllNonEmpty(Filter(s.data, keep))
    ensures forall k :: 0 <= k < |Filter<nat>(s.tag, keep)| ==> Filter<nat>(s.tag, keep)[k] < s.cutId
  {
    forall k | 0 <= k < |Filter(s.data, keep)|
      ensures Filter(s.data, keep)[k] != []
    {
      FilterFrom(s.data, keep, k);
    }
    forall k | 0 <= k < |Filter<nat>(s.tag, keep)|
      ensures Filter<nat>(s.tag, keep)[k] < s.cutId
    {
      FilterFrom<nat>(s.tag, keep, k);
    }
  }

  /** Undoing a `cut` removes its fragments and brings the split
      streamlines back at the end, last split first, with their colours and
      tags; the deleted stacks, group sizes and cut marks are restored. */
  lemma {:induction false} UndoCut(s: Store, sel: seq<nat>)
    requires Valid(s) && |sel| == |s.data| && AllNonEmpty(s.data) && TagsBelow(s)
    requires CutIndices(s.data, sel, |sel|) != []
    ensures var idx, u := CutIndices(s.data, sel, |sel|), Undo(Cut(s, sel));
      var keep := Outside(idx, |s.data|);
      && u.data == Filter(s.data, keep) + Reverse(Pick(s.data, idx))
      && u.color == Filter(s.color, keep) + Reverse(Pick(s.color, idx))
      && u.tag == Filter(s.tag, keep) + Reverse(Pick(s.tag, idx))
      && u.delData == s.delData && u.delCount == s.delCount && u.isCut == s.isCut
      && u.cutId == s.cutId + 1
  {
    var idx := CutIndices(s.data, sel, |sel|);
    var keep := Outside(idx, |s.data|);
    var c := Cut(s, sel);
    CutEffect(s, sel);
    CutRestored(s, sel);
    SurvivorsBelow(s, keep);
    var p, pt := Pick(s.data, idx), Pick(s.tag, idx);
    PickNonEmpty(s.data, idx);
    ReverseNonEmpty(p);
    PickBelow(s.tag, idx, s.cutId);
    ReverseBelow(pt, s.cutId);
    FilterLength(s.data, keep);
    FilterLength(s.color, keep);
    FilterLength(s.tag, keep);
    var f, fr, rp := Filter(s.data, keep), CutPieces(s.data, sel, |sel|), Reverse(p);
    var fc, frc, rpc := Filter(s.color, keep), CutColors(s.data, sel, s.color, |sel|), Reverse(Pick(s.color, idx));
    var ft, rpt := Filter<nat>(s.tag, keep), Reverse<nat>(pt);
    UndoFromParts(c, f, fr, rp, fc, frc, rpc, ft, rpt, s.cutId);
    assert c.delCount[..|c.delCount| - 1] == s.delCount && c.isCut[..|c.isCut| - 1] == s.isCut;
  }

  /** After a `cut` is undone, the redo entry `undo` pushed still records
      the size of the store as it was with the fragments in it: its offset
      lies past the survivors and the restored streamlines, so the range it
      names is not within the active streamlines, and a `redo` would index
      past them. */
  lemma {:induction false} StaleRedoAfterCutUndo(s: Store, sel: seq<nat>)
    requires Valid(s) && |sel| == |s.data| && AllNonEmpty(s.data) && TagsBelow(s)
    requires CutIndices(s.data, sel, |sel|) != []
    ensures var idx, u := CutIndices(s.data, sel, |sel|), Undo(Cut(s, sel));
      var keep := Outside(idx, |s.data|);
      && u.redo == [Span(|Filter(s.data, keep)| + 2 * |idx|, |idx|)]
      && |u.data| == |Filter(s.data, keep)| + |idx|
      && u.redo[0].offset > |u.data|
      && !RedoFits(u)
  {
    CutShape(s, sel);
    UndoPushesRedo(Cut(s, sel));
    UndoCutSize(s, sel);
  }

  /** Undoing a `cut` leaves the survivors and the restored streamlines. */
  lemma {:induction false} UndoCutSize(s: Store, sel: seq<nat>)
    requires Valid(s) && |sel| == |s.data| && AllNonEmpty(s.data) && TagsBelow(s)
    requires CutIndices(s.data, sel, |sel|) != []
    ensures var idx := CutIndices(s.data, sel, |sel|);
      |Undo(Cut(s, sel)).data| == |Filter(s.data, Outside(idx, |s.data|))| + |idx|
  {
    UndoCut(s, sel);
  }

  /** The sizes `cut` leaves: the survivors and two fragments per split
      streamline, one more group of that many, and no redo entry. */
  lemma {:induction false} CutShape(s: Store, sel: seq<nat>)
    requires Valid(s) && |sel| == |s.data| && AllNonEmpty(s.data)
    requires CutIndices(s.data, sel, |sel|) != []
    ensures var idx, c := CutIndices(s.data, sel, |sel|), Cut(s, sel);
      && Valid(c) && c.redo == [] && c.delCount == s.delCount + [|idx|]
      && |c.data| == |Filter(s.data, Outside(idx, |s.data|))| + 2 * |idx|
  {
    CutEffect(s, sel);
    CutPiecesCount(s.data, sel);
  }

  /** `cut` makes two fragments of each streamline it splits. */
  lemma {:induction false} CutPiecesCount(data: seq<Tract>, sel: seq<nat>)
    requires |sel| == |data|
    ensures |CutPieces(data, sel, |sel|)| == 2 * |CutIndices(data, sel, |sel|)|
  {
    CutPiecesFacts(data, sel, seq(|data|, _ => 0), |sel|);
  }

  /** `undo` of a group pushes one redo entry: where the group is
      re-appended (the active size before the undo), and its size. */
  lemma {:induction false} UndoPushesRedo(c: Store)
    requires Valid(c) && c.delCount != []
    ensures Undo(c).redo == c.redo + [Span(|c.data|, c.delCount[|c.delCount| - 1])]
  {
    assert Restore(c).redo == c.redo + [Span(|c.data|, c.delCount[|c.delCount| - 1])];
  }

  /** Picking rows of non-empty streamlines gives non-empty streamlines. */
  lemma {:induction false} PickNonEmpty(xs: seq<Tract>, idx: seq<nat>)
    requires InRange(idx, |xs|) && AllNonEmpty(xs)
    ensures AllNonEmpty(Pick(xs, idx))
  {
  }

  /** Picking or reversing tags keeps them below a bound. */
  lemma {:induction false} PickBelow(tags: seq<nat>, idx: seq<nat>, id: nat)
    requires InRange(idx, |tags|) && forall k :: 0 <= k < |tags| ==> tags[k] < id
    ensures forall k :: 0 <= k < |idx| ==> Pick(tags, idx)[k] < id
  {
  }

  lemma {:induction false} ReverseBelow(tags: seq<nat>, id: nat)
    requires forall k :: 0 <= k < |tags| ==> tags[k] < id
    ensures forall k :: 0 <= k < |tags| ==> Reverse<nat>(tags)[k] < id
  {
    forall k | 0 <= k < |tags|
      ensures Reverse<nat>(tags)[k] < id
    {
      ReverseAt(tags, k);
    }
  }

  /** `undo` of a group marked with a cut id, when the restored arrays are
      survivors, then rows tagged with the id, then rows restored from the
      stacks: the tagged rows go, the rest stay in order. */
  lemma {:induction false} UndoFromParts(c: Store, f: seq<Tract>, fr: seq<Tract>, rp: seq<Tract>,
                      fc: seq<nat>, frc: seq<nat>, rpc: seq<nat>, ft: seq<nat>, rpt: seq<nat>, id: nat)
    requires Valid(c) && c.delCount != [] && c.isCut[|c.isCut| - 1] == id && id != 0
    requires Restore(c).data == f + fr + rp && Restore(c).color == fc + frc + rpc
    requires Restore(c).tag == ft + Repeat(id, |fr|) + rpt
    requires |f| == |fc| == |ft| && |fr| == |frc| && |rp| == |rpc| == |rpt|
    requires AllNonEmpty(f) && AllNonEmpty(rp)
    requires forall k :: 0 <= k < |ft| ==> ft[k] < id
    requires forall k :: 0 <= k < |rpt| ==> rpt[k] < id
    ensures var u := Undo(c);
      && u.data == f + rp && u.color == fc + rpc && u.tag == ft + rpt
      && u.delData == Restore(c).delData && u.cutId == c.cutId
      && u.delCount == c.delCount[..|c.delCount| - 1] && u.isCut == c.isCut[..|c.isCut| - 1]
  {
    var b := Restore(c);
    var a, z := |f|, |f| + |fr|;
    forall i | 0 <= i < |b.data|
      ensures a <= i < z ==> b.tag[i] == id
      ensures (i < a || z <= i) ==> b.tag[i] != id && b.data[i] != []
    {
      if i < a {
        assert b.tag[i] == ft[i] && b.data[i] == f[i];
      } else if z <= i {
        assert b.tag[i] == rpt[i - z] && b.data[i] == rp[i - z];
      }
    }
    DropTagged(b, id, a, z);
    ThreeParts(b.data, f, fr, rp);
    ThreeParts(b.color, fc, frc, rpc);
    ThreeParts(b.tag, ft, Repeat(id, |fr|), rpt);
  }

  lemma {:induction false} ThreeParts<T>(x: seq<T>, a: seq<T>, b: seq<T>, c: seq<T>)
    requires x == a + b + c
    ensures x[..|a|] == a && x[|a| + |b|..] == c
  {
  }

  /** After a `cut`, the loop of `undo` appends the split streamlines, last
      first, after the survivors and the fragments. */
  lemma {:induction false} CutRestored(s: Store, sel: seq<nat>)
    requires Valid(s) && |sel| == |s.data| && AllNonEmpty(s.data)
    requires CutIndices(s.data, sel, |sel|) != []
    ensures var idx, b := CutIndices(s.data, sel, |sel|), Restore(Cut(s, sel));
      var keep := Outside(idx, |s.data|);
      && b.data == Filter(s.data, keep) + CutPieces(s.data, sel, |sel|) + Reverse(Pick(s.data, idx))
      && b.color == Filter(s.color, keep) + CutColors(s.data, sel, s.color, |sel|) + Reverse(Pick(s.color, idx))
      && b.tag == Filter(s.tag, keep) + Repeat(s.cutId, |CutPieces(s.data, sel, |sel|)|) + Reverse(Pick(s.tag, idx))
      && b.delData == s.delData
  {
    var idx := CutIndices(s.data, sel, |sel|);
    var c := Cut(s, sel);
    CutEffect(s, sel);
    CutPiecesCount(s.data, sel);
    var m := |s.delData|;
    assert c.delCount[|c.delCount| - 1] == |idx| == |c.delData| - m;
    assert c.delData[m..] == Pick(s.data, idx) && c.delData[..m] == s.delData;
    assert c.delColor[m..] == Pick(s.color, idx);
    assert c.delTag[m..] == Pick(s.tag, idx);
  }

  /** The cut branch of `undo` on arrays whose rows a .. z - 1 carry the
      cut id and whose other rows are non-empty with other tags removes
      exactly those rows. */
  lemma {:induction false} DropTagged(b: Store, id: nat, a: nat, z: nat)
    requires |b.data| == |b.color| == |b.tag| && id != 0 && a <= z <= |b.data|
    requires forall i :: 0 <= i < |b.data| ==> (a <= i < z ==> b.tag[i] == id)
    requires forall i :: 0 <= i < |b.data| ==> ((i < a || z <= i) ==> b.tag[i] != id && b.data[i] != [])
    ensures var r := DropCut(b, id);
      && r.data == b.data[..a] + b.data[z..]
      && r.color == b.color[..a] + b.color[z..]
      && r.tag == b.tag[..a] + b.tag[z..]
  {
    var c := ClearTagged(b, id);
    var keep := NonEmpty(c.data);
    forall i | 0 <= i < |b.data|
      ensures keep[i] <==> i < a || i >= z
    {
    }
    FilterSame(c.data, b.data, keep);
    Thirds(b.data, a, z, keep);
    Thirds(b.color, a, z, keep);
    Thirds(b.tag, a, z, keep);
  }

  lemma {:induction false} Thirds<T>(xs: seq<T>, a: nat, z: nat, keep: seq<bool>)
    requires a <= z <= |xs| == |keep|
    requires forall i :: 0 <= i < |keep| ==> (keep[i] <==> i < a || i >= z)
    ensures Filter(xs, keep) == xs[..a] + xs[z..]
  {
    assert xs == xs[..a] + xs[a..z] + xs[z..];
    FilterMiddle(xs[..a], xs[a..z], xs[z..], keep);
  }

  /** Number of cut-side points among positions a .. t - 1. */
  function CutsIn(cut: seq<bool>, a: nat, t: nat): nat
    requires a <= t <= |cut|
    decreases t - a
  {
    if a == t then 0 else CutsIn(cut, a, t - 1) + (if cut[t - 1] then 1 else 0)
  }

  /** Number of leading cut-side points among the first t: t when all of
      them are, else the position of the first kept point. */
  function LeadCut(cut: seq<bool>, t: nat): (l: nat)
    requires t <= |cut|
    ensures l <= t
  {
    if t == 0 then 0
    else if LeadCut(cut, t - 1) == t - 1 && cut[t - 1] then t
    else LeadCut(cut, t - 1)
  }

  lemma {:induction false} ConcatSnoc<T>(xs: seq<seq<T>>, y: seq<T>)
    ensures Concat(xs + [y]) == Concat(xs) + y
  {
    assert (xs + [y])[..|xs|] == xs;
  }

  /** The fragments `cut_by_slice` makes of one streamline cover, in order
      and without overlap, every point from the first kept one on; there is
      one fragment for that point and one more for each later cut-side
      point; and a fragment is open exactly once a kept point was seen. */
  lemma {:induction false} SliceCover(tr: Tract, cut: seq<bool>, t: nat)
    requires |tr| == 3 * |cut| && t <= |cut|
    ensures SliceOk(tr, cut, t)
  {
    if t > 0 {
      SliceCover(tr, cut, t - 1);
      SliceStep(tr, cut, t);
    }
  }

  /** The fragments after the first `t` points cover the points from the
      first kept one, with one more fragment per later cut-side point. */
  ghost predicate SliceOk(tr: Tract, cut: seq<bool>, t: nat)
    requires |tr| == 3 * |cut| && t <= |cut|
  {
    var r, l := SliceFrags(tr, cut, t), LeadCut(cut, t);
    && (r.1 <==> l < t)
    && Concat(r.0) == tr[3 * l..3 * t]
    && |r.0| == (if l < t then 1 + CutsIn(cut, l + 1, t) else 0)
  }

  /** One point of the induction above. */
  lemma {:induction false} SliceStep(tr: Tract, cut: seq<bool>, t: nat)
    requires |tr| == 3 * |cut| && 0 < t <= |cut|
    requires SliceOk(tr, cut, t - 1)
    ensures SliceOk(tr, cut, t)
  {
    var adding := SliceFrags(tr, cut, t - 1).1;
    if !adding {
      assert LeadCut(cut, t - 1) == t - 1 && SliceFrags(tr, cut, t - 1) == ([], false);
    }
    if cut[t - 1] && !adding {
      SliceSkip(tr, cut, t);
    } else if cut[t - 1] {
      SliceSplit(tr, cut, t);
    } else if !adding {
      SliceOpen(tr, cut, t);
    } else {
      SliceExtend(tr, cut, t);
    }
  }

  /** A cut-side point before any kept one is skipped. */
  lemma {:induction false} SliceSkip(tr: Tract, cut: seq<bool>, t: nat)
    requires |tr| == 3 * |cut| && 0 < t <= |cut|
    requires LeadCut(cut, t - 1) == t - 1 && SliceFrags(tr, cut, t - 1) == ([], false)
    requires cut[t - 1]
    ensures SliceOk(tr, cut, t)
  {
    assert LeadCut(cut, t) == t && SliceFrags(tr, cut, t) == ([], false);
  }

  /** A cut-side point after a kept one starts a new fragment. */
  lemma {:induction false} SliceSplit(tr: Tract, cut: seq<bool>, t: nat)
    requires |tr| == 3 * |cut| && 0 < t <= |cut|
    requires SliceOk(tr, cut, t - 1)
    requires cut[t - 1] && SliceFrags(tr, cut, t - 1).1
    ensures SliceOk(tr, cut, t)
  {
    var fs, l, p := SliceFrags(tr, cut, t - 1).0, LeadCut(cut, t - 1), PointOf(tr, t - 1);
    assert LeadCut(cut, t) == l < t - 1 && SliceFrags(tr, cut, t).0 == fs + [p];
    assert CutsIn(cut, l + 1, t) == CutsIn(cut, l + 1, t - 1) + 1;
    SliceJoin(tr, 3 * l, 3 * (t - 1));
    ConcatSnoc(fs, p);
  }

  /** The first kept point opens the first fragment. */
  lemma {:induction false} SliceOpen(tr: Tract, cut: seq<bool>, t: nat)
    requires |tr| == 3 * |cut| && 0 < t <= |cut|
    requires LeadCut(cut, t - 1) == t - 1 && SliceFrags(tr, cut, t - 1) == ([], false)
    requires !cut[t - 1]
    ensures SliceOk(tr, cut, t)
  {
    var p := PointOf(tr, t - 1);
    assert SliceFrags(tr, cut, t).0 == [] + [p] == [p];
    assert LeadCut(cut, t) == t - 1;
    assert CutsIn(cut, t, t) == 0;
    assert 3 * t == 3 * (t - 1) + 3;
    ConcatSnoc([], p);
  }

  /** A kept point with a fragment open extends that fragment. */
  lemma {:induction false} SliceExtend(tr: Tract, cut: seq<bool>, t: nat)
    requires |tr| == 3 * |cut| && 0 < t <= |cut|
    requires SliceOk(tr, cut, t - 1)
    requires !cut[t - 1] && SliceFrags(tr, cut, t - 1).1
    ensures SliceOk(tr, cut, t)
  {
    var fs, l, p := SliceFrags(tr, cut, t - 1).0, LeadCut(cut, t - 1), PointOf(tr, t - 1);
    assert LeadCut(cut, t) == l < t - 1;
    assert CutsIn(cut, l + 1, t) == CutsIn(cut, l + 1, t - 1);
    assert SliceFrags(tr, cut, t).0 == fs[..|fs| - 1] + [fs[|fs| - 1] + p];
    ConcatExtendLast(fs, p);
    SliceJoin(tr, 3 * l, 3 * (t - 1));
  }

  /** Extending the last fragment extends the concatenation. */
  lemma {:induction false} ConcatExtendLast<T>(fs: seq<seq<T>>, p: seq<T>)
    requires fs != []
    ensures Concat(fs[..|fs| - 1] + [fs[|fs| - 1] + p]) == Concat(fs) + p
  {
    var pre, last := fs[..|fs| - 1], fs[|fs| - 1];
    assert fs == pre + [last];
    ConcatSnoc(pre, last);
    ConcatSnoc(pre, last + p);
  }

  lemma {:induction false} SliceJoin<T>(xs: seq<T>, a: nat, b: nat)
    requires a <= b && b + 3 <= |xs|
    ensures xs[a..b + 3] == xs[a..b] + xs[b..b + 3]
  {
  }

  /** `cut_by_slice` on a non-empty store of non-empty streamlines: all of
      them leave as one group marked with the cut id, and the fragments of
      at least two points take their place, tagged with that id. */
  lemma {:induction false} CutBySliceEffect(s: Store, hasCut: seq<seq<bool>>)
    requires Valid(s) && SliceShaped(s.data, hasCut) && s.data != [] && AllNonEmpty(s.data)
    ensures var r, frags := CutBySlice(s, hasCut), SlicePieces(s.data, hasCut, |s.data|);
      var keep := LongEnough(frags);
      && r.data == Filter(frags, keep)
      && r.color == Filter(SliceColors(s.data, hasCut, s.color, |s.data|), keep)
      && (forall k :: 0 <= k < |r.tag| ==> r.tag[k] == s.cutId)
      && r.delData == s.delData + s.data && r.delColor == s.delColor + s.color
      && r.delCount == s.delCount + [|s.data|] && r.isCut == s.isCut + [s.cutId]
      && r.cutId == s.cutId + 1 && r.redo == []
  {
    var idx := Range(0, |s.data|);
    DeleteEffect(s, idx);
    TailRange(s.data, 0, idx);
    TailRange(s.color, 0, idx);
    TailRange(s.tag, 0, idx);
  }

  /** On an empty store `cut_by_slice` deletes nothing, yet still sets the
      top cut mark, which belongs to the previous group, to the cut id. */
  lemma {:induction false} CutBySliceEmpty(s: Store, hasCut: seq<seq<bool>>)
    requires Valid(s) && SliceShaped(s.data, hasCut) && s.data == [] && s.isCut != []
    ensures CutBySlice(s, hasCut) == s.(isCut := s.isCut[|s.isCut| - 1 := s.cutId], cutId := s.cutId + 1, redo := [])
  {
    assert Filter<Tract>([], []) == [];
  }

  /** Appending keeps the store consistent and the old streamlines in
      place; the new ones are exactly the flagged inputs, each with the
      colour `c` and tag 0. */
  lemma {:induction false} AppendedKeeps(s: Store, news: seq<Tract>, keep: seq<bool>, c: nat, t: Tract)
    requires Valid(s) && |keep| == |news|
    ensures var r := Appended(s, Filter(news, keep), c);
      && Valid(r) && |s.data| <= |r.data| && r.data[..|s.data|] == s.data
      && |r.data| - |s.data| == CountTrue(keep)
      && (t in r.data[|s.data|..] <==> exists i :: 0 <= i < |news| && keep[i] && news[i] == t)
      && (forall k :: |s.data| <= k < |r.data| ==> r.color[k] == c && r.tag[k] == 0)
  {
    var r := Appended(s, Filter(news, keep), c);
    FilterLength(news, keep);
    FilterMembers(news, keep, t);
    assert r.data[|s.data|..] == Filter(news, keep);
  }

  /** `add_tracts(new_tract, color)` appends every non-empty new streamline
      and nothing else, after the old ones, with colour `c` and tag 0. */
  lemma {:induction false} AddTractsKeeps(s: Store, news: seq<Tract>, c: nat, t: Tract)
    requires Valid(s)
    ensures var r := AddTracts(s, news, c);
      && Valid(r) && |s.data| <= |r.data| && r.data[..|s.data|] == s.data
      && (t in r.data[|s.data|..] <==> t in news && t != [])
      && (forall k :: |s.data| <= k < |r.data| ==> r.data[k] != [] && r.color[k] == c && r.tag[k] == 0)
  {
    var r := AddTracts(s, news, c);
    AppendedKeeps(s, news, NonEmpty(news), c, t);
    forall k | |s.data| <= k < |r.data|
      ensures r.data[k] != []
    {
      AppendedKeeps(s, news, NonEmpty(news), c, r.data[k]);
      assert r.data[k] in r.data[|s.data|..];
    }
  }

  /** `add_tracts(new_tract, length_threshold, color)` appends exactly the
      new streamlines whose unsigned step count is not below the threshold. */
  lemma {:induction false} AddLongTractsKeeps(s: Store, news: seq<Tract>, threshold: nat, c: nat, t: Tract)
    requires Valid(s)
    ensures var r := AddLongTracts(s, news, threshold, c);
      && Valid(r) && |s.data| <= |r.data| && r.data[..|s.data|] == s.data
      && (t in r.data[|s.data|..] <==> t in news && StepsOf(|t|) >= threshold)
      && (forall k :: |s.data| <= k < |r.data| ==> r.color[k] == c && r.tag[k] == 0)
  {
    AppendedKeeps(s, news, LongOnes(news, threshold), c, t);
  }

  /** As written, the length test lets an empty streamline through for any
      32-bit threshold: its step count wraps to 2^64 - 1. */
  lemma {:induction false} EmptyPassesLengthTest(s: Store, threshold: nat, c: nat)
    requires threshold < 0x1_0000_0000
    ensures AddLongTracts(s, [[]], threshold, c).data == s.data + [[]]
  {
    assert LongOnes([[]], threshold) == [true];
    assert Filter<Tract>([[]], [true]) == [[]] + Filter<Tract>([], []);
  }

  /** The length test as evidently intended: a streamline is appended when
      it has at least one point and at least `threshold` steps. */
  function AddLongTractsIntended(s: Store, news: seq<Tract>, threshold: nat, c: nat): (r: Store)
  {
    var keep := seq(|news|, i requires 0 <= i < |news| => |news[i]| >= 3 && |news[i]| / 3 - 1 >= threshold);
    Appended(s, Filter(news, keep), c)
  }

  /** With the intended test every appended streamline has more than
      `threshold` points, and on inputs of at least one point each the
      intended and the written test agree. */
  lemma {:induction false} AddLongTractsIntendedKeeps(s: Store, news: seq<Tract>, threshold: nat, c: nat, t: Tract)
    requires Valid(s)
    ensures var r := AddLongTractsIntended(s, news, threshold, c);
      && Valid(r) && r.data[..|s.data|] == s.data
      && (t in r.data[|s.data|..] <==> t in news && |t| / 3 > threshold)
      && ((forall i :: 0 <= i < |news| ==> |news[i]| >= 3) ==> r == AddLongTracts(s, news, threshold, c))
  {
    var keep := seq(|news|, i requires 0 <= i < |news| => |news[i]| >= 3 && |news[i]| / 3 - 1 >= threshold);
    AppendedKeeps(s, news, keep, c, t);
    if forall i :: 0 <= i < |news| ==> |news[i]| >= 3 {
      assert keep == LongOnes(news, threshold);
    }
  }

  /** Merging keeps the store consistent. */
  lemma {:induction false} AddValid(s: Store, o: Store)
    requires Valid(s) && Valid(o)
    ensures Valid(Add(s, o))
  {
    SumAppend(o.delCount, s.delCount);
  }

  /** After merging, the top group size is still this model's while the
      top deleted streamlines are the other model's: undo pairs them. */
  lemma {:induction false} AddGroupOrder(s: Store, o: Store)
    requires Valid(s) && Valid(o) && s.delCount != [] && o.delData != []
    ensures var r := Add(s, o);
      && r.delCount[|r.delCount| - 1] == s.delCount[|s.delCount| - 1]
      && r.delData[|r.delData| - 1] == o.delData[|o.delData| - 1]
  {
  }
  // ---------------------------------------------------------------------
  // Corrected definitions of `add`, `undo` and `cut_by_slice`
  // ---------------------------------------------------------------------

  /** `add` with the other model's group sizes appended after this
      model's, in the order of every other deleted list. */
  function AddIntended(s: Store, o: Store): (r: Store)
  {
    Add(s, o).(delCount := s.delCount + o.delCount)
  }

  /** After the corrected merge the top group is the other model's: its
      size is on top of the group sizes and its streamlines are on top of
      the deleted stack, so undo restores exactly that group. */
  lemma {:induction false} AddIntendedGroupOrder(s: Store, o: Store)
    requires Valid(s) && Valid(o) && o.delCount != []
    ensures var r, n := AddIntended(s, o), o.delCount[|o.delCount| - 1];
      && Valid(r)
      && r.delCount[|r.delCount| - 1] == n
      && n <= |o.delData| <= |r.delData|
      && r.delData[|r.delData| - n..] == o.delData[|o.delData| - n..]
  {
    SumAppend(s.delCount, o.delCount);
    SumNat(o.delCount);
    SuffixOfAppend(s.delData, o.delData, o.delCount[|o.delCount| - 1]);
  }

  /** The last `n` entries of `a + b` are those of `b` when `b` has `n`. */
  lemma {:induction false} SuffixOfAppend<T>(a: seq<T>, b: seq<T>, n: nat)
    requires n <= |b|
    ensures (a + b)[|a + b| - n..] == b[|b| - n..]
  {
    assert (a + b)[|a + b| - n..] == (a + b)[|a|..][|b| - n..];
    assert (a + b)[|a|..] == b;
  }

  /** `undo` with the redo entry recorded after the cut branch, where the
      restored streamlines finally sit: the last `n` active ones (the whole
      list if fewer remain). */
  function UndoIntended(s: Store): (r: Store)
    requires Valid(s)
    ensures Valid(r)
  {
    if s.delCount == [] then s
    else
      var u := Undo(s);
      var n := s.delCount[|s.delCount| - 1];
      u.(redo := s.redo + [Span(if n <= |u.data| then |u.data| - n else 0, n)])
  }

  /** Away from a cut the corrected `undo` is the original one. */
  lemma {:induction false} UndoIntendedPlain(s: Store)
    requires Valid(s) && s.delCount != [] && s.isCut[|s.isCut| - 1] == 0
    ensures UndoIntended(s) == Undo(s)
  {
    var n := s.delCount[|s.delCount| - 1];
    SumNat(s.delCount);
    assert |Restore(s).data| == |s.data| + n;
  }

  /** After undoing a `cut`, the corrected redo entry covers exactly the
      restored streamlines, so redo can replay it. */
  lemma {:induction false} UndoIntendedAfterCut(s: Store, sel: seq<nat>)
    requires Valid(s) && |sel| == |s.data| && AllNonEmpty(s.data) && TagsBelow(s)
    requires CutIndices(s.data, sel, |sel|) != []
    ensures var idx, u := CutIndices(s.data, sel, |sel|), UndoIntended(Cut(s, sel));
      var f := |Filter(s.data, Outside(idx, |s.data|))|;
      && u.redo == [Span(f, |idx|)]
      && RedoFits(u)
      && u.data[f..] == Reverse(Pick(s.data, idx))
  {
    var idx, c := CutIndices(s.data, sel, |sel|), Cut(s, sel);
    var keep := Outside(idx, |s.data|);
    assert c.delCount == s.delCount + [|idx|] && c.redo == [] by {
      CutEffect(s, sel);
    }
    assert Undo(c).data == Filter(s.data, keep) + Reverse(Pick(s.data, idx)) by {
      UndoCut(s, sel);
    }
  }

  /** `cut_by_slice` that leaves a model without streamlines alone: there
      is nothing to delete and no group of its own whose cut mark to set. */
  function CutBySliceIntended(s: Store, hasCut: seq<seq<bool>>): (r: Store)
    requires Valid(s) && SliceShaped(s.data, hasCut)
    ensures Valid(r)
  {
    if s.data == [] then s else CutBySlice(s, hasCut)
  }

  /** The corrected `cut_by_slice` never rewrites the cut mark of an
      earlier group, and is defined on every model. */
  lemma {:induction false} CutBySliceKeepsMarks(s: Store, hasCut: seq<seq<bool>>)
    requires Valid(s) && SliceShaped(s.data, hasCut)
    ensures var r := CutBySliceIntended(s, hasCut);
      |s.isCut| <= |r.isCut| && r.isCut[..|s.isCut|] == s.isCut
  {
    if s.data != [] {
      var d := DeleteTracts(s, Range(0, |s.data|));
      DeleteUnfold(s, Range(0, |s.data|));
      CutBySliceUnfold(s, hasCut, SlicePieces(s.data, hasCut, |s.data|),
                       SliceColors(s.data, hasCut, s.color, |s.data|), d);
      assert d.isCut == s.isCut + [0];
    }
  }

  // ---------------------------------------------------------------------
  // Loop steps of the class methods
  // ---------------------------------------------------------------------

  /** The first `k` rounds of the loop of `undo`: the top `k` deleted
      streamlines popped and appended, last first. */
  function Popped(s: Store, k: nat): (r: Store)
    requires |s.delData| == |s.delColor| == |s.delTag| && k <= |s.delData|
    ensures |r.delData| == |r.delColor| == |r.delTag| == |s.delData| - k
    ensures |r.data| == |s.data| + k && |r.color| == |s.color| + k && |r.tag| == |s.tag| + k
  {
    var d, c, t := Moved(s.data, s.delData, k), Moved(s.color, s.delColor, k), Moved(s.tag, s.delTag, k);
    s.(data := d.0, color := c.0, tag := t.0, delData := d.1, delColor := c.1, delTag := t.1)
  }

  /** One active array and its deleted stack after `k` rounds. */
  function Moved<T>(active: seq<T>, del: seq<T>, k: nat): (r: (seq<T>, seq<T>))
    requires k <= |del|
    ensures |r.0| == |active| + k && |r.1| == |del| - k
  {
    var m := |del| - k;
    (active + Reverse(del[m..]), del[..m])
  }

  /** One more round pops the top of each stack onto its active array. */
  lemma {:induction false} PoppedStep(s: Store, k: nat)
    requires |s.delData| == |s.delColor| == |s.delTag| && k < |s.delData|
    ensures var p, q := Popped(s, k), Popped(s, k + 1);
      var j := |p.delData| - 1;
      q.data == p.data + [p.delData[j]] && q.color == p.color + [p.delColor[j]] && q.tag == p.tag + [p.delTag[j]] &&
      q.delData == p.delData[..j] && q.delColor == p.delColor[..j] && q.delTag == p.delTag[..j]
  {
    MovedStep(s.data, s.delData, k);
    MovedStep(s.color, s.delColor, k);
    MovedStep(s.tag, s.delTag, k);
  }

  /** No round pops nothing. */
  lemma {:induction false} MovedNone<T>(active: seq<T>, del: seq<T>)
    ensures Moved(active, del, 0) == (active, del)
  {
    assert del[|del|..] == [] && del[..|del|] == del;
    assert Reverse<T>([]) == [];
    assert active + [] == active;
  }

  /** One stack in one more round of popping. */
  lemma {:induction false} MovedStep<T>(active: seq<T>, del: seq<T>, k: nat)
    requires k < |del|
    ensures var p, q := Moved(active, del, k), Moved(active, del, k + 1);
      var j := |p.1| - 1;
      q.0 == p.0 + [p.1[j]] && q.1 == p.1[..j]
  {
    var m := |del| - k;
    ReverseFrom(del, m - 1);
    assert del[..m - 1] == del[..m][..m - 1];
  }

  /** The loop of `undo` after the redo entry is pushed is `Restore`. */
  lemma {:induction false} RestorePopped(s: Store)
    requires Valid(s) && s.delCount != []
    ensures var n := s.delCount[|s.delCount| - 1];
      n <= |s.delData| && Restore(s) == Popped(s.(redo := s.redo + [Span(|s.data|, n)]), n)
  {
    SumNat(s.delCount);
  }

  /** `undo` with a group to restore, step by step. */
  lemma {:induction false} UndoUnfold(s: Store)
    requires Valid(s) && s.delCount != []
    ensures |s.isCut| > 0
    ensures var c := DropCut(Restore(s), s.isCut[|s.isCut| - 1]);
      Undo(s) == c.(isCut := s.isCut[..|s.isCut| - 1], delCount := s.delCount[..|s.delCount| - 1], saved := false)
  {
  }

  /** `cut_by_slice` step by step: the deletion, then the kept fragments. */
  lemma {:induction false} CutBySliceUnfold(s: Store, hasCut: seq<seq<bool>>, frags: seq<Tract>, colors: seq<nat>, d: Store)
    requires Valid(s) && SliceShaped(s.data, hasCut) && SliceCanMark(s)
    requires frags == SlicePieces(s.data, hasCut, |s.data|)
    requires colors == SliceColors(s.data, hasCut, s.color, |s.data|)
    requires d == DeleteTracts(s, Range(0, |s.data|))
    ensures d.isCut != [] && |colors| == |frags|
    ensures var keep := LongEnough(frags);
      CutBySlice(s, hasCut) == d.(isCut := d.isCut[|d.isCut| - 1 := s.cutId],
                                  data := d.data + Filter(frags, keep), color := d.color + Filter(colors, keep),
                                  tag := d.tag + Repeat(s.cutId, |Filter(frags, keep)|),
                                  cutId := s.cutId + 1, redo := [])
  {
  }

  /** `delete_tracts` does not look at the redo stack. */
  lemma {:induction false} DeleteIgnoresRedo(s: Store, idx: seq<nat>, rest: seq<Span>)
    requires Valid(s) && InRange(idx, |s.data|)
    ensures DeleteTracts(s.(redo := []), idx).(redo := rest) == DeleteTracts(s.(redo := rest), idx).(redo := rest)
  {
    if idx != [] {
      MoveOutRedo(s, idx, []);
      MoveOutRedo(s, idx, rest);
    }
  }

  lemma {:induction false} MoveOutRedo(s: Store, idx: seq<nat>, x: seq<Span>)
    requires |s.data| == |s.color| == |s.tag| && InRange(idx, |s.data|)
    ensures MoveOut(s.(redo := x), idx) == MoveOut(s, idx).(redo := x)
    decreases |idx|
  {
    if idx != [] {
      MoveOutRedo(s, idx[..|idx| - 1], x);
    }
  }

  lemma {:induction false} RepeatSnoc<T>(x: T, n: nat)
    ensures Repeat(x, n) + [x] == Repeat(x, n + 1)
  {
  }

  lemma {:induction false} ShiftSnoc(rs: seq<Span>, d: nat, k: nat)
    requires k < |rs|
    ensures Shift(rs[..k + 1], d) == Shift(rs[..k], d) + [Span(rs[k].offset + d, rs[k].count)]
  {
  }
}
