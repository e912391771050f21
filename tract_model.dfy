/** The class `TractModel` itself: the member vectors that its editing
    methods push to, pop from and erase in place. Each method is proved to
    move the abstract store (`Abs`) exactly as the matching function of
    `TractStore` does, so the properties proved there hold for the class. */
module TractModelClass {
  import opened Common
  import opened TractStore

  /** `remove_if` followed by `erase`: the entries whose flag is set, in
      order. */
  method KeepMarked<T>(xs: seq<T>, keep: seq<bool>) returns (r: seq<T>)
    requires |keep| == |xs|
    ensures r == Filter(xs, keep)
  {
    r := [];
    var i := 0;
    while i < |xs|
      invariant 0 <= i <= |xs|
      invariant r == Filter(xs[..i], keep[..i])
    {
      FilterSnoc(xs, keep, i);
      if keep[i] {
        r := r + [xs[i]];
      }
      i := i + 1;
    }
    assert xs[..i] == xs && keep[..i] == keep;
  }

  /** The body of `undo`'s loop on the six arrays it touches. */
  method PopRounds(data: seq<Tract>, color: seq<nat>, tag: seq<nat>,
                   delData: seq<Tract>, delColor: seq<nat>, delTag: seq<nat>, n: nat)
      returns (data': seq<Tract>, color': seq<nat>, tag': seq<nat>,
               delData': seq<Tract>, delColor': seq<nat>, delTag': seq<nat>)
    requires |delData| == |delColor| == |delTag| && n <= |delData|
    ensures (data', delData') == Moved(data, delData, n)
    ensures (color', delColor') == Moved(color, delColor, n)
    ensures (tag', delTag') == Moved(tag, delTag, n)
  {
    data', color', tag', delData', delColor', delTag' := data, color, tag, delData, delColor, delTag;
    MovedNone(data, delData);
    MovedNone(color, delColor);
    MovedNone(tag, delTag);
    var k := 0;
    while k < n
      invariant 0 <= k <= n
      invariant (data', delData') == Moved(data, delData, k)
      invariant (color', delColor') == Moved(color, delColor, k)
      invariant (tag', delTag') == Moved(tag, delTag, k)
    {
      MovedStep(data, delData, k);
      MovedStep(color, delColor, k);
      MovedStep(tag, delTag, k);
      var j := |delData'| - 1;
      data', color', tag' := data' + [delData'[j]], color' + [delColor'[j]], tag' + [delTag'[j]];
      delData', delColor', delTag' := delData'[..j], delColor'[..j], delTag'[..j];
      k := k + 1;
    }
  }

  /** The loop of both `add_tracts` overloads: each flagged new streamline
      is pushed with colour `c` and tag 0. */
  method AppendKept(data: seq<Tract>, color: seq<nat>, tag: seq<nat>, news: seq<Tract>, keep: seq<bool>, c: nat)
      returns (data': seq<Tract>, color': seq<nat>, tag': seq<nat>)
    requires |keep| == |news|
    ensures data' == data + Filter(news, keep)
    ensures color' == color + Repeat(c, |Filter(news, keep)|) && tag' == tag + Repeat(0, |Filter(news, keep)|)
  {
    data', color', tag' := data, color, tag;
    var index := 0;
    while index < |news|
      invariant 0 <= index <= |news|
      invariant data' == data + Filter(news[..index], keep[..index])
      invariant color' == color + Repeat(c, |Filter(news[..index], keep[..index])|)
      invariant tag' == tag + Repeat(0, |Filter(news[..index], keep[..index])|)
    {
      FilterSnoc(news, keep, index);
      if keep[index] {
        RepeatSnoc(c, |Filter(news[..index], keep[..index])|);
        RepeatSnoc(0, |Filter(news[..index], keep[..index])|);
        data', color', tag' := data' + [news[index]], color' + [c], tag' + [0];
      }
      index := index + 1;
    }
    assert news[..index] == news && keep[..index] == keep;
  }

  /** The loop of `delete_tracts` on the store value: each listed
      streamline in turn is pushed onto the deleted stacks and emptied. */
  method MoveRounds(s: Store, idx: seq<nat>) returns (m: Store)
    requires |s.data| == |s.color| == |s.tag| && InRange(idx, |s.data|)
    ensures m == MoveOut(s, idx)
  {
    m := s;
    var k := 0;
    while k < |idx|
      invariant 0 <= k <= |idx|
      invariant m == MoveOut(s, idx[..k])
    {
      MoveOutStep(s, idx, k);
      var i := idx[k];
      m := m.(delData := m.delData + [m.data[i]], delColor := m.delColor + [m.color[i]],
              delTag := m.delTag + [m.tag[i]], data := m.data[i := []]);
      k := k + 1;
    }
    assert idx[..k] == idx;
  }

  /** The loop of `add` over the other model's redo entries, each moved
      past `shift` streamlines. */
  method PushShifted(redo: seq<Span>, more: seq<Span>, shift: nat) returns (r: seq<Span>)
    ensures r == redo + Shift(more, shift)
  {
    r := redo;
    var index := 0;
    while index < |more|
      invariant 0 <= index <= |more|
      invariant r == redo + Shift(more[..index], shift)
    {
      ShiftSnoc(more, shift, index);
      r := r + [Span(more[index].offset + shift, more[index].count)];
      index := index + 1;
    }
    assert more[..index] == more;
  }

  /** The loop that appends the fragments of a cut: each with its colour
      and the cut id as tag. */
  method AppendTagged(data: seq<Tract>, color: seq<nat>, tag: seq<nat>, frags: seq<Tract>, colors: seq<nat>, id: nat)
      returns (data': seq<Tract>, color': seq<nat>, tag': seq<nat>)
    requires |frags| == |colors|
    ensures data' == data + frags && color' == color + colors && tag' == tag + Repeat(id, |frags|)
  {
    data', color', tag' := data, color, tag;
    var index := 0;
    while index < |frags|
      invariant 0 <= index <= |frags|
      invariant data' == data + frags[..index] && color' == color + colors[..index]
      invariant tag' == tag + Repeat(id, index)
    {
      assert frags[..index + 1] == frags[..index] + [frags[index]];
      assert colors[..index + 1] == colors[..index] + [colors[index]];
      RepeatSnoc(id, index);
      data', color', tag' := data' + [frags[index]], color' + [colors[index]], tag' + [id];
      index := index + 1;
    }
    assert frags[..index] == frags && colors[..index] == colors;
  }

  class TractModel {
    var tractData: seq<Tract>
    var tractColor: seq<nat>
    var tractTag: seq<nat>
    var deletedTractData: seq<Tract>
    var deletedTractColor: seq<nat>
    var deletedTractTag: seq<nat>
    var deletedCount: seq<nat>
    var isCut: seq<nat>
    var redoSize: seq<Span>
    var curCutId: nat
    var saved: bool

    /** The fields as a store value. */
    function Abs(): Store
      reads this
    {
      Store(tractData, tractColor, tractTag, deletedTractData, deletedTractColor, deletedTractTag,
            deletedCount, isCut, redoSize, curCutId, saved)
    }

    ghost predicate Valid()
      reads this
    {
      TractStore.Valid(Abs())
    }

    /** An empty model; cut ids start at 1, so that 0 marks a plain
        deletion. */
    constructor ()
      ensures Valid()
      ensures Abs() == Store([], [], [], [], [], [], [], [], [], 1, false)
    {
      tractData, tractColor, tractTag := [], [], [];
      deletedTractData, deletedTractColor, deletedTractTag := [], [], [];
      deletedCount, isCut, redoSize := [], [], [];
      curCutId, saved := 1, false;
    }

    method Clear()
      modifies this
      ensures Abs() == TractStore.Clear(old(Abs()))
    {
      tractData, tractColor, tractTag := [], [], [];
      redoSize := [];
    }

    method ClearDeleted()
      modifies this
      ensures Abs() == TractStore.ClearDeleted(old(Abs()))
    {
      deletedCount := [];
      deletedTractData, deletedTractColor, deletedTractTag := [], [], [];
      redoSize := [];
    }

    /** The colours, then the tags, then the streamlines themselves are
        compacted, each keeping the rows whose streamline is non-empty. */
    method EraseEmpty()
      requires |tractData| == |tractColor| == |tractTag|
      modifies this
      ensures Abs() == TractStore.EraseEmpty(old(Abs()))
    {
      var keep := NonEmpty(tractData);
      tractColor := KeepMarked(tractColor, keep);
      tractTag := KeepMarked(tractTag, keep);
      tractData := KeepMarked(tractData, keep);
    }

    /** The loop of `delete_tracts`: each listed streamline is moved onto
        the deleted stacks, leaving an empty one in its row. */
    method MoveToDeleted(idx: seq<nat>)
      requires |tractData| == |tractColor| == |tractTag| && InRange(idx, |tractData|)
      modifies this
      ensures Abs() == MoveOut(old(Abs()), idx)
    {
      ghost var s0 := Abs();
      var m := MoveRounds(Abs(), idx);
      tractData, deletedTractData, deletedTractColor, deletedTractTag := m.data, m.delData, m.delColor, m.delTag;
      assert Abs() == s0.(data := m.data, delData := m.delData, delColor := m.delColor, delTag := m.delTag);
    }

    method DeleteTracts(idx: seq<nat>)
      requires Valid() && InRange(idx, |tractData|)
      modifies this
      ensures Valid()
      ensures Abs() == TractStore.DeleteTracts(old(Abs()), idx)
    {
      if idx == [] {
        return;
      }
      MoveToDeleted(idx);
      EraseEmpty();
      ghost var m := Abs();
      deletedCount := deletedCount + [|idx|];
      isCut := isCut + [0];
      redoSize := [];
      saved := tractData == [];
      assert Abs() == m.(delCount := old(deletedCount) + [|idx|], isCut := old(isCut) + [0], redo := [], saved := m.data == []);
      DeleteUnfold(old(Abs()), idx);
    }

    /** The listed rows are flagged, then every unflagged index is
        collected in increasing order and deleted. */
    method SelectTracts(sel: seq<nat>)
      requires Valid() && InRange(sel, |tractData|)
      modifies this
      ensures Valid()
      ensures Abs() == TractStore.SelectTracts(old(Abs()), sel)
    {
      var selected := FlagSelected(|tractData|, sel);
      var notSelected := Unflagged(selected, sel);
      DeleteTracts(notSelected);
    }

    /** The first loop of `select_tracts`. */
    static method FlagSelected(n: nat, sel: seq<nat>) returns (selected: seq<bool>)
      requires InRange(sel, n)
      ensures |selected| == n && forall i :: 0 <= i < n ==> (selected[i] <==> i in sel)
    {
      selected := seq(n, _ => false);
      var k := 0;
      while k < |sel|
        invariant 0 <= k <= |sel| && |selected| == n
        invariant forall i :: 0 <= i < n ==> (selected[i] <==> i in sel[..k])
      {
        assert sel[..k + 1] == sel[..k] + [sel[k]];
        selected := selected[sel[k] := true];
        k := k + 1;
      }
      assert sel[..k] == sel;
    }

    /** The second loop of `select_tracts`. */
    static method Unflagged(selected: seq<bool>, sel: seq<nat>) returns (notSelected: seq<nat>)
      requires forall i :: 0 <= i < |selected| ==> (selected[i] <==> i in sel)
      ensures notSelected == NotSelected(|selected|, sel)
    {
      notSelected := [];
      var i := 0;
      while i < |selected|
        invariant 0 <= i <= |selected|
        invariant notSelected == NotSelected(i, sel)
      {
        assert NotSelected(i + 1, sel) == notSelected + (if i in sel then [] else [i]);
        if !selected[i] {
          notSelected := notSelected + [i];
        }
        i := i + 1;
      }
    }

    /** The loop of `undo`: `n` times, the top deleted streamline, colour
        and tag are pushed onto the active arrays and popped. */
    method PopGroup(n: nat)
      requires |deletedTractData| == |deletedTractColor| == |deletedTractTag| && n <= |deletedTractData|
      modifies this
      ensures Abs() == Popped(old(Abs()), n)
    {
      ghost var s0 := Abs();
      var data, color, tag, delData, delColor, delTag :=
        PopRounds(tractData, tractColor, tractTag, deletedTractData, deletedTractColor, deletedTractTag, n);
      tractData, tractColor, tractTag, deletedTractData, deletedTractColor, deletedTractTag :=
        data, color, tag, delData, delColor, delTag;
      assert Abs() == s0.(data := data, color := color, tag := tag,
                          delData := delData, delColor := delColor, delTag := delTag);
    }

    /** The cut branch of `undo`: every streamline tagged `id` is emptied. */
    method ClearTag(id: nat)
      requires |tractData| == |tractTag|
      modifies this
      ensures Abs() == ClearTagged(old(Abs()), id)
    {
      var i := 0;
      while i < |tractTag|
        invariant 0 <= i <= |tractTag| && |tractData| == |tractTag|
        invariant tractColor == old(tractColor) && tractTag == old(tractTag)
        invariant forall j :: 0 <= j < i ==> tractData[j] == if tractTag[j] == id then [] else old(tractData)[j]
        invariant forall j :: i <= j < |tractData| ==> tractData[j] == old(tractData)[j]
        invariant deletedTractData == old(deletedTractData) && deletedTractColor == old(deletedTractColor)
        invariant deletedTractTag == old(deletedTractTag) && deletedCount == old(deletedCount)
        invariant isCut == old(isCut) && redoSize == old(redoSize)
        invariant curCutId == old(curCutId) && saved == old(saved)
      {
        if tractTag[i] == id {
          tractData := tractData[i := []];
        }
        i := i + 1;
      }
      assert tractData == ClearTagged(old(Abs()), id).data;
    }

    /** The first half of `undo`: the redo entry for the group is pushed,
        then the group is popped back onto the active arrays. */
    method RestoreGroup()
      requires Valid() && deletedCount != []
      modifies this
      ensures Abs() == Restore(old(Abs()))
    {
      RestorePopped(Abs());
      var n := deletedCount[|deletedCount| - 1];
      redoSize := redoSize + [Span(|tractData|, n)];
      PopGroup(n);
    }

    /** The cut branch of `undo`. */
    method DropCutMark(id: nat)
      requires |tractData| == |tractColor| == |tractTag|
      modifies this
      ensures Abs() == DropCut(old(Abs()), id)
    {
      if id != 0 {
        ClearTag(id);
        EraseEmpty();
      }
    }

    method Undo()
      requires Valid()
      modifies this
      ensures Valid()
      ensures Abs() == TractStore.Undo(old(Abs()))
    {
      if deletedCount == [] {
        return;
      }
      UndoUnfold(Abs());
      RestoreGroup();
      var id := isCut[|isCut| - 1];
      DropCutMark(id);
      PopMarks();
    }

    /** The end of `undo`: the top cut mark and group size are popped. */
    method PopMarks()
      requires isCut != [] && deletedCount != []
      modifies this
      ensures Abs() == old(Abs()).(isCut := old(isCut)[..|old(isCut)| - 1],
                                   delCount := old(deletedCount)[..|old(deletedCount)| - 1], saved := false)
    {
      isCut, deletedCount, saved := isCut[..|isCut| - 1], deletedCount[..|deletedCount| - 1], false;
    }

    /** The top redo entry's range is collected and deleted with the redo
        stack set aside, so that `delete_tracts` does not clear it. */
    method Redo()
      requires Valid() && RedoFits(Abs())
      modifies this
      ensures Valid()
      ensures Abs() == TractStore.Redo(old(Abs()))
    {
      if redoSize == [] {
        return;
      }
      var e := redoSize[|redoSize| - 1];
      var redoTracts := [];
      var index := 0;
      while index < e.count
        invariant 0 <= index <= e.count
        invariant redoTracts == Range(e.offset, index)
      {
        redoTracts := redoTracts + [e.offset + index];
        index := index + 1;
      }
      redoSize := redoSize[..|redoSize| - 1];
      var keepRedo := redoSize;
      redoSize := [];
      DeleteIgnoresRedo(old(Abs()), redoTracts, keepRedo);
      DeleteTracts(redoTracts);
      redoSize := keepRedo;
    }

    /** `add_tracts(new_tract, color)`: empty streamlines are skipped, the
        others appended with the colour and tag 0. */
    method AddTracts(news: seq<Tract>, c: nat)
      modifies this
      ensures Abs() == TractStore.AddTracts(old(Abs()), news, c)
    {
      ghost var s0 := Abs();
      var data, color, tag := AppendKept(tractData, tractColor, tractTag, news, NonEmpty(news), c);
      tractData, tractColor, tractTag, saved := data, color, tag, false;
      assert Abs() == s0.(data := data, color := color, tag := tag, saved := false);
    }

    /** `add_tracts(new_tract, length_threshold, color)`: streamlines whose
        step count is below the threshold are skipped, the others appended
        with the colour and tag 0. */
    method AddLongTracts(news: seq<Tract>, threshold: nat, c: nat)
      requires threshold < 0x1_0000_0000
      modifies this
      ensures Abs() == TractStore.AddLongTracts(old(Abs()), news, threshold, c)
    {
      ghost var s0 := Abs();
      var data, color, tag := AppendKept(tractData, tractColor, tractTag, news, LongOnes(news, threshold), c);
      tractData, tractColor, tractTag, saved := data, color, tag, false;
      assert Abs() == s0.(data := data, color := color, tag := tag, saved := false);
    }

    /** `add_tracts(new_tracks)`: the colour is that of the last active
        streamline, or the default colour when there is none. */
    method AddTractsLastColor(news: seq<Tract>, defaultColor: nat)
      modifies this
      ensures var c := if old(tractColor) == [] then defaultColor else old(tractColor)[|old(tractColor)| - 1];
        Abs() == TractStore.AddTracts(old(Abs()), news, c)
    {
      var c := if tractColor == [] then defaultColor else tractColor[|tractColor| - 1];
      AddTracts(news, c);
    }

    /** `add`: appends every list of `other`, with its redo offsets moved
        past this model's streamlines, and its group sizes in front. */
    method Add(other: TractModel)
      requires other != this
      modifies this
      ensures Abs() == TractStore.Add(old(Abs()), other.Abs())
    {
      ghost var s0, o := Abs(), other.Abs();
      var redo := PushShifted(redoSize, other.redoSize, |tractData|);
      tractData, tractColor, tractTag := tractData + other.tractData, tractColor + other.tractColor,
        tractTag + other.tractTag;
      deletedTractData, deletedTractColor, deletedTractTag := deletedTractData + other.deletedTractData,
        deletedTractColor + other.deletedTractColor, deletedTractTag + other.deletedTractTag;
      deletedCount, isCut, redoSize := other.deletedCount + deletedCount, isCut + other.isCut, redo;
      assert Abs() == TractStore.Add(s0, o);
    }

    /** The first loop of `cut`: which streamlines split, and their two
        fragments with the streamline's colour each. */
    method CollectCuts(sel: seq<nat>) returns (newTract: seq<Tract>, newColor: seq<nat>, toDelete: seq<nat>)
      requires |sel| == |tractData| == |tractColor|
      ensures newTract == CutPieces(tractData, sel, |sel|)
      ensures newColor == CutColors(tractData, sel, tractColor, |sel|)
      ensures toDelete == CutIndices(tractData, sel, |sel|)
    {
      newTract, newColor, toDelete := [], [], [];
      var index := 0;
      while index < |sel|
        invariant 0 <= index <= |sel|
        invariant newTract == CutPieces(tractData, sel, index)
        invariant newColor == CutColors(tractData, sel, tractColor, index)
        invariant toDelete == CutIndices(tractData, sel, index)
      {
        var t := tractData[index];
        if sel[index] != 0 && sel[index] < |t| && |t| > 6 {
          newTract := newTract + [t[..sel[index]], t[sel[index]..]];
          newColor := newColor + [tractColor[index], tractColor[index]];
          toDelete := toDelete + [index];
        }
        index := index + 1;
      }
    }

    /** The end of `cut` and `cut_by_slice`: the group just deleted is
        marked with the current cut id, the fragments are appended with that
        id as tag, and the id advances. */
    method AppendFragments(frags: seq<Tract>, colors: seq<nat>)
      requires |frags| == |colors| && isCut != []
      modifies this
      ensures Abs() == old(Abs()).(isCut := old(isCut)[|old(isCut)| - 1 := old(curCutId)],
                                   data := old(tractData) + frags, color := old(tractColor) + colors,
                                   tag := old(tractTag) + Repeat(old(curCutId), |frags|),
                                   cutId := old(curCutId) + 1, redo := [])
    {
      ghost var s0 := Abs();
      var data, color, tag := AppendTagged(tractData, tractColor, tractTag, frags, colors, curCutId);
      isCut, tractData, tractColor, tractTag := isCut[|isCut| - 1 := curCutId], data, color, tag;
      curCutId, redoSize := curCutId + 1, [];
      assert Abs() == s0.(isCut := isCut, data := data, color := color, tag := tag, cutId := curCutId, redo := []);
    }

    /** `cut` with the selection offsets `sel` of the streamlines. */
    method Cut(sel: seq<nat>)
      requires Valid() && |sel| == |tractData|
      modifies this
      ensures Valid()
      ensures Abs() == TractStore.Cut(old(Abs()), sel)
    {
      var newTract, newColor, toDelete := CollectCuts(sel);
      if toDelete == [] {
        return;
      }
      DeleteTracts(toDelete);
      AppendFragments(newTract, newColor);
    }
  
    /** `get_cut_points` without a transformation. */
    static method GetCutPoints(data: seq<Tract>, dim: nat, pos: real, greater: bool) returns (hasCut: seq<seq<bool>>)
      requires dim < 3 && forall i :: 0 <= i < |data| ==> |data[i]| % 3 == 0
      ensures hasCut == CutPoints(data, dim, pos, greater)
    {
      hasCut := [];
      var i := 0;
      while i < |data|
        invariant 0 <= i <= |data| && |hasCut| == i
        invariant forall k :: 0 <= k < i ==> hasCut[k] == CutRow(data[k], dim, pos, greater)
      {
        var row := [];
        var t := 0;
        while 3 * t < |data[i]|
          invariant 0 <= 3 * t <= |data[i]| && |row| == t
          invariant forall u :: 0 <= u < t ==> row[u] == ((data[i][3 * u + dim] < pos) != greater)
        {
          row := row + [(data[i][3 * t + dim] < pos) != greater];
          t := t + 1;
        }
        assert row == CutRow(data[i], dim, pos, greater);
        hasCut := hasCut + [row];
        i := i + 1;
      }
    }

    /** The inner loop of `cut_by_slice` over the points of one streamline:
        leading cut-side points are skipped; after that a cut-side point
        closes the open fragment and opens a new one. */
    static method SliceTract(tr: Tract, cut: seq<bool>) returns (frags: seq<Tract>)
      requires |tr| == 3 * |cut|
      ensures frags == SliceFrags(tr, cut, |cut|).0
    {
      frags := [];
      var adding := false;
      var t := 0;
      while t < |cut|
        invariant 0 <= t <= |cut|
        invariant (frags, adding) == SliceFrags(tr, cut, t)
      {
        var p := PointOf(tr, t);
        if !cut[t] || adding {
          if cut[t] {
            adding := false;
          }
          if !adding {
            frags := frags + [[]];
            adding := true;
          }
          var last := |frags| - 1;
          assert frags[last] + p == if cut[t] || frags[last] == [] then p else frags[last] + p;
          frags := frags[..last] + [frags[last] + p];
        }
        t := t + 1;
      }
    }

    /** The outer loop of `cut_by_slice`: the fragments of every streamline
        with its colour, and every index listed for deletion. */
    method CollectSlices(hasCut: seq<seq<bool>>) returns (newTract: seq<Tract>, newColor: seq<nat>, toDelete: seq<nat>)
      requires SliceShaped(tractData, hasCut) && |tractColor| == |tractData|
      ensures newTract == SlicePieces(tractData, hasCut, |tractData|)
      ensures newColor == SliceColors(tractData, hasCut, tractColor, |tractData|)
      ensures toDelete == Range(0, |tractData|)
    {
      newTract, newColor, toDelete := [], [], [];
      var i := 0;
      while i < |tractData|
        invariant 0 <= i <= |tractData|
        invariant newTract == SlicePieces(tractData, hasCut, i)
        invariant newColor == SliceColors(tractData, hasCut, tractColor, i)
        invariant toDelete == Range(0, i)
      {
        var frags := SliceTract(tractData[i], hasCut[i]);
        newTract := newTract + frags;
        newColor := newColor + Repeat(tractColor[i], |frags|);
        toDelete := toDelete + [i];
        i := i + 1;
      }
    }

    /** `cut_by_slice` along axis `dim` at `pos`, without a transformation. */
    method CutBySlice(dim: nat, pos: nat, greater: bool)
      requires Valid() && dim < 3 && (forall i :: 0 <= i < |tractData| ==> |tractData[i]| % 3 == 0)
      requires SliceCanMark(Abs())
      modifies this
      ensures Valid()
      ensures Abs() == TractStore.CutBySlice(old(Abs()), CutPoints(old(tractData), dim, pos as real, greater))
    {
      var hasCut := GetCutPoints(tractData, dim, pos as real, greater);
      CutByFlags(hasCut);
    }

    /** `cut_by_slice` once the per-point cut flags are known. */
    method CutByFlags(hasCut: seq<seq<bool>>)
      requires Valid() && SliceShaped(tractData, hasCut) && SliceCanMark(Abs())
      modifies this
      ensures Abs() == TractStore.CutBySlice(old(Abs()), hasCut)
    {
      var newTract, newColor, toDelete := CollectSlices(hasCut);
      ghost var s := Abs();
      DeleteTracts(toDelete);
      ghost var d := Abs();
      CutBySliceUnfold(s, hasCut, newTract, newColor, d);
      var keep := LongEnough(newTract);
      var kept := KeepMarked(newTract, keep);
      var keptColor := KeepMarked(newColor, keep);
      FilterLength(newTract, keep);
      FilterLength(newColor, keep);
      AppendFragments(kept, keptColor);
      assert Abs() == d.(isCut := d.isCut[|d.isCut| - 1 := s.cutId], data := d.data + kept,
                         color := d.color + keptColor, tag := d.tag + Repeat(s.cutId, |kept|),
                         cutId := s.cutId + 1, redo := []);
    }
}
}
