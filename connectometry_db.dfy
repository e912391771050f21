/** The subject table of a connectometry database (`connectometry_db`) and the
    design matrix of its statistical model (`stat_model`): lockstep edits of the
    per-subject lists, the voxel index maps, the demographic read, and the
    column and row edits of the row-major X. */
module ConnectometryDb {
  import opened Common
  import opened Demographics

  // ------------------------------------------------------------ moving a subject

  /** `move_up(id)` on one of the lockstep lists: the entry changes places with
      the one before it; the first entry stays where it is. */
  function MovedUp<T>(s: seq<T>, id: nat): (r: seq<T>)
    requires id < |s|
    ensures |r| == |s| && multiset(r) == multiset(s)
    ensures id > 0 ==> r[id - 1] == s[id] && r[id] == s[id - 1]
  {
    if id == 0 then s else Swap(s, id, id - 1)
  }

  /** `move_down(id)` on one of the lockstep lists, at the unsigned position
      `id`: the entry changes places with the one after it; the last entry,
      and any position past it, leave the list as it is. */
  function MovedDown<T>(s: seq<T>, id: nat): (r: seq<T>)
    ensures |r| == |s| && multiset(r) == multiset(s)
    ensures id + 1 < |s| ==> r[id + 1] == s[id] && r[id] == s[id + 1]
    ensures id + 1 >= |s| ==> r == s
  {
    if id + 1 >= |s| then s else Swap(s, id, id + 1)
  }

  /** The conversion `uint32_t(id)` of a 32-bit signed id. */
  function Unsigned32(id: int): (u: nat)
    requires -0x8000_0000 <= id < 0x8000_0000
    ensures u < 0x1_0000_0000
    ensures 0 <= id ==> u == id
    ensures id < 0 ==> u == id + 0x1_0000_0000
  {
    id % 0x1_0000_0000
  }

  /** A negative id converts to an unsigned position of at least 2^31, so
      with at most 2^31 subjects `move_down` leaves the list unchanged. */
  lemma {:induction false} MoveDownNegative<T>(s: seq<T>, id: int)
    requires -0x8000_0000 <= id < 0 && |s| <= 0x8000_0000
    ensures MovedDown(s, Unsigned32(id)) == s
  {
  }

  /** Moving a subject down and then moving it back up restores the order. */
  lemma {:induction false} MoveDownUp<T>(s: seq<T>, i: nat)
    requires 1 <= i < |s|
    ensures MovedUp(MovedDown(s, i - 1), i) == s
  {
    assert MovedDown(s, i - 1) == Swap(s, i - 1, i);
    SwapBack(s, i - 1, i);
  }

  /** Moving a subject up and then moving it back down restores the order. */
  lemma {:induction false} MoveUpDown<T>(s: seq<T>, i: nat)
    requires 1 <= i < |s|
    ensures MovedDown(MovedUp(s, i), i - 1) == s
  {
    assert MovedUp(s, i) == Swap(s, i, i - 1);
    SwapBack(s, i, i - 1);
  }

  lemma {:induction false} SwapBack<T>(s: seq<T>, i: nat, j: nat)
    requires i < |s| && j < |s|
    ensures Swap(Swap(s, i, j), j, i) == s
  {
    var e := Swap(Swap(s, i, j), j, i);
    assert forall k :: 0 <= k < |s| ==> e[k] == s[k];
  }

  // ------------------------------------------------------------ voxel index maps

  /** The voxels with a non-zero first anisotropy value. */
  function NonZero(fa: seq<real>): (m: seq<bool>)
    ensures |m| == |fa|
  {
    seq(|fa|, v requires 0 <= v < |fa| => fa[v] != 0.0)
  }

  /** `std::vector::resize`: truncate, or pad with zeros. */
  function Resized(s: seq<nat>, n: nat): (r: seq<nat>)
    ensures |r| == n && forall k :: 0 <= k < n && k < |s| ==> r[k] == s[k]
  {
    if n <= |s| then s[..n] else s + seq(n - |s|, _ => 0)
  }

  /** `vi2si` after `calculate_si2vi`: each voxel with a non-zero value maps to
      its place in `si2vi` (after the `offset` entries already there); every
      other voxel keeps its resized old entry. */
  function VoxelToSubject(old_vi2si: seq<nat>, offset: nat, fa: seq<real>): (r: seq<nat>)
    ensures |r| == |fa|
  {
    seq(|fa|, v requires 0 <= v < |fa| =>
      if fa[v] != 0.0 then offset + |Indices(NonZero(fa)[..v])| else Resized(old_vi2si, |fa|)[v])
  }

  /** The ascending list of the first `m` positions of `keep` that are set
      is a prefix of the whole list. */
  lemma {:induction false} IndicesPrefix(keep: seq<bool>, m: nat)
    requires m <= |keep|
    ensures Indices(keep[..m]) <= Indices(keep)
    decreases |keep|
  {
    if m < |keep| {
      var init := keep[..|keep| - 1];
      assert init[..m] == keep[..m];
      IndicesPrefix(init, m);
    } else {
      assert keep[..m] == keep;
    }
  }

  /** Entry `k` of the ascending list is the voxel `v` exactly when `k` voxels
      before `v` are listed. */
  lemma {:induction false} IndicesRank(keep: seq<bool>, k: nat)
    requires k < |Indices(keep)|
    ensures var v := Indices(keep)[k];
            v < |keep| && keep[v] && |Indices(keep[..v])| == k
  {
    var ix := Indices(keep);
    var v := ix[k];
    assert v in ix;
    var pre := Indices(keep[..v]);
    assert keep[..v + 1][..v] == keep[..v];
    assert Indices(keep[..v + 1]) == pre + [v];
    IndicesPrefix(keep, v + 1);
    assert ix[|pre|] == v;
    IncreasingDistinct(ix, |pre|, k);
  }

  /** The two maps are inverse: the voxel listed at place `offset + k` of
      `si2vi` maps back to `offset + k`. */
  lemma {:induction false} VoxelToSubjectInverse(old_vi2si: seq<nat>, offset: nat, fa: seq<real>, k: nat)
    requires k < |Indices(NonZero(fa))|
    ensures var v := Indices(NonZero(fa))[k];
            v < |fa| && fa[v] != 0.0 && VoxelToSubject(old_vi2si, offset, fa)[v] == offset + k
  {
    IndicesRank(NonZero(fa), k);
  }

  lemma {:induction false} VoxelAt(old_vi2si: seq<nat>, offset: nat, fa: seq<real>, v: nat)
    requires v < |fa|
    ensures VoxelToSubject(old_vi2si, offset, fa)[v] ==
              if fa[v] != 0.0 then offset + |Indices(NonZero(fa)[..v])| else Resized(old_vi2si, |fa|)[v]
  {
  }

  /** Values held per subject: `numFiber` for each listed voxel. */
  function VectorLength(numFiber: nat, voxels: nat): nat
  {
    numFiber * voxels
  }

  /** The loop of `calculate_si2vi`: voxel after voxel, a voxel with a
      non-zero value is given the next place in `si2vi`. */
  method ListVoxels(si2vi0: seq<nat>, vi2si0: seq<nat>, fa: seq<real>) returns (si2vi: seq<nat>, vi2si: seq<nat>)
    ensures si2vi == si2vi0 + Indices(NonZero(fa))
    ensures vi2si == VoxelToSubject(vi2si0, |si2vi0|, fa)
  {
    ghost var keep := NonZero(fa);
    ghost var spec := VoxelToSubject(vi2si0, |si2vi0|, fa);
    si2vi, vi2si := si2vi0, Resized(vi2si0, |fa|);
    ghost var base := vi2si;
    var index: nat := 0;
    while index < |fa|
      invariant index <= |fa| && |vi2si| == |fa|
      invariant si2vi == si2vi0 + Indices(keep[..index])
      invariant forall v :: 0 <= v < index ==> vi2si[v] == spec[v]
      invariant forall v :: index <= v < |fa| ==> vi2si[v] == base[v]
    {
      assert spec[index] == if fa[index] != 0.0 then |si2vi| else base[index] by {
        VoxelAt(vi2si0, |si2vi0|, fa, index);
      }
      ghost var before := vi2si;
      if fa[index] != 0.0 {
        vi2si := vi2si[index := |si2vi|];
        si2vi := si2vi + [index];
      }
      FilledUpTo(before, vi2si, spec, base, index);
      assert si2vi == si2vi0 + Indices(keep[..index + 1]) by {
        IndicesSnoc(keep, index);
      }
      index := index + 1;
    }
    assert keep[..index] == keep;
    assert vi2si == spec;
  }

  // ------------------------------------------------------------ counting group members

  lemma {:induction false} CountTrueSnoc(s: seq<bool>, i: nat)
    requires i < |s|
    ensures CountTrue(s[..i + 1]) == CountTrue(s[..i]) + (if s[i] then 1 else 0)
  {
    if i > 0 {
      assert s[..i + 1][1..] == s[1..][..i];
      assert s[..i][1..] == s[1..][..i - 1];
      CountTrueSnoc(s[1..], i - 1);
    }
  }

  /** The members of the second group never outnumber the subjects. */
  lemma {:induction false} CountTrueBound(s: seq<bool>)
    ensures CountTrue(s) <= |s|
  {
    if s != [] {
      CountTrueBound(s[1..]);
    }
  }

  /** The loop of `pre_process` that counts the subjects labelled as the second group. */
  method CountLabelled(labels: seq<bool>) returns (count: nat)
    ensures count == CountTrue(labels) && count <= |labels|
  {
    count := 0;
    var i := 0;
    while i < |labels|
      invariant i <= |labels| && count == CountTrue(labels[..i])
    {
      CountTrueSnoc(labels, i);
      if labels[i] {
        count := count + 1;
      }
      i := i + 1;
    }
    assert labels[..i] == labels;
    CountTrueBound(labels);
  }

  // ------------------------------------------------------------ selecting columns of X

  /** The rows of X, each cut down to the columns `loc`. */
  function SelectedRows(x: seq<Cell>, w: nat, loc: seq<nat>): (rs: seq<seq<Cell>>)
    requires w > 0 && forall j :: 0 <= j < |loc| ==> loc[j] < w
    ensures Uniform(rs, |loc|) && |rs| == |Rows(x, w)|
  {
    seq(|Rows(x, w)|, i requires 0 <= i < |Rows(x, w)| => Select(Rows(x, w)[i], loc))
  }

  /** X with only the columns flagged in `sel` of each whole row of width `w`,
      row after row. */
  function Projected(x: seq<Cell>, w: nat, sel: seq<bool>): seq<Cell>
    requires w > 0 && |sel| <= w
  {
    IndicesBelow(sel);
    Concat(SelectedRows(x, w, Indices(sel)))
  }

  /** The projection has one row per whole row of X, and each of them holds the
      chosen columns of that row, in the order chosen. */
  lemma {:induction false} ProjectedRows(x: seq<Cell>, w: nat, sel: seq<bool>)
    requires w > 0 && |sel| <= w && Indices(sel) != []
    ensures var loc := Indices(sel);
            |Rows(Projected(x, w, sel), |loc|)| == |Rows(x, w)| &&
            forall i, j :: 0 <= i < |Rows(x, w)| && 0 <= j < |loc| ==>
              loc[j] < w && Rows(Projected(x, w, sel), |loc|)[i][j] == Rows(x, w)[i][loc[j]]
  {
    IndicesBelow(sel);
    RowsOfConcat(SelectedRows(x, w, Indices(sel)), |Indices(sel)|);
  }

  /** The ascending list of selected column numbers (`feature_map`). */
  method SelectedColumns(sel: seq<bool>) returns (loc: seq<nat>)
    ensures loc == Indices(sel)
  {
    loc := [];
    var i := 0;
    while i < |sel|
      invariant i <= |sel| && loc == Indices(sel[..i])
    {
      IndicesSnoc(sel, i);
      loc := loc + (if sel[i] then [i] else []);
      i := i + 1;
    }
    assert sel[..|sel|] == sel;
  }

  /** One subject's selected entries appended to the new X. */
  method AppendSelected(y: seq<Cell>, x: seq<Cell>, w: nat, i: nat, loc: seq<nat>) returns (z: seq<Cell>)
    requires w > 0 && i < |Rows(x, w)| && forall j :: 0 <= j < |loc| ==> loc[j] < w
    ensures z == y + Select(Rows(x, w)[i], loc)
  {
    RowsAt(x, w, i);
    ghost var row := Select(Rows(x, w)[i], loc);
    z := y;
    var j := 0;
    while j < |loc|
      invariant j <= |loc| && z == y + row[..j]
    {
      MulMono(i, i + 1, w);
      assert row[..j + 1] == row[..j] + [x[i * w + loc[j]]];
      z := z + [x[i * w + loc[j]]];
      j := j + 1;
    }
    assert row[..j] == row;
  }

  /** The copying loop of `select_variables`. */
  method ProjectColumns(x: seq<Cell>, w: nat, loc: seq<nat>) returns (y: seq<Cell>)
    requires w > 0 && forall j :: 0 <= j < |loc| ==> loc[j] < w
    ensures y == Concat(SelectedRows(x, w, loc))
  {
    RowsCount(x, w);
    var subjects := |x| / w;
    ghost var rs := SelectedRows(x, w, loc);
    y := [];
    var i := 0;
    while i < subjects
      invariant i <= subjects && y == Concat(rs[..i])
    {
      assert rs[..i + 1][..i] == rs[..i];
      y := AppendSelected(y, x, w, i, loc);
      i := i + 1;
    }
    assert rs[..i] == rs;
  }

  // ------------------------------------------------------------ the database

  /** The selection flags of `n` new feature columns: all selected. */
  function Selected(n: nat): (r: seq<bool>)
    ensures |r| == n && forall i :: 0 <= i < n ==> r[i]
  {
    seq(n, _ => true)
  }

  /** The loop of `add_db` over the other database's subjects: each
      vector is pushed in turn. */
  method PushEach<T>(xs: seq<T>, more: seq<T>) returns (r: seq<T>)
    ensures r == xs + more
  {
    r := xs;
    var index := 0;
    while index < |more|
      invariant index <= |more| && r == xs + more[..index]
    {
      assert more[..index + 1] == more[..index] + [more[index]];
      r := r + [more[index]];
      index := index + 1;
    }
    assert more[..index] == more;
  }

  class Db {
    var subjectNames: seq<string>
    var r2: seq<real>
    /** Each subject's vector of values (`subject_qa`, held here by value). */
    var subjectQa: seq<seq<real>>
    var numSubjects: nat
    var modified: bool
    var demo: string
    var titles: seq<string>
    var items: seq<string>
    var featureLocation: seq<nat>
    var featureTitles: seq<string>
    var featureSelected: seq<bool>
    var x: seq<Cell>
    var error: Option<DemoError>
    var si2vi: seq<nat>
    var vi2si: seq<nat>
    var subjectQaLength: nat

    /** The per-subject lists run in lockstep with the subject count. */
    ghost predicate Valid()
      reads this
    {
      |subjectNames| == numSubjects && |r2| == numSubjects && |subjectQa| == numSubjects
    }

    /** A database whose subjects have been loaded, with its demographic text. */
    constructor(names: seq<string>, r2s: seq<real>, qa: seq<seq<real>>, text: string)
      requires |names| == |r2s| == |qa|
      ensures Valid()
      ensures subjectNames == names && r2 == r2s && subjectQa == qa && numSubjects == |names|
      ensures !modified && demo == text && titles == [] && items == [] && featureLocation == []
      ensures featureTitles == [] && featureSelected == [] && x == [] && error == None
      ensures si2vi == [] && vi2si == [] && subjectQaLength == 0
    {
      subjectNames, r2, subjectQa, numSubjects := names, r2s, qa, |names|;
      modified, demo, titles, items := false, text, [], [];
      featureLocation, featureTitles, featureSelected, x, error := [], [], [], [], None;
      si2vi, vi2si, subjectQaLength := [], [], 0;
    }

    /** `remove_subject`: an index past the end changes nothing; otherwise the
        subject leaves all three lists at once, and the database is marked. */
    method RemoveSubject(index: nat)
      requires Valid()
      modifies this
      ensures Valid()
      ensures index >= old(numSubjects) ==>
                subjectNames == old(subjectNames) && r2 == old(r2) && subjectQa == old(subjectQa) &&
                numSubjects == old(numSubjects) && modified == old(modified)
      ensures index < old(numSubjects) ==>
                subjectNames == RemoveAt(old(subjectNames), index) && r2 == RemoveAt(old(r2), index) &&
                subjectQa == RemoveAt(old(subjectQa), index) && numSubjects == old(numSubjects) - 1 && modified
      ensures demo == old(demo) && titles == old(titles) && items == old(items) && x == old(x)
      ensures featureLocation == old(featureLocation) && featureTitles == old(featureTitles)
      ensures featureSelected == old(featureSelected) && error == old(error)
      ensures si2vi == old(si2vi) && vi2si == old(vi2si) && subjectQaLength == old(subjectQaLength)
    {
      if index >= |subjectQa| {
        return;
      }
      subjectQa := RemoveAt(subjectQa, index);
      subjectNames := RemoveAt(subjectNames, index);
      r2 := RemoveAt(r2, index);
      numSubjects := numSubjects - 1;
      modified := true;
    }

    /** `move_up`: the subject changes places with the one before it in all
        three lists. */
    method MoveUp(id: int)
      requires Valid() && 0 <= id < numSubjects
      modifies this
      ensures Valid()
      ensures subjectNames == MovedUp(old(subjectNames), id) && r2 == MovedUp(old(r2), id)
      ensures subjectQa == MovedUp(old(subjectQa), id)
      ensures numSubjects == old(numSubjects) && modified == old(modified)
      ensures demo == old(demo) && titles == old(titles) && items == old(items) && x == old(x)
      ensures featureLocation == old(featureLocation) && featureTitles == old(featureTitles)
      ensures featureSelected == old(featureSelected) && error == old(error)
      ensures si2vi == old(si2vi) && vi2si == old(vi2si) && subjectQaLength == old(subjectQaLength)
    {
      if id == 0 {
        return;
      }
      subjectNames := Swap(subjectNames, id, id - 1);
      r2 := Swap(r2, id, id - 1);
      subjectQa := Swap(subjectQa, id, id - 1);
    }

    /** `move_down`: the subject changes places with the one after it in all
        three lists; the id is converted to unsigned and compared with
        `num_subjects - 1` in unsigned arithmetic, so the last subject, every
        larger id and (with at most 2^31 subjects) every negative id leave
        the lists as they are. With no subject, `num_subjects - 1` wraps to
        the largest unsigned value and only the id -1 reaches it; any other
        id then indexes the empty lists, which the source does not guard. */
    method MoveDown(id: int)
      requires Valid() && -0x8000_0000 <= id < 0x8000_0000 && numSubjects < 0x1_0000_0000
      requires numSubjects > 0 || id == -1
      modifies this
      ensures Valid()
      ensures var u := Unsigned32(id);
        subjectNames == MovedDown(old(subjectNames), u) && r2 == MovedDown(old(r2), u) &&
        subjectQa == MovedDown(old(subjectQa), u)
      ensures numSubjects == old(numSubjects) && modified == old(modified)
      ensures demo == old(demo) && titles == old(titles) && items == old(items) && x == old(x)
      ensures featureLocation == old(featureLocation) && featureTitles == old(featureTitles)
      ensures featureSelected == old(featureSelected) && error == old(error)
      ensures si2vi == old(si2vi) && vi2si == old(vi2si) && subjectQaLength == old(subjectQaLength)
    {
      var u := Unsigned32(id);
      var last := if numSubjects == 0 then 0xFFFF_FFFF else numSubjects - 1;
      if u >= last {
        return;
      }
      subjectNames, r2, subjectQa := Swap(subjectNames, u, u + 1), Swap(r2, u, u + 1), Swap(subjectQa, u, u + 1);
    }

    /** `add_db`: an incompatible database is refused and nothing changes;
        otherwise its subjects are appended after ours, in all three lists. */
    method AddDb(rhs: Db, compatible: bool) returns (ok: bool)
      requires rhs != this && Valid() && rhs.Valid()
      modifies this
      ensures Valid() && ok == compatible
      ensures subjectNames == old(subjectNames) + (if ok then rhs.subjectNames else [])
      ensures r2 == old(r2) + (if ok then rhs.r2 else [])
      ensures subjectQa == old(subjectQa) + (if ok then rhs.subjectQa else [])
      ensures numSubjects == old(numSubjects) + (if ok then rhs.numSubjects else 0)
      ensures modified == (ok || old(modified))
      ensures unchanged(this`demo, this`titles, this`items, this`x, this`featureLocation, this`featureTitles,
                        this`featureSelected, this`error, this`si2vi, this`vi2si, this`subjectQaLength)
    {
      if !compatible {
        return false;
      }
      r2 := r2 + rhs.r2;
      subjectNames := subjectNames + rhs.subjectNames;
      subjectQa := PushEach(subjectQa, rhs.subjectQa);
      numSubjects := numSubjects + rhs.numSubjects;
      modified := true;
      return true;
    }

    /** `calculate_si2vi`: the voxels whose first anisotropy value `fa` is
        non-zero are appended to `si2vi` in ascending order, `vi2si` is resized
        to the voxel count and maps each of them to its place in `si2vi`, and
        the per-subject vector length becomes `numFiber` values per listed voxel. */
    method CalculateSi2vi(fa: seq<real>, numFiber: nat)
      modifies this
      ensures si2vi == old(si2vi) + Indices(NonZero(fa))
      ensures vi2si == VoxelToSubject(old(vi2si), |old(si2vi)|, fa)
      ensures subjectQaLength == numFiber * |si2vi|
      ensures unchanged(this`subjectNames, this`r2, this`subjectQa, this`numSubjects, this`modified,
                        this`demo, this`titles, this`items, this`x, this`featureLocation,
                        this`featureTitles, this`featureSelected, this`error)
    {
      var s, m := ListVoxels(si2vi, vi2si, fa);
      si2vi, vi2si, subjectQaLength := s, m, VectorLength(numFiber, |s|);
    }

    /** `parse_demo`: the demographic text is read into titles, cells, feature
        columns and X. On failure the message is recorded, the text is left
        moved out (empty), the titles are cleared and `items` holds the fields
        read so far; the feature lists and X keep their previous values. On
        success the text is put back, a `true` is appended to
        `featureSelected` for every feature column, and the message is kept. */
    method ParseDemo(isNumber: string -> bool, value: string -> real) returns (ok: bool)
      requires Valid()
      modifies this
      ensures Valid()
      ensures var p := Parse(old(demo), old(subjectNames), old(numSubjects), isNumber, value);
              ok == p.Ok? &&
              (p.Ok? ==> demo == old(demo) && titles == p.value.titles && items == Concat(p.value.data) &&
                         featureLocation == p.value.features && featureTitles == p.value.featureTitles &&
                         featureSelected == old(featureSelected) + Selected(|p.value.features|) &&
                         x == p.value.x && error == old(error)) &&
              (p.Err? ==> demo == [] && titles == [] && items == p.error.items && error == Some(p.error.error) &&
                          featureLocation == old(featureLocation) && featureTitles == old(featureTitles) &&
                          featureSelected == old(featureSelected) && x == old(x))
      ensures subjectNames == old(subjectNames) && r2 == old(r2) && subjectQa == old(subjectQa)
      ensures numSubjects == old(numSubjects) && modified == old(modified)
      ensures si2vi == old(si2vi) && vi2si == old(vi2si) && subjectQaLength == old(subjectQaLength)
    {
      var saved := demo;
      var res := ParseDemoText(saved, subjectNames, numSubjects, isNumber, value);
      ok := Apply(saved, res);
    }

    /** The assignments that end `parse_demo`, for the outcome `res` of reading
        the text `saved`. */
    method Apply(saved: string, res: Result<Demo, Failure>) returns (ok: bool)
      requires Valid()
      modifies this`demo, this`titles, this`items, this`error, this`featureLocation,
               this`featureTitles, this`featureSelected, this`x
      ensures Valid() && ok == res.Ok?
      ensures demo == (if res.Ok? then saved else [])
      ensures titles == (if res.Ok? then res.value.titles else [])
      ensures items == (if res.Ok? then Concat(res.value.data) else res.error.items)
      ensures error == (if res.Ok? then old(error) else Some(res.error.error))
      ensures featureLocation == (if res.Ok? then res.value.features else old(featureLocation))
      ensures featureTitles == (if res.Ok? then res.value.featureTitles else old(featureTitles))
      ensures featureSelected == old(featureSelected) + (if res.Ok? then Selected(|res.value.features|) else [])
      ensures x == (if res.Ok? then res.value.x else old(x))
    {
      if res.Err? {
        Reject(res.error);
        return false;
      }
      Accept(saved, res.value);
      return true;
    }

    /** A text that does not read: the demographics are cleared, keeping the error. */
    method Reject(f: Failure)
      requires Valid()
      modifies this`demo, this`titles, this`items, this`error
      ensures Valid()
      ensures demo == [] && titles == [] && items == f.items && error == Some(f.error)
    {
      demo, titles, items, error := [], [], f.items, Some(f.error);
    }

    /** A text that reads: its titles, items, features and X replace the old ones,
        and every new feature starts selected. */
    method Accept(saved: string, d: Demo)
      requires Valid()
      modifies this`demo, this`titles, this`items, this`featureLocation,
               this`featureTitles, this`featureSelected, this`x
      ensures Valid()
      ensures demo == saved && titles == d.titles && items == Concat(d.data) && x == d.x
      ensures featureLocation == d.features && featureTitles == d.featureTitles
      ensures featureSelected == old(featureSelected) + Selected(|d.features|)
    {
      var sel := featureSelected + Selected(|d.features|);
      demo, titles, items, x, featureLocation, featureTitles, featureSelected :=
        saved, d.titles, Concat(d.data), d.x, d.features, d.featureTitles, sel;
    }
  }

  // ------------------------------------------------------------ the statistical model

  class StatModel {
    /** 0: group comparison, 1: multiple regression, 2 and 3: longitudinal change. */
    var modelType: nat
    var x: seq<Cell>
    var featureCount: nat
    /** Non-zero (`true`) for the subjects of the second group. */
    var labels: seq<bool>
    var subjectIndex: seq<nat>
    var group1Count: nat
    var group2Count: nat

    /** X holds one row of `featureCount` entries per subject, or nothing; the
        labels are one per subject, or absent. */
    ghost predicate Consistent()
      reads this
    {
      (x == [] || |x| == |subjectIndex| * featureCount) &&
      (labels == [] || |labels| == |subjectIndex|)
    }

    constructor()
      ensures modelType == 0 && x == [] && featureCount == 0 && labels == [] && subjectIndex == []
      ensures group1Count == 0 && group2Count == 0 && Consistent()
    {
      modelType, x, featureCount, labels, subjectIndex := 0, [], 0, [], [];
      group1Count, group2Count := 0, 0;
    }

    /** `read_demo`: every subject of the database, X as the database holds it,
        and one column per feature plus the intercept. */
    method ReadDemo(db: Db)
      modifies this
      ensures |subjectIndex| == db.numSubjects && forall k :: 0 <= k < |subjectIndex| ==> subjectIndex[k] == k
      ensures x == db.x && featureCount == |db.featureLocation| + 1
      ensures modelType == old(modelType) && labels == old(labels)
      ensures group1Count == old(group1Count) && group2Count == old(group2Count)
    {
      var index: seq<nat> := [];
      var i := 0;
      while i < db.numSubjects
        invariant i <= db.numSubjects && |index| == i && forall k :: 0 <= k < i ==> index[k] == k
      {
        index := index + [i];
        i := i + 1;
      }
      subjectIndex := index;
      x := db.x;
      featureCount := |db.featureLocation| + 1;
    }

    /** `select_variables`: X keeps, in every whole row, exactly the columns
        whose flag in `sel` is set, in increasing column order, and the row
        width becomes the number of flags set. */
    method SelectVariables(sel: seq<bool>)
      requires featureCount > 0 && |sel| <= featureCount
      modifies this
      ensures featureCount == |Indices(sel)|
      ensures x == Projected(old(x), old(featureCount), sel)
      ensures old(Consistent()) ==> Consistent()
      ensures modelType == old(modelType) && labels == old(labels) && subjectIndex == old(subjectIndex)
      ensures group1Count == old(group1Count) && group2Count == old(group2Count)
    {
      var x0, w := x, featureCount;
      var loc := SelectedColumns(sel);
      IndicesBelow(sel);
      var newX := ProjectColumns(x0, w, loc);
      ConcatSize(SelectedRows(x0, w, loc), |loc|);
      RowsCount(x0, w);
      if |x0| == |subjectIndex| * w {
        DivUnique(|x0|, w, |subjectIndex|, 0);
      }
      featureCount := |loc|;
      x := newX;
    }

    /** `stat_model::remove_subject`: an index past the subject list is an
        error (`ok` false, nothing changes); otherwise the subject's labels (when
        there are labels), its row of X (when there is an X) and its index go. */
    method RemoveSubject(index: nat) returns (ok: bool)
      requires Consistent()
      modifies this
      ensures Consistent() && ok == (index < |old(subjectIndex)|)
      ensures !ok ==> x == old(x) && labels == old(labels) && subjectIndex == old(subjectIndex)
      ensures ok ==> subjectIndex == RemoveAt(old(subjectIndex), index) &&
                     labels == (if old(labels) == [] then [] else RemoveAt(old(labels), index)) &&
                     x == (if old(x) == [] then [] else WithoutRow(old(x), featureCount, index))
      ensures featureCount == old(featureCount) && modelType == old(modelType)
      ensures group1Count == old(group1Count) && group2Count == old(group2Count)
    {
      if index >= |subjectIndex| {
        return false;
      }
      if labels != [] {
        labels := RemoveAt(labels, index);
      }
      if x != [] {
        MulMono(index + 1, |subjectIndex|, featureCount);
        MulMono(index, index + 1, featureCount);
        assert (index + 1) * featureCount == index * featureCount + featureCount;
        assert |subjectIndex| * featureCount == (|subjectIndex| - 1) * featureCount + featureCount;
        x := WithoutRow(x, featureCount, index);
      }
      subjectIndex := RemoveAt(subjectIndex, index);
      return true;
    }

    /** `pre_process` for the group comparison and the longitudinal models: a
        group comparison needs an X and more than three subjects in each group,
        and records the group sizes; the longitudinal models need nothing. */
    method PreProcess() returns (ok: bool)
      requires modelType != 1
      modifies this
      ensures modelType == 0 && old(x) != [] ==> group2Count == CountTrue(labels) &&
                                                 group1Count == |labels| - CountTrue(labels) &&
                                                 group1Count + group2Count == |labels| &&
                                                 ok == (group2Count > 3 && group1Count > 3)
      ensures modelType == 0 && old(x) == [] ==> !ok && group1Count == old(group1Count) && group2Count == old(group2Count)
      ensures modelType != 0 ==> ok == (modelType == 2 || modelType == 3) &&
                                 group1Count == old(group1Count) && group2Count == old(group2Count)
      ensures modelType == old(modelType) && x == old(x) && featureCount == old(featureCount)
      ensures labels == old(labels) && subjectIndex == old(subjectIndex)
    {
      if modelType == 0 {
        if x == [] {
          return false;
        }
        group2Count := CountLabelled(labels);
        group1Count := |labels| - group2Count;
        return group2Count > 3 && group1Count > 3;
      }
      return modelType == 2 || modelType == 3;
    }
  }

  /** X without the `w` entries of row `i` (when that row is there). */
  function WithoutRow(x: seq<Cell>, w: nat, i: nat): seq<Cell>
  {
    if (i + 1) * w <= |x| then x[..i * w] + x[(i + 1) * w..] else x
  }

  /** Removing a subject from the model removes exactly its row of X and leaves
      the other rows in order. */
  lemma {:induction false} RemovedRow(x: seq<Cell>, w: nat, n: nat, index: nat)
    requires w > 0 && |x| == n * w && index < n
    ensures index < |Rows(x, w)|
    ensures Rows(WithoutRow(x, w, index), w) == RemoveAt(Rows(x, w), index)
  {
    MulMono(index + 1, n, w);
    assert (index + 1) * w == index * w + w;
    RemoveRow(x, w, index, index * w);
  }
}
