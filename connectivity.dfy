/** Region-to-region connectivity counting: which atlas regions each
    streamline passes through or ends in, the atlas membership map built
    from regions of interest, and the "count" connectivity matrix with its
    threshold. Coordinates are integers here (the rounding of the float
    coordinates to voxels happens before). */
module Connectivity {
  import opened Common

  // ---------------------------------------------------------------------
  // grid geometry
  // ---------------------------------------------------------------------

  /** The shape of the voxel grid. */
  datatype Shape = Shape(w: nat, h: nat, d: nat)

  /** A voxel coordinate, which may lie outside the grid. */
  datatype Voxel = Voxel(x: int, y: int, z: int)

  function Size(g: Shape): nat
  {
    g.w * g.h * g.d
  }

  /** `is_valid`: the voxel lies inside the grid. */
  predicate IsValid(g: Shape, v: Voxel)
  {
    0 <= v.x < g.w && 0 <= v.y < g.h && 0 <= v.z < g.d
  }

  /** `pixel_index<3>::index()`: x fastest, then y, then z. */
  function IndexOf(g: Shape, v: Voxel): (i: nat)
    requires IsValid(g, v)
    ensures i < Size(g)
  {
    IndexBound(g, v);
    v.x + g.w * (v.y + g.h * v.z)
  }

  lemma {:induction false} IndexBound(g: Shape, v: Voxel)
    requires IsValid(g, v)
    ensures v.x + g.w * (v.y + g.h * v.z) < g.w * g.h * g.d
  {
    var q := v.y + g.h * v.z;
    MulLe(g.h, v.z, g.d - 1);
    assert g.h * (g.d - 1) == g.h * g.d - g.h;
    assert q + 1 <= g.h * g.d;
    MulLe(g.w, q + 1, g.h * g.d);
    assert g.w * (q + 1) == g.w * q + g.w;
    assert g.w * (g.h * g.d) == g.w * g.h * g.d;
  }

  /** Multiplication is monotone (kept apart: the solver proves it only
      without the rest of the context). */
  lemma {:induction false} MulLe(a: nat, b: nat, c: nat)
    requires b <= c
    ensures a * b <= a * c
  {
  }

  /** The `k`-th point of a streamline stored as x,y,z triples. */
  function PointAt(tr: seq<int>, k: nat): Voxel
    requires 3 * k + 3 <= |tr|
  {
    Voxel(tr[3 * k], tr[3 * k + 1], tr[3 * k + 2])
  }

  /** Every region id stored in the map is below `n`. */
  predicate IdsBelow(m: seq<seq<nat>>, n: nat)
  {
    forall v, i :: 0 <= v < |m| && 0 <= i < |m[v]| ==> m[v][i] < n
  }

  // ---------------------------------------------------------------------
  // get_passing_list, get_end_list
  // ---------------------------------------------------------------------

  /** Region `r` is listed at one of the first `k` points of the
      streamline that lie inside the grid. */
  predicate Visits(g: Shape, rm: seq<seq<nat>>, tr: seq<int>, k: nat, r: int)
    requires |rm| == Size(g) && 3 * k <= |tr|
  {
    k > 0 &&
      (Visits(g, rm, tr, k - 1, r) ||
       (IsValid(g, PointAt(tr, k - 1)) && r in rm[IndexOf(g, PointAt(tr, k - 1))]))
  }

  lemma {:induction false} VisitsIff(g: Shape, rm: seq<seq<nat>>, tr: seq<int>, k: nat, r: int)
    requires |rm| == Size(g) && 3 * k <= |tr|
    ensures Visits(g, rm, tr, k, r) <==>
            exists p :: 0 <= p < k && IsValid(g, PointAt(tr, p)) && r in rm[IndexOf(g, PointAt(tr, p))]
  {
    if k > 0 {
      VisitsIff(g, rm, tr, k - 1, r);
    }
  }

  /** The regions a streamline of at least two points passes through, in
      ascending order; shorter streamlines pass through none. */
  function PassingList(g: Shape, rm: seq<seq<nat>>, rc: nat, tr: seq<int>): seq<nat>
    requires |rm| == Size(g) && |tr| % 3 == 0
  {
    if |tr| < 6 then [] else Indices(seq(rc, r => Visits(g, rm, tr, |tr| / 3, r)))
  }

  /** A passing list is the ascending list of exactly the regions below
      `rc` met at some in-grid point; points outside the grid count for
      nothing. */
  lemma {:induction false} PassingListFacts(g: Shape, rm: seq<seq<nat>>, rc: nat, tr: seq<int>, r: nat)
    requires |rm| == Size(g) && |tr| % 3 == 0
    ensures Increasing(PassingList(g, rm, rc, tr))
    ensures r in PassingList(g, rm, rc, tr) <==>
            6 <= |tr| && r < rc &&
            exists p :: 0 <= p < |tr| / 3 && IsValid(g, PointAt(tr, p)) && r in rm[IndexOf(g, PointAt(tr, p))]
  {
    VisitsIff(g, rm, tr, |tr| / 3, r);
  }

  /** The region lists of both end points; empty when the streamline has
      fewer than two points or either end lies outside the grid. */
  function EndList(g: Shape, rm: seq<seq<nat>>, tr: seq<int>): (seq<nat>, seq<nat>)
    requires |rm| == Size(g)
  {
    if |tr| < 6 then ([], [])
    else
      var e1, e2 := Voxel(tr[0], tr[1], tr[2]), Voxel(tr[|tr| - 3], tr[|tr| - 2], tr[|tr| - 1]);
      if !IsValid(g, e1) || !IsValid(g, e2) then ([], [])
      else (rm[IndexOf(g, e1)], rm[IndexOf(g, e2)])
  }

  /** The passing list of every streamline. */
  function PassingLists(g: Shape, rm: seq<seq<nat>>, rc: nat, tracts: seq<seq<int>>): seq<seq<nat>>
    requires |rm| == Size(g) && forall t :: 0 <= t < |tracts| ==> |tracts[t]| % 3 == 0
  {
    seq(|tracts|, t requires 0 <= t < |tracts| => PassingList(g, rm, rc, tracts[t]))
  }

  /** The end lists of every streamline. */
  function EndLists(g: Shape, rm: seq<seq<nat>>, tracts: seq<seq<int>>): (seq<seq<nat>>, seq<seq<nat>>)
    requires |rm| == Size(g)
  {
    (seq(|tracts|, t requires 0 <= t < |tracts| => EndList(g, rm, tracts[t]).0),
     seq(|tracts|, t requires 0 <= t < |tracts| => EndList(g, rm, tracts[t]).1))
  }

  /** The two region lists per streamline that feed the matrix: passing
      lists (the same list twice) or end lists. */
  function Lists(g: Shape, rm: seq<seq<nat>>, rc: nat, tracts: seq<seq<int>>, useEndOnly: bool)
    : (seq<seq<nat>>, seq<seq<nat>>)
    requires |rm| == Size(g) && forall t :: 0 <= t < |tracts| ==> |tracts[t]| % 3 == 0
  {
    if useEndOnly then EndLists(g, rm, tracts)
    else (PassingLists(g, rm, rc, tracts), PassingLists(g, rm, rc, tracts))
  }

  /** Sets the flag of every listed region. */
  method Mark(has: seq<bool>, ids: seq<nat>) returns (r: seq<bool>)
    requires forall j :: 0 <= j < |ids| ==> ids[j] < |has|
    ensures |r| == |has|
    ensures forall i :: 0 <= i < |has| ==> (r[i] <==> has[i] || i in ids)
  {
    r := has;
    var j := 0;
    while j < |ids|
      invariant j <= |ids| && |r| == |has|
      invariant forall i :: 0 <= i < |has| ==> (r[i] <==> has[i] || i in ids[..j])
    {
      assert ids[..j + 1] == ids[..j] + [ids[j]];
      r := r[ids[j] := true];
      j := j + 1;
    }
    assert ids[..j] == ids;
  }

  /** The body of `get_passing_list` for one streamline. */
  method PassingOf(g: Shape, rm: seq<seq<nat>>, rc: nat, tr: seq<int>) returns (list: seq<nat>)
    requires |rm| == Size(g) && IdsBelow(rm, rc) && |tr| % 3 == 0
    ensures list == PassingList(g, rm, rc, tr)
  {
    if |tr| < 6 {
      return [];
    }
    var has := seq(rc, _ => false);
    var k := 0;
    while k < |tr| / 3
      invariant k <= |tr| / 3 && |has| == rc
      invariant forall r :: 0 <= r < rc ==> (has[r] <==> Visits(g, rm, tr, k, r))
    {
      var p := PointAt(tr, k);
      if IsValid(g, p) {
        has := Mark(has, rm[IndexOf(g, p)]);
      }
      k := k + 1;
    }
    list := [];
    var i := 0;
    while i < rc
      invariant i <= rc && list == Indices(has[..i])
    {
      IndicesSnoc(has, i);
      if has[i] {
        list := list + [i];
      }
      i := i + 1;
    }
    assert has[..rc] == seq(rc, r => Visits(g, rm, tr, |tr| / 3, r));
  }

  /** `get_passing_list`: both output lists hold the passing list of every
      streamline. */
  method GetPassingList(g: Shape, rm: seq<seq<nat>>, rc: nat, tracts: seq<seq<int>>)
    returns (l1: seq<seq<nat>>, l2: seq<seq<nat>>)
    requires |rm| == Size(g) && IdsBelow(rm, rc)
    requires forall t :: 0 <= t < |tracts| ==> |tracts[t]| % 3 == 0
    ensures l1 == PassingLists(g, rm, rc, tracts) && l2 == l1
  {
    l1 := [];
    var t := 0;
    while t < |tracts|
      invariant t <= |tracts| && |l1| == t
      invariant forall u :: 0 <= u < t ==> l1[u] == PassingList(g, rm, rc, tracts[u])
    {
      var list := PassingOf(g, rm, rc, tracts[t]);
      l1 := l1 + [list];
      t := t + 1;
    }
    assert l1 == PassingLists(g, rm, rc, tracts);
    l2 := l1;
  }

  /** `get_end_list`. */
  method GetEndList(g: Shape, rm: seq<seq<nat>>, tracts: seq<seq<int>>)
    returns (e1: seq<seq<nat>>, e2: seq<seq<nat>>)
    requires |rm| == Size(g)
    requires forall t :: 0 <= t < |tracts| ==> |tracts[t]| % 3 == 0
    ensures (e1, e2) == EndLists(g, rm, tracts)
  {
    e1, e2 := [], [];
    var t := 0;
    while t < |tracts|
      invariant t <= |tracts| && |e1| == t && |e2| == t
      invariant forall u :: 0 <= u < t ==> (e1[u], e2[u]) == EndList(g, rm, tracts[u])
    {
      var ends := EndList(g, rm, tracts[t]);
      e1, e2 := e1 + [ends.0], e2 + [ends.1];
      t := t + 1;
    }
    assert e1 == EndLists(g, rm, tracts).0 && e2 == EndLists(g, rm, tracts).1;
  }

  /** Every list in the result of `Lists` names regions below `rc`. */
  lemma {:induction false} ListsBelow(g: Shape, rm: seq<seq<nat>>, rc: nat, tracts: seq<seq<int>>, useEndOnly: bool)
    requires |rm| == Size(g) && IdsBelow(rm, rc)
    requires forall t :: 0 <= t < |tracts| ==> |tracts[t]| % 3 == 0
    ensures |Lists(g, rm, rc, tracts, useEndOnly).0| == |tracts|
    ensures |Lists(g, rm, rc, tracts, useEndOnly).1| == |tracts|
    ensures IdsBelow(Lists(g, rm, rc, tracts, useEndOnly).0, rc)
    ensures IdsBelow(Lists(g, rm, rc, tracts, useEndOnly).1, rc)
  {
    var ls := Lists(g, rm, rc, tracts, useEndOnly);
    forall t, i | 0 <= t < |tracts| && 0 <= i < |ls.0[t]|
      ensures ls.0[t][i] < rc
    {
      if !useEndOnly {
        assert ls.0[t][i] in PassingList(g, rm, rc, tracts[t]);
      }
    }
  }

  // ---------------------------------------------------------------------
  // for_each_connectivity
  // ---------------------------------------------------------------------

  /** The two calls made for one pair of regions: both orders, and none
      when the regions are the same. */
  function Emit(a: nat, b: nat): seq<(nat, nat)>
  {
    if a != b then [(a, b), (b, a)] else []
  }

  /** The calls for region `a` of the first list against every region of
      the second list, in order. */
  function RowPairs(a: nat, r2: seq<nat>): seq<(nat, nat)>
  {
    if r2 == [] then [] else RowPairs(a, r2[..|r2| - 1]) + Emit(a, r2[|r2| - 1])
  }

  /** The calls for one streamline. */
  function PairsOf(r1: seq<nat>, r2: seq<nat>): seq<(nat, nat)>
  {
    if r1 == [] then [] else PairsOf(r1[..|r1| - 1], r2) + RowPairs(r1[|r1| - 1], r2)
  }

  /** Every call `for_each_connectivity` makes, in order. */
  function AllPairs(l1: seq<seq<nat>>, l2: seq<seq<nat>>): seq<(nat, nat)>
    requires |l1| == |l2|
  {
    if l1 == [] then []
    else AllPairs(l1[..|l1| - 1], l2[..|l2| - 1]) + PairsOf(l1[|l1| - 1], l2[|l2| - 1])
  }

  /** Each ordered pair is emitted as often as its reverse. */
  ghost predicate Balanced(ps: seq<(nat, nat)>)
  {
    forall a, b :: multiset(ps)[(a, b)] == multiset(ps)[(b, a)]
  }

  lemma {:induction false} BalancedAppend(ps: seq<(nat, nat)>, qs: seq<(nat, nat)>)
    requires Balanced(ps) && Balanced(qs)
    ensures Balanced(ps + qs)
  {
    assert multiset(ps + qs) == multiset(ps) + multiset(qs);
  }

  lemma {:induction false} RowBalanced(a: nat, r2: seq<nat>)
    ensures Balanced(RowPairs(a, r2))
    ensures (a, a) !in RowPairs(a, r2)
  {
    if r2 != [] {
      RowBalanced(a, r2[..|r2| - 1]);
      BalancedAppend(RowPairs(a, r2[..|r2| - 1]), Emit(a, r2[|r2| - 1]));
    }
  }

  lemma {:induction false} PairsBalanced(r1: seq<nat>, r2: seq<nat>)
    ensures Balanced(PairsOf(r1, r2))
    ensures forall a: nat :: (a, a) !in PairsOf(r1, r2)
  {
    if r1 != [] {
      PairsBalanced(r1[..|r1| - 1], r2);
      RowBalanced(r1[|r1| - 1], r2);
      BalancedAppend(PairsOf(r1[..|r1| - 1], r2), RowPairs(r1[|r1| - 1], r2));
      forall a: nat ensures (a, a) !in RowPairs(r1[|r1| - 1], r2) {
        RowNoSelf(r1[|r1| - 1], r2, a);
      }
    }
  }

  lemma {:induction false} RowNoSelf(a: nat, r2: seq<nat>, x: nat)
    ensures (x, x) !in RowPairs(a, r2)
  {
    if r2 != [] {
      RowNoSelf(a, r2[..|r2| - 1], x);
    }
  }

  /** Every pair of regions is counted as often in one order as in the
      other, and no region is ever paired with itself. */
  lemma {:induction false} AllBalanced(l1: seq<seq<nat>>, l2: seq<seq<nat>>)
    requires |l1| == |l2|
    ensures Balanced(AllPairs(l1, l2))
    ensures forall a: nat :: (a, a) !in AllPairs(l1, l2)
  {
    if l1 != [] {
      AllBalanced(l1[..|l1| - 1], l2[..|l2| - 1]);
      PairsBalanced(l1[|l1| - 1], l2[|l2| - 1]);
      BalancedAppend(AllPairs(l1[..|l1| - 1], l2[..|l2| - 1]), PairsOf(l1[|l1| - 1], l2[|l2| - 1]));
    }
  }

  predicate NoDup(s: seq<nat>)
  {
    forall a, b :: 0 <= a < b < |s| ==> s[a] != s[b]
  }

  function Ind(b: bool): nat
  {
    if b then 1 else 0
  }

  /** One region of the first list against a list without repeats. */
  lemma {:induction false} RowCount(a: nat, r2: seq<nat>, x: nat, y: nat)
    requires NoDup(r2)
    ensures multiset(RowPairs(a, r2))[(x, y)] ==
            Ind(x != y && x == a && y in r2) + Ind(x != y && y == a && x in r2)
  {
    if r2 != [] {
      var pre, b := r2[..|r2| - 1], r2[|r2| - 1];
      assert NoDup(pre) && b !in pre by {
        assert forall k :: 0 <= k < |pre| ==> pre[k] == r2[k];
      }
      RowCount(a, pre, x, y);
      EmitCount(a, b, x, y);
      assert multiset(RowPairs(a, r2))[(x, y)] ==
             multiset(RowPairs(a, pre))[(x, y)] + multiset(Emit(a, b))[(x, y)];
      IndSplit(x != y && x == a, y, r2);
      IndSplit(x != y && y == a, x, r2);
    }
  }

  /** Membership in a non-empty list, split at its last element. */
  lemma {:induction false} IndSplit(c: bool, z: nat, r: seq<nat>)
    requires r != [] && r[|r| - 1] !in r[..|r| - 1]
    ensures Ind(c && z in r) == Ind(c && z in r[..|r| - 1]) + Ind(c && z == r[|r| - 1])
  {
    var pre := r[..|r| - 1];
    if z in r && z != r[|r| - 1] {
      var k :| 0 <= k < |r| && r[k] == z;
      assert pre[k] == z;
    }
    if z in pre {
      var k :| 0 <= k < |pre| && pre[k] == z;
      assert r[k] == z;
    }
  }

  lemma {:induction false} EmitCount(a: nat, b: nat, x: nat, y: nat)
    ensures multiset(Emit(a, b))[(x, y)] == Ind(x != y && x == a && y == b) + Ind(x != y && y == a && x == b)
  {
  }

  /** For one streamline whose two lists have no repeats, the ordered pair
      (x, y) of distinct regions is emitted once for "x in the first list
      and y in the second" and once for the reverse. */
  lemma {:induction false} PairsCount(r1: seq<nat>, r2: seq<nat>, x: nat, y: nat)
    requires NoDup(r1) && NoDup(r2)
    ensures multiset(PairsOf(r1, r2))[(x, y)] ==
            Ind(x != y && x in r1 && y in r2) + Ind(x != y && y in r1 && x in r2)
  {
    if r1 != [] {
      var pre, a := r1[..|r1| - 1], r1[|r1| - 1];
      assert NoDup(pre) && a !in pre by {
        assert forall k :: 0 <= k < |pre| ==> pre[k] == r1[k];
      }
      PairsCount(pre, r2, x, y);
      RowCount(a, r2, x, y);
      assert multiset(PairsOf(r1, r2))[(x, y)] ==
             multiset(PairsOf(pre, r2))[(x, y)] + multiset(RowPairs(a, r2))[(x, y)];
      IndSplit(x != y && y in r2, x, r1);
      IndSplit(x != y && x in r2, y, r1);
    }
  }

  /** Passing mode: a streamline whose (ascending) passing list holds two
      distinct regions adds exactly 2 to their count. */
  lemma {:induction false} PassingAddsTwo(r: seq<nat>, x: nat, y: nat)
    requires Increasing(r)
    ensures multiset(PairsOf(r, r))[(x, y)] == (if x != y && x in r && y in r then 2 else 0)
  {
    PairsCount(r, r, x, y);
  }

  /** End-point mode: with one region at each end, the streamline adds
      exactly 1 to the count of that ordered pair (and 1 to its reverse). */
  lemma {:induction false} EndsAddOne(a: nat, b: nat)
    requires a != b
    ensures multiset(PairsOf([a], [b]))[(a, b)] == 1
    ensures multiset(PairsOf([a], [b]))[(b, a)] == 1
    ensures multiset(PairsOf([a], [a])) == multiset{}
  {
    PairsCount([a], [b], a, b);
    PairsCount([a], [b], b, a);
    assert PairsOf([a], [a]) == [] by {
      assert [a][..0] == [];
      assert RowPairs(a, [a]) == RowPairs(a, []) + Emit(a, a);
    }
  }

  // ---------------------------------------------------------------------
  // the count matrix
  // ---------------------------------------------------------------------

  predicate Square(c: seq<seq<nat>>, n: nat)
  {
    |c| == n && forall a :: 0 <= a < n ==> |c[a]| == n
  }

  /** `count[i][j]`: how many times `for_each_connectivity` reports the
      ordered pair (i, j). */
  function CountMatrix(l1: seq<seq<nat>>, l2: seq<seq<nat>>, n: nat): (c: seq<seq<nat>>)
    requires |l1| == |l2|
    ensures Square(c, n)
  {
    seq(n, a => seq(n, b => multiset(AllPairs(l1, l2))[(a, b)]))
  }

  /** The count matrix is symmetric with a zero diagonal. */
  lemma {:induction false} CountSymmetric(l1: seq<seq<nat>>, l2: seq<seq<nat>>, n: nat)
    requires |l1| == |l2|
    ensures forall a, b :: 0 <= a < n && 0 <= b < n ==>
              CountMatrix(l1, l2, n)[a][b] == CountMatrix(l1, l2, n)[b][a]
    ensures forall a :: 0 <= a < n ==> CountMatrix(l1, l2, n)[a][a] == 0
  {
    AllBalanced(l1, l2);
  }

  function Bump(c: seq<seq<nat>>, n: nat, a: nat, b: nat): (r: seq<seq<nat>>)
    requires Square(c, n) && a < n && b < n
    ensures Square(r, n)
    ensures forall x, y :: 0 <= x < n && 0 <= y < n ==> r[x][y] == c[x][y] + Ind(x == a && y == b)
  {
    c[a := c[a][b := c[a][b] + 1]]
  }

  /** The two callback calls `++count[a][b]` and `++count[b][a]` made for
      distinct regions. */
  function Report(c: seq<seq<nat>>, n: nat, a: nat, b: nat): (r: seq<seq<nat>>)
    requires Square(c, n) && a < n && b < n
    ensures Square(r, n)
    ensures forall x, y :: 0 <= x < n && 0 <= y < n ==> r[x][y] == c[x][y] + multiset(Emit(a, b))[(x, y)]
  {
    if a != b then Bump(Bump(c, n, a, b), n, b, a) else c
  }

  lemma {:induction false} RowPairsSnoc(a: nat, r2: seq<nat>, j: nat)
    requires j < |r2|
    ensures multiset(RowPairs(a, r2[..j + 1])) == multiset(RowPairs(a, r2[..j])) + multiset(Emit(a, r2[j]))
  {
    assert r2[..j + 1][..j] == r2[..j];
  }

  lemma {:induction false} PairsOfSnoc(r1: seq<nat>, r2: seq<nat>, i: nat)
    requires i < |r1|
    ensures multiset(PairsOf(r1[..i + 1], r2)) == multiset(PairsOf(r1[..i], r2)) + multiset(RowPairs(r1[i], r2))
  {
    assert r1[..i + 1][..i] == r1[..i];
  }

  /** The innermost loop of `for_each_connectivity`, with the counting
      callback. */
  method AddRow(c0: seq<seq<nat>>, n: nat, a: nat, r2: seq<nat>) returns (c: seq<seq<nat>>)
    requires Square(c0, n) && a < n && forall j :: 0 <= j < |r2| ==> r2[j] < n
    ensures Square(c, n)
    ensures forall x, y :: 0 <= x < n && 0 <= y < n ==> c[x][y] == c0[x][y] + multiset(RowPairs(a, r2))[(x, y)]
  {
    c := c0;
    var j := 0;
    while j < |r2|
      invariant j <= |r2| && Square(c, n)
      invariant forall x, y :: 0 <= x < n && 0 <= y < n ==>
                  c[x][y] == c0[x][y] + multiset(RowPairs(a, r2[..j]))[(x, y)]
    {
      var b := r2[j];
      RowPairsSnoc(a, r2, j);
      c := Report(c, n, a, b);
      j := j + 1;
    }
    assert r2[..j] == r2;
  }

  /** The middle loop: one streamline. */
  method AddStreamline(c0: seq<seq<nat>>, n: nat, r1: seq<nat>, r2: seq<nat>) returns (c: seq<seq<nat>>)
    requires Square(c0, n)
    requires forall i :: 0 <= i < |r1| ==> r1[i] < n
    requires forall j :: 0 <= j < |r2| ==> r2[j] < n
    ensures Square(c, n)
    ensures forall x, y :: 0 <= x < n && 0 <= y < n ==> c[x][y] == c0[x][y] + multiset(PairsOf(r1, r2))[(x, y)]
  {
    c := c0;
    var i := 0;
    while i < |r1|
      invariant i <= |r1| && Square(c, n)
      invariant forall x, y :: 0 <= x < n && 0 <= y < n ==>
                  c[x][y] == c0[x][y] + multiset(PairsOf(r1[..i], r2))[(x, y)]
    {
      PairsOfSnoc(r1, r2, i);
      c := AddRow(c, n, r1[i], r2);
      i := i + 1;
    }
    assert r1[..i] == r1;
  }

  /** `for_each_connectivity` with the callback `++count[i][j]`, starting
      from a zero matrix. */
  method CountConnections(l1: seq<seq<nat>>, l2: seq<seq<nat>>, n: nat) returns (count: seq<seq<nat>>)
    requires |l1| == |l2| && IdsBelow(l1, n) && IdsBelow(l2, n)
    ensures count == CountMatrix(l1, l2, n)
  {
    count := seq(n, _ => seq(n, _ => 0));
    var t := 0;
    while t < |l1|
      invariant t <= |l1| && Square(count, n)
      invariant forall x, y :: 0 <= x < n && 0 <= y < n ==>
                  count[x][y] == multiset(AllPairs(l1[..t], l2[..t]))[(x, y)]
    {
      assert l1[..t + 1][..t] == l1[..t] && l2[..t + 1][..t] == l2[..t];
      assert multiset(AllPairs(l1[..t + 1], l2[..t + 1])) ==
             multiset(AllPairs(l1[..t], l2[..t])) + multiset(PairsOf(l1[t], l2[t]));
      count := AddStreamline(count, n, l1[t], l2[t]);
      t := t + 1;
    }
    assert l1[..t] == l1 && l2[..t] == l2;
    var spec := CountMatrix(l1, l2, n);
    assert forall a :: 0 <= a < n ==> count[a] == spec[a];
  }

  // ---------------------------------------------------------------------
  // threshold and the "count" values
  // ---------------------------------------------------------------------

  function Max(a: nat, b: nat): nat
  {
    if a < b then b else a
  }

  /** The largest entry of a row; 0 when the row is empty. */
  function RowMax(row: seq<nat>): nat
  {
    if row == [] then 0 else Max(RowMax(row[..|row| - 1]), row[|row| - 1])
  }

  /** The largest entry of a matrix; 0 when it has none. */
  function MaxEntry(c: seq<seq<nat>>): nat
  {
    if c == [] then 0 else Max(MaxEntry(c[..|c| - 1]), RowMax(c[|c| - 1]))
  }

  lemma {:induction false} RowMaxFacts(row: seq<nat>)
    ensures forall j :: 0 <= j < |row| ==> row[j] <= RowMax(row)
    ensures RowMax(row) == 0 || exists j :: 0 <= j < |row| && row[j] == RowMax(row)
  {
    if row != [] {
      RowMaxFacts(row[..|row| - 1]);
    }
  }

  /** The maximum bounds every entry and is an entry (or 0). */
  lemma {:induction false} MaxEntryFacts(c: seq<seq<nat>>)
    ensures forall a, b :: 0 <= a < |c| && 0 <= b < |c[a]| ==> c[a][b] <= MaxEntry(c)
    ensures MaxEntry(c) == 0 || exists a, b :: 0 <= a < |c| && 0 <= b < |c[a]| && c[a][b] == MaxEntry(c)
  {
    if c != [] {
      MaxEntryFacts(c[..|c| - 1]);
      RowMaxFacts(c[|c| - 1]);
      assert forall a :: 0 <= a < |c| - 1 ==> c[..|c| - 1][a] == c[a];
    }
  }

  /** The loop that finds the largest count. */
  method MaxCount(c: seq<seq<nat>>) returns (m: nat)
    ensures m == MaxEntry(c)
  {
    m := 0;
    var i := 0;
    while i < |c|
      invariant i <= |c| && m == MaxEntry(c[..i])
    {
      var j := 0;
      var rowMax := 0;
      while j < |c[i]|
        invariant j <= |c[i]| && rowMax == RowMax(c[i][..j])
      {
        assert c[i][..j + 1][..j] == c[i][..j];
        rowMax := Max(rowMax, c[i][j]);
        j := j + 1;
      }
      assert c[i][..j] == c[i];
      assert c[..i + 1][..i] == c[..i];
      m := Max(m, rowMax);
      i := i + 1;
    }
    assert c[..i] == c;
  }

  /** `threshold_count *= threshold`: the product is truncated back to an
      unsigned count. */
  function ThresholdCount(maxCount: nat, threshold: real): nat
    requires threshold >= 0.0
  {
    (maxCount as real * threshold).Floor
  }

  /** The "count" matrix value: counts above the threshold, 0 elsewhere. */
  function Thresholded(c: seq<seq<nat>>, t: nat): (v: seq<seq<int>>)
    ensures |v| == |c| && forall a :: 0 <= a < |c| ==> |v[a]| == |c[a]|
  {
    seq(|c|, a requires 0 <= a < |c| => seq(|c[a]|, b requires 0 <= b < |c[a]| => if c[a][b] > t then c[a][b] else 0))
  }

  /** The "count" matrix is symmetric, has a zero diagonal, and keeps an
      entry exactly when its count is above the threshold. */
  lemma {:induction false} CountValuesFacts(l1: seq<seq<nat>>, l2: seq<seq<nat>>, n: nat, threshold: real)
    requires |l1| == |l2| && threshold >= 0.0
    ensures var c := CountMatrix(l1, l2, n);
            var v := Thresholded(c, ThresholdCount(MaxEntry(c), threshold));
            && Square(c, n) && |v| == n
            && (forall a, b :: 0 <= a < n && 0 <= b < n ==> v[a][b] == v[b][a])
            && (forall a :: 0 <= a < n ==> v[a][a] == 0)
            && (forall a, b :: 0 <= a < n && 0 <= b < n ==>
                  (v[a][b] != 0 <==> c[a][b] > ThresholdCount(MaxEntry(c), threshold)))
  {
    CountSymmetric(l1, l2, n);
  }

  /** The "count" matrix value of the given region lists. */
  function CountValues(l1: seq<seq<nat>>, l2: seq<seq<nat>>, n: nat, threshold: real): seq<seq<int>>
    requires |l1| == |l2| && threshold >= 0.0
  {
    var c := CountMatrix(l1, l2, n);
    Thresholded(c, ThresholdCount(MaxEntry(c), threshold))
  }

  /** The "count" part of `calculate`: count, find the threshold, write
      the matrix. */
  method CalculateCount(l1: seq<seq<nat>>, l2: seq<seq<nat>>, n: nat, threshold: real) returns (v: seq<seq<int>>)
    requires |l1| == |l2| && IdsBelow(l1, n) && IdsBelow(l2, n) && threshold >= 0.0
    ensures v == CountValues(l1, l2, n, threshold)
  {
    var count := CountConnections(l1, l2, n);
    var m := MaxCount(count);
    v := ApplyThreshold(count, ThresholdCount(m, threshold));
  }

  /** The loop writing `matrix_value` in the "count" mode. */
  method ApplyThreshold(c: seq<seq<nat>>, t: nat) returns (v: seq<seq<int>>)
    ensures v == Thresholded(c, t)
  {
    v := [];
    var i := 0;
    while i < |c|
      invariant i <= |c| && v == Thresholded(c[..i], t)
    {
      var row := seq(|c[i]|, b requires 0 <= b < |c[i]| => if c[i][b] > t then c[i][b] else 0);
      v := v + [row];
      i := i + 1;
    }
    assert c[..i] == c;
  }

  // ---------------------------------------------------------------------
  // set_regions
  // ---------------------------------------------------------------------

  /** One of the listed voxels lies inside the grid at index `v`. */
  predicate Covers(g: Shape, pts: seq<Voxel>, v: int)
  {
    pts != [] &&
      (Covers(g, pts[..|pts| - 1], v) ||
       (IsValid(g, pts[|pts| - 1]) && IndexOf(g, pts[|pts| - 1]) == v))
  }

  lemma {:induction false} CoversIff(g: Shape, pts: seq<Voxel>, v: int)
    ensures Covers(g, pts, v) <==> exists k :: 0 <= k < |pts| && IsValid(g, pts[k]) && IndexOf(g, pts[k]) == v
  {
    if pts != [] {
      CoversIff(g, pts[..|pts| - 1], v);
      assert forall k :: 0 <= k < |pts| - 1 ==> pts[..|pts| - 1][k] == pts[k];
    }
  }

  /** The membership map `set_regions` builds: at every voxel, the
      ascending list of the regions that contain it. */
  function RegionMap(g: Shape, regions: seq<seq<Voxel>>): seq<seq<nat>>
  {
    seq(Size(g), v => Indices(seq(|regions|, r requires 0 <= r < |regions| => Covers(g, regions[r], v))))
  }

  lemma {:induction false} RegionMapFacts(g: Shape, regions: seq<seq<Voxel>>, v: nat, r: nat)
    requires v < Size(g)
    ensures |RegionMap(g, regions)| == Size(g)
    ensures Increasing(RegionMap(g, regions)[v])
    ensures r in RegionMap(g, regions)[v] <==>
            r < |regions| && exists k :: 0 <= k < |regions[r]| && IsValid(g, regions[r][k]) && IndexOf(g, regions[r][k]) == v
  {
    if r < |regions| {
      CoversIff(g, regions[r], v);
    }
  }

  lemma {:induction false} RegionMapBelow(g: Shape, regions: seq<seq<Voxel>>)
    ensures IdsBelow(RegionMap(g, regions), |regions|)
  {
    var m := RegionMap(g, regions);
    forall v, i | 0 <= v < |m| && 0 <= i < |m[v]|
      ensures m[v][i] < |regions|
    {
      assert m[v][i] in m[v];
    }
  }

  /** The number of voxels listing at least `atLeast` regions. */
  function CountSized(m: seq<seq<nat>>, atLeast: nat): nat
  {
    if m == [] then 0 else CountSized(m[..|m| - 1], atLeast) + Ind(|m[|m| - 1]| >= atLeast)
  }

  /** The overlap count never exceeds the count of covered voxels, so the
      overlap ratio is at most 1. */
  lemma {:induction false} OverlapAtMostTotal(m: seq<seq<nat>>)
    ensures CountSized(m, 2) <= CountSized(m, 1)
  {
    if m != [] {
      OverlapAtMostTotal(m[..|m| - 1]);
    }
  }

  /** Adds region `roi` to the set of every in-grid voxel of `pts`. */
  method Paint(g: Shape, sets: seq<set<nat>>, pts: seq<Voxel>, roi: nat) returns (r: seq<set<nat>>)
    requires |sets| == Size(g)
    ensures |r| == Size(g)
    ensures forall v, x :: 0 <= v < Size(g) ==> (x in r[v] <==> x in sets[v] || (x == roi && Covers(g, pts, v)))
  {
    r := sets;
    var k := 0;
    while k < |pts|
      invariant k <= |pts| && |r| == Size(g)
      invariant forall v, x :: 0 <= v < Size(g) ==> (x in r[v] <==> x in sets[v] || (x == roi && Covers(g, pts[..k], v)))
    {
      assert pts[..k + 1][..k] == pts[..k];
      if IsValid(g, pts[k]) {
        var i := IndexOf(g, pts[k]);
        r := r[i := r[i] + {roi}];
      }
      k := k + 1;
    }
    assert pts[..k] == pts;
  }

  class ConnectivityMatrix {
    var regionCount: nat
    var regionMap: seq<seq<nat>>
    var overlapCount: nat
    var totalCount: nat
    var atlasName: string
    var matrixValue: seq<seq<int>>
    var errorMsg: string

    /** Every region id in the map names a region. */
    predicate Valid()
      reads this
    {
      IdsBelow(regionMap, regionCount)
    }

    constructor ()
      ensures regionCount == 0 && regionMap == [] && matrixValue == [] && errorMsg == ""
      ensures Valid()
    {
      regionCount, regionMap, overlapCount, totalCount := 0, [], 0, 0;
      atlasName, matrixValue, errorMsg := "", [], "";
    }

    /** `set_regions`: builds the membership map from the voxel lists of the
        regions and counts the covered and the overlapping voxels. */
    method SetRegions(g: Shape, regions: seq<seq<Voxel>>)
      modifies this
      ensures Valid()
      ensures regionCount == |regions| && regionMap == RegionMap(g, regions)
      ensures totalCount == CountSized(regionMap, 1) && overlapCount == CountSized(regionMap, 2)
      ensures atlasName == "roi"
      ensures matrixValue == old(matrixValue) && errorMsg == old(errorMsg)
    {
      var sets := CollectSets(g, regions);
      var m := BuildMap(g, regions, sets);
      var total, overlap := CountVoxels(m);
      RegionMapBelow(g, regions);
      regionCount, regionMap, overlapCount, totalCount, atlasName := |regions|, m, overlap, total, "roi";
    }

    /** Both `ConnectivityMatrix::calculate` in the "count" mode: the
        region lists, the counts, the threshold and the matrix value. */
    method Calculate(tracts: seq<seq<int>>, g: Shape, useEndOnly: bool, threshold: real) returns (ok: bool)
      requires Valid() && |regionMap| == Size(g) && threshold >= 0.0
      requires forall t :: 0 <= t < |tracts| ==> |tracts[t]| % 3 == 0
      modifies this
      ensures regionCount == old(regionCount) && regionMap == old(regionMap)
      ensures overlapCount == old(overlapCount) && totalCount == old(totalCount) && atlasName == old(atlasName)
      ensures ok <==> regionCount != 0
      ensures !ok ==> errorMsg == "No region information. Please assign regions" && matrixValue == old(matrixValue)
      ensures ok ==> errorMsg == old(errorMsg)
      ensures ok ==> var ls := Lists(g, regionMap, regionCount, tracts, useEndOnly);
                     matrixValue == CountValues(ls.0, ls.1, regionCount, threshold)
    {
      if regionCount == 0 {
        errorMsg := "No region information. Please assign regions";
        return false;
      }
      var l1, l2;
      if useEndOnly {
        l1, l2 := GetEndList(g, regionMap, tracts);
      } else {
        l1, l2 := GetPassingList(g, regionMap, regionCount, tracts);
      }
      ListsBelow(g, regionMap, regionCount, tracts, useEndOnly);
      matrixValue := CalculateCount(l1, l2, regionCount, threshold);
      ok := true;
    }
  }

  /** `sets[v]` holds exactly the regions with a voxel at index `v`. */
  ghost predicate SetsOk(g: Shape, regions: seq<seq<Voxel>>, sets: seq<set<nat>>)
    requires |sets| == Size(g)
  {
    forall v, x: nat :: 0 <= v < Size(g) ==> (x in sets[v] <==> x < |regions| && Covers(g, regions[x], v))
  }

  /** The first loop of `set_regions`: the ordered set of regions at each
      voxel. */
  method CollectSets(g: Shape, regions: seq<seq<Voxel>>) returns (sets: seq<set<nat>>)
    ensures |sets| == Size(g)
    ensures SetsOk(g, regions, sets)
  {
    sets := seq(Size(g), _ => {});
    var roi := 0;
    while roi < |regions|
      invariant roi <= |regions| && |sets| == Size(g)
      invariant forall v, x: nat :: 0 <= v < Size(g) ==> (x in sets[v] <==> x < roi && x < |regions| && Covers(g, regions[x], v))
    {
      sets := Paint(g, sets, regions[roi], roi);
      roi := roi + 1;
    }
  }

  /** The loop of `set_regions` that turns each voxel's ordered set into its
      list of regions. */
  method BuildMap(g: Shape, regions: seq<seq<Voxel>>, sets: seq<set<nat>>) returns (m: seq<seq<nat>>)
    requires |sets| == Size(g)
    requires SetsOk(g, regions, sets)
    ensures m == RegionMap(g, regions)
  {
    ghost var spec := RegionMap(g, regions);
    m := seq(Size(g), _ => []);
    ghost var base := m;
    var v := 0;
    while v < Size(g)
      invariant v <= Size(g) && |m| == Size(g)
      invariant forall u :: 0 <= u < v ==> m[u] == spec[u]
      invariant forall u :: v <= u < Size(g) ==> m[u] == base[u]
    {
      var keep := seq(|regions|, r requires 0 <= r < |regions| => Covers(g, regions[r], v));
      assert spec[v] == Indices(keep);
      assert forall r :: 0 <= r < |regions| ==> (keep[r] <==> r in sets[v]);
      ghost var before := m;
      if sets[v] != {} {
        m := m[v := Indices(keep)];
      } else {
        IndicesNone(keep);
      }
      FilledUpTo(before, m, spec, base, v);
      v := v + 1;
    }
  }

  /** The counting loop of `set_regions`: covered voxels and voxels in more
      than one region. */
  method CountVoxels(m: seq<seq<nat>>) returns (total: nat, overlap: nat)
    ensures total == CountSized(m, 1) && overlap == CountSized(m, 2)
  {
    total, overlap := 0, 0;
    var v := 0;
    while v < |m|
      invariant v <= |m| && total == CountSized(m[..v], 1) && overlap == CountSized(m[..v], 2)
    {
      assert m[..v + 1][..v] == m[..v];
      if m[v] != [] {
        total := total + 1;
        if |m[v]| > 1 {
          overlap := overlap + 1;
        }
      }
      v := v + 1;
    }
    assert m[..v] == m;
  }
}
