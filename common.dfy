/** Small shared vocabulary: optional values, results, and sequence helpers
    that model the standard-library container operations the source uses
    (`erase`/`remove_if`, `std::accumulate`, `std::swap`). */
module Common {

  datatype Option<T> = None | Some(value: T)

  datatype Result<T, E> = Ok(value: T) | Err(error: E)

  /** Sum of a sequence of integers (`std::accumulate`). */
  function Sum(s: seq<int>): int
  {
    if s == [] then 0 else Sum(s[..|s| - 1]) + s[|s| - 1]
  }

  lemma {:induction false} SumAppend(s: seq<int>, t: seq<int>)
    ensures Sum(s + t) == Sum(s) + Sum(t)
    decreases |t|
  {
    if t == [] {
      assert s + t == s;
    } else {
      assert (s + t)[..|s + t| - 1] == s + t[..|t| - 1];
      SumAppend(s, t[..|t| - 1]);
    }
  }

  /** The elements of `s` whose flag in `keep` is set, in their original order
      (the effect of `erase(remove_if(...))`). */
  function Filter<T>(s: seq<T>, keep: seq<bool>): (r: seq<T>)
    requires |keep| == |s|
    ensures |r| <= |s|
  {
    if s == [] then [] else (if keep[0] then [s[0]] else []) + Filter(s[1..], keep[1..])
  }

  /** Number of set flags. */
  function CountTrue(keep: seq<bool>): nat
  {
    if keep == [] then 0 else (if keep[0] then 1 else 0) + CountTrue(keep[1..])
  }

  lemma {:induction false} FilterLength<T>(s: seq<T>, keep: seq<bool>)
    requires |keep| == |s|
    ensures |Filter(s, keep)| == CountTrue(keep)
  {
    if s != [] {
      FilterLength(s[1..], keep[1..]);
    }
  }

  /** Filtering keeps exactly the flagged elements: every survivor was flagged,
      and every flagged element survives. */
  lemma {:induction false} FilterMembers<T>(s: seq<T>, keep: seq<bool>, x: T)
    requires |keep| == |s|
    ensures x in Filter(s, keep) <==> exists i :: 0 <= i < |s| && keep[i] && s[i] == x
  {
    if s != [] {
      FilterMembers(s[1..], keep[1..], x);
      if x in Filter(s[1..], keep[1..]) {
        var i :| 0 <= i < |s[1..]| && keep[1..][i] && s[1..][i] == x;
        assert keep[i + 1] && s[i + 1] == x;
      }
      if exists i :: 0 <= i < |s| && keep[i] && s[i] == x {
        var i :| 0 <= i < |s| && keep[i] && s[i] == x;
        if i > 0 {
          assert keep[1..][i - 1] && s[1..][i - 1] == x;
        }
      }
    }
  }

  /** Filtering with all flags set changes nothing. */
  lemma {:induction false} FilterAll<T>(s: seq<T>, keep: seq<bool>)
    requires |keep| == |s|
    requires forall i :: 0 <= i < |keep| ==> keep[i]
    ensures Filter(s, keep) == s
  {
    if s != [] {
      FilterAll(s[1..], keep[1..]);
    }
  }

  lemma {:induction false} FilterAppend<T>(s: seq<T>, t: seq<T>, ks: seq<bool>, kt: seq<bool>)
    requires |ks| == |s| && |kt| == |t|
    ensures Filter(s + t, ks + kt) == Filter(s, ks) + Filter(t, kt)
  {
    if s == [] {
      assert s + t == t && ks + kt == kt;
    } else {
      var head := if ks[0] then [s[0]] else [];
      assert (s + t)[0] == s[0] && (ks + kt)[0] == ks[0];
      assert (s + t)[1..] == s[1..] + t && (ks + kt)[1..] == ks[1..] + kt;
      assert Filter(s + t, ks + kt) == head + Filter(s[1..] + t, ks[1..] + kt);
      FilterAppend(s[1..], t, ks[1..], kt);
      assert Filter(s, ks) == head + Filter(s[1..], ks[1..]);
    }
  }

  /** Filtering one more element: the loop step of `remove_if`. */
  lemma {:induction false} FilterSnoc<T>(s: seq<T>, keep: seq<bool>, i: nat)
    requires |keep| == |s| && i < |s|
    ensures Filter(s[..i + 1], keep[..i + 1]) == Filter(s[..i], keep[..i]) + (if keep[i] then [s[i]] else [])
  {
    assert s[..i + 1] == s[..i] + [s[i]] && keep[..i + 1] == keep[..i] + [keep[i]];
    FilterAppend(s[..i], [s[i]], keep[..i], [keep[i]]);
    assert Filter([s[i]], [keep[i]]) == (if keep[i] then [s[i]] else []) + Filter<T>([], []);
  }

  /** Position of the k-th (from 0) set flag. */
  function KeptIndex(keep: seq<bool>, k: nat): (i: nat)
    requires k < CountTrue(keep)
    ensures i < |keep| && keep[i]
  {
    if keep[0] then (if k == 0 then 0 else 1 + KeptIndex(keep[1..], k - 1))
    else 1 + KeptIndex(keep[1..], k)
  }

  /** The k-th survivor of a filter is the element at the k-th set flag. */
  lemma {:induction false} FilterAt<T>(s: seq<T>, keep: seq<bool>, k: nat)
    requires |keep| == |s| && k < CountTrue(keep)
    ensures k < |Filter(s, keep)| && Filter(s, keep)[k] == s[KeptIndex(keep, k)]
  {
    FilterLength(s, keep);
    if keep[0] {
      if k > 0 {
        FilterAt(s[1..], keep[1..], k - 1);
      }
    } else {
      FilterAt(s[1..], keep[1..], k);
    }
  }

  /** Survivors keep their relative order. */
  lemma {:induction false} KeptIndexIncreasing(keep: seq<bool>, k1: nat, k2: nat)
    requires k1 < k2 < CountTrue(keep)
    ensures KeptIndex(keep, k1) < KeptIndex(keep, k2)
  {
    if !keep[0] {
      KeptIndexIncreasing(keep[1..], k1, k2);
    } else if k1 > 0 {
      KeptIndexIncreasing(keep[1..], k1 - 1, k2 - 1);
    }
  }

  /** Filtering only looks at the flagged elements. */
  lemma {:induction false} FilterSame<T>(s: seq<T>, t: seq<T>, keep: seq<bool>)
    requires |keep| == |s| == |t|
    requires forall i :: 0 <= i < |s| && keep[i] ==> s[i] == t[i]
    ensures Filter(s, keep) == Filter(t, keep)
  {
    if s != [] {
      FilterSame(s[1..], t[1..], keep[1..]);
    }
  }

  /** Filtering with no flag set keeps nothing. */
  lemma {:induction false} FilterNone<T>(s: seq<T>, keep: seq<bool>)
    requires |keep| == |s|
    requires forall i :: 0 <= i < |keep| ==> !keep[i]
    ensures Filter(s, keep) == []
  {
    if s != [] {
      FilterNone(s[1..], keep[1..]);
    }
  }

  /** A sum of naturals bounds each of its last element and its prefix. */
  lemma {:induction false} SumNat(s: seq<nat>)
    requires s != []
    ensures 0 <= Sum(s[..|s| - 1]) && s[|s| - 1] <= Sum(s)
  {
    SumNonNeg(s[..|s| - 1]);
  }

  lemma {:induction false} SumNonNeg(s: seq<nat>)
    ensures Sum(s) >= 0
  {
    if s != [] {
      SumNonNeg(s[..|s| - 1]);
    }
  }

  /** `v.erase(v.begin() + i)`. */
  function RemoveAt<T>(s: seq<T>, i: nat): (r: seq<T>)
    requires i < |s|
    ensures |r| == |s| - 1
    ensures forall k :: 0 <= k < i ==> r[k] == s[k]
    ensures forall k :: i <= k < |r| ==> r[k] == s[k + 1]
  {
    s[..i] + s[i + 1..]
  }

  /** A sequence filled from the front: entry `i` takes its final value and
      the others stay, so one more entry agrees with `spec` and the rest still
      agree with `base`. */
  lemma {:induction false} FilledUpTo<T>(m: seq<T>, m2: seq<T>, spec: seq<T>, base: seq<T>, i: nat)
    requires |m| == |m2| == |spec| == |base| && i < |m|
    requires forall v :: 0 <= v < i ==> m[v] == spec[v]
    requires forall v :: i <= v < |m| ==> m[v] == base[v]
    requires m2[i] == spec[i] && forall v :: 0 <= v < |m| && v != i ==> m2[v] == m[v]
    ensures forall v :: 0 <= v < i + 1 ==> m2[v] == spec[v]
    ensures forall v :: i + 1 <= v < |m| ==> m2[v] == base[v]
  {
  }

  /** `std::swap(v[i], v[j])`. */
  function Swap<T>(s: seq<T>, i: nat, j: nat): (r: seq<T>)
    requires i < |s| && j < |s|
    ensures |r| == |s| && r[i] == s[j] && r[j] == s[i]
    ensures forall k :: 0 <= k < |s| && k != i && k != j ==> r[k] == s[k]
    ensures multiset(r) == multiset(s)
  {
    s[i := s[j]][j := s[i]]
  }

  /** Reverse of a sequence (the order in which a stack pops). */
  function Reverse<T>(s: seq<T>): (r: seq<T>)
    ensures |r| == |s|
  {
    if s == [] then [] else [s[|s| - 1]] + Reverse(s[..|s| - 1])
  }

  lemma {:induction false} ReverseAt<T>(s: seq<T>, k: nat)
    requires k < |s|
    ensures Reverse(s)[k] == s[|s| - 1 - k]
  {
    if k > 0 {
      ReverseAt(s[..|s| - 1], k - 1);
    }
  }

  /** Popping one more element from the back of `s[i + 1..]` extends the reversed run. */
  lemma {:induction false} ReverseFrom<T>(s: seq<T>, i: nat)
    requires i < |s|
    ensures Reverse(s[i..]) == Reverse(s[i + 1..]) + [s[i]]
  {
    var l, r := Reverse(s[i..]), Reverse(s[i + 1..]) + [s[i]];
    forall k | 0 <= k < |l|
      ensures l[k] == r[k]
    {
      ReverseAt(s[i..], k);
      if k < |l| - 1 {
        ReverseAt(s[i + 1..], k);
      }
    }
  }

  lemma {:induction false} ReverseReverse<T>(s: seq<T>)
    ensures Reverse(Reverse(s)) == s
  {
    forall k | 0 <= k < |s|
      ensures Reverse(Reverse(s))[k] == s[k]
    {
      ReverseAt(Reverse(s), k);
      ReverseAt(s, |s| - 1 - k);
    }
  }

  /** Concatenation of a sequence of sequences, in order. */
  function Concat<T>(ss: seq<seq<T>>): seq<T>
  {
    if ss == [] then [] else Concat(ss[..|ss| - 1]) + ss[|ss| - 1]
  }

  lemma {:induction false} ConcatAppend<T>(a: seq<seq<T>>, b: seq<seq<T>>)
    ensures Concat(a + b) == Concat(a) + Concat(b)
  {
    if b == [] {
      assert a + b == a;
    } else {
      var front, last := b[..|b| - 1], b[|b| - 1];
      assert (a + b)[..|a + b| - 1] == a + front && (a + b)[|a + b| - 1] == last;
      assert Concat(a + b) == Concat(a + front) + last;
      ConcatAppend(a, front);
      assert Concat(b) == Concat(front) + last;
    }
  }

  /** Strictly ascending, hence free of repeats. */
  predicate Increasing(s: seq<nat>)
  {
    forall a, b :: 0 <= a < b < |s| ==> s[a] < s[b]
  }

  /** The positions whose flag is set, in ascending order (the loop that
      turns a `has_region` mask, or an ordered `std::set`, into a list). */
  function Indices(keep: seq<bool>): (r: seq<nat>)
    ensures forall i :: i in r <==> 0 <= i < |keep| && keep[i]
    ensures Increasing(r)
  {
    if keep == [] then []
    else
      var pre := Indices(keep[..|keep| - 1]);
      IndicesStep(keep, pre);
      pre + (if keep[|keep| - 1] then [|keep| - 1] else [])
  }

  lemma {:induction false} IndicesStep(keep: seq<bool>, pre: seq<nat>)
    requires keep != []
    requires forall i :: i in pre <==> 0 <= i < |keep| - 1 && keep[..|keep| - 1][i]
    requires Increasing(pre)
    ensures var r := pre + (if keep[|keep| - 1] then [|keep| - 1] else []);
            (forall i :: i in r <==> 0 <= i < |keep| && keep[i]) && Increasing(r)
  {
    var n := |keep| - 1;
    assert forall i :: 0 <= i < n ==> keep[..n][i] == keep[i];
    var r := pre + (if keep[n] then [n] else []);
    assert forall i :: i in r <==> i in pre || (keep[n] && i == n);
    assert forall a :: 0 <= a < |pre| ==> r[a] == pre[a] && pre[a] in pre;
  }

  /** One more flag looked at: its position joins the list when it is set. */
  lemma {:induction false} IndicesSnoc(keep: seq<bool>, i: nat)
    requires i < |keep|
    ensures Indices(keep[..i + 1]) == Indices(keep[..i]) + (if keep[i] then [i] else [])
  {
    assert keep[..i + 1][..i] == keep[..i];
  }

  /** With no flag set the list is empty. */
  lemma {:induction false} IndicesNone(keep: seq<bool>)
    requires forall i :: 0 <= i < |keep| ==> !keep[i]
    ensures Indices(keep) == []
    decreases |keep|
  {
    if keep != [] {
      IndicesNone(keep[..|keep| - 1]);
    }
  }

  /** Equal entries of an ascending list sit at the same place. */
  lemma {:induction false} IncreasingDistinct(s: seq<nat>, a: nat, b: nat)
    requires Increasing(s) && a < |s| && b < |s| && s[a] == s[b]
    ensures a == b
  {
  }
}
