/** The Python list operations that the flow composition relies on:
    the filtering comprehension `[x for x in s if x not in excluded]`,
    `list.index` (first occurrence, raising when absent) and `list.insert`. */
module Seqs {
  import opened Wrappers

  /** `[x for x in s if x not in excluded]`: the elements of `s` that do not
      occur in `excluded`, in the order they have in `s`. */
  function Subtract<T(==)>(s: seq<T>, excluded: seq<T>): (r: seq<T>)
    ensures |r| <= |s|
  {
    if s == [] then []
    else if s[0] in excluded then Subtract(s[1..], excluded)
    else [s[0]] + Subtract(s[1..], excluded)
  }

  /** `r` is the subsequence of `s` picked out by the strictly increasing
      positions `idx`. */
  ghost predicate IsSubsequenceAt<T>(r: seq<T>, s: seq<T>, idx: seq<int>)
  {
    && |idx| == |r|
    && (forall k :: 0 <= k < |idx| ==> 0 <= idx[k] < |s| && r[k] == s[idx[k]])
    && (forall k, l :: 0 <= k < l < |idx| ==> idx[k] < idx[l])
  }

  ghost predicate IsSubsequence<T>(r: seq<T>, s: seq<T>)
  {
    exists idx :: IsSubsequenceAt(r, s, idx)
  }

  /** An element survives the difference exactly when it is in `s` and not
      excluded. */
  lemma {:induction false} SubtractMembership<T>(s: seq<T>, excluded: seq<T>, x: T)
    ensures x in Subtract(s, excluded) <==> x in s && x !in excluded
  {
    if s != [] {
      SubtractMembership(s[1..], excluded, x);
      assert x in s <==> x == s[0] || x in s[1..];
    }
  }

  /** Subtracting maps over concatenation: the kept elements of `a` come
      before the kept elements of `b`, so no reordering happens. */
  lemma {:induction false} SubtractConcat<T>(a: seq<T>, b: seq<T>, excluded: seq<T>)
    ensures Subtract(a + b, excluded) == Subtract(a, excluded) + Subtract(b, excluded)
  {
    if a == [] {
      assert a + b == b;
    } else {
      assert (a + b)[0] == a[0];
      assert (a + b)[1..] == a[1..] + b;
      SubtractConcat(a[1..], b, excluded);
    }
  }

  /** The difference keeps the original order: it is a subsequence of `s`. */
  lemma {:induction false} SubtractIsSubsequence<T>(s: seq<T>, excluded: seq<T>)
    ensures IsSubsequence(Subtract(s, excluded), s)
  {
    var r := Subtract(s, excluded);
    if s == [] {
      assert IsSubsequenceAt(r, s, []);
    } else {
      SubtractIsSubsequence(s[1..], excluded);
      var rest := Subtract(s[1..], excluded);
      var idx :| IsSubsequenceAt(rest, s[1..], idx);
      var shifted := seq(|idx|, k requires 0 <= k < |idx| => idx[k] + 1);
      if s[0] in excluded {
        assert IsSubsequenceAt(r, s, shifted);
      } else {
        assert IsSubsequenceAt(r, s, [0] + shifted);
      }
    }
  }

  /** Every position moved up by one. */
  function Shift(idx: seq<int>): (r: seq<int>)
    ensures |r| == |idx| && forall k :: 0 <= k < |idx| ==> r[k] == idx[k] + 1
  {
    seq(|idx|, k requires 0 <= k < |idx| => idx[k] + 1)
  }

  lemma ShiftMembers(idx: seq<int>, k: int)
    ensures k in Shift(idx) <==> k - 1 in idx
  {
    if k in Shift(idx) {
      var m :| 0 <= m < |idx| && Shift(idx)[m] == k;
      assert idx[m] == k - 1;
    }
    if k - 1 in idx {
      var m :| 0 <= m < |idx| && idx[m] == k - 1;
      assert Shift(idx)[m] == k;
    }
  }

  /** `idx` holds exactly the positions of `s` whose element is not excluded. */
  ghost predicate KeepsExactly<T>(s: seq<T>, excluded: seq<T>, idx: seq<int>)
  {
    forall k :: 0 <= k < |s| ==> (k in idx <==> s[k] !in excluded)
  }

  /** The step case of `SubtractKeptPositions`: positions found in `s[1..]`,
      moved up by one, are the kept positions of `s` after the first. */
  lemma ShiftKept<T>(s: seq<T>, excluded: seq<T>, rest: seq<T>, idx: seq<int>)
    requires s != []
    requires IsSubsequenceAt(rest, s[1..], idx) && KeepsExactly(s[1..], excluded, idx)
    ensures IsSubsequenceAt(rest, s, Shift(idx))
    ensures forall k :: 0 <= k < |idx| ==> Shift(idx)[k] >= 1
    ensures 0 !in Shift(idx)
    ensures forall k :: 1 <= k < |s| ==> (k in Shift(idx) <==> s[k] !in excluded)
  {
    forall k | 1 <= k < |s| ensures (k in Shift(idx) <==> s[k] !in excluded) {
      ShiftMembers(idx, k);
      assert s[1..][k - 1] == s[k];
    }
    ShiftMembers(idx, 0);
    assert -1 !in idx;
  }

  /** Keeping the first element as well puts position 0 in front. */
  lemma ConsPosition<T>(rest: seq<T>, s: seq<T>, p: seq<int>)
    requires s != [] && IsSubsequenceAt(rest, s, p)
    requires forall k :: 0 <= k < |p| ==> p[k] >= 1
    ensures IsSubsequenceAt([s[0]] + rest, s, [0] + p)
  {
  }

  /** The positions of `s` that the difference keeps are exactly those whose
      element is not excluded, so each kept element appears in the result as
      often as in `s`. */
  lemma {:induction false} SubtractKeptPositions<T>(s: seq<T>, excluded: seq<T>)
    ensures exists idx :: IsSubsequenceAt(Subtract(s, excluded), s, idx) && KeepsExactly(s, excluded, idx)
  {
    var r := Subtract(s, excluded);
    if s == [] {
      assert IsSubsequenceAt(r, s, []) && KeepsExactly(s, excluded, []);
    } else {
      SubtractKeptPositions(s[1..], excluded);
      var rest := Subtract(s[1..], excluded);
      var idx :| IsSubsequenceAt(rest, s[1..], idx) && KeepsExactly(s[1..], excluded, idx);
      ShiftKept(s, excluded, rest, idx);
      var shifted := Shift(idx);
      if s[0] in excluded {
        assert IsSubsequenceAt(r, s, shifted);
        assert KeepsExactly(s, excluded, shifted);
      } else {
        var full := [0] + shifted;
        ConsPosition(rest, s, shifted);
        assert r == [s[0]] + rest;
        assert forall k :: k in full <==> k == 0 || k in shifted;
        assert KeepsExactly(s, excluded, full);
      }
    }
  }

  /** Only membership in the excluded list matters: two excluded lists with
      the same elements give the same difference. */
  lemma {:induction false} SubtractSameMembers<T>(s: seq<T>, e1: seq<T>, e2: seq<T>)
    requires forall x :: x in e1 <==> x in e2
    ensures Subtract(s, e1) == Subtract(s, e2)
  {
    if s != [] {
      SubtractSameMembers(s[1..], e1, e2);
    }
  }

  /** Nothing is dropped from a list none of whose elements is excluded. */
  lemma {:induction false} SubtractNoneExcluded<T>(s: seq<T>, excluded: seq<T>)
    requires forall x :: x in s ==> x !in excluded
    ensures Subtract(s, excluded) == s
  {
    if s != [] {
      SubtractNoneExcluded(s[1..], excluded);
    }
  }

  /** An excluded element between two segments disappears. */
  lemma SubtractDropsKey<T>(a: seq<T>, y: T, b: seq<T>, excluded: seq<T>)
    requires y in excluded
    ensures Subtract(a + [y] + b, excluded) == Subtract(a, excluded) + Subtract(b, excluded)
  {
    SubtractConcat(a + [y], b, excluded);
    SubtractConcat(a, [y], excluded);
    assert Subtract([y], excluded) == [];
  }

  /** Subtracting drops two excluded keys placed between three segments that
      hold no excluded element, and leaves the segments joined. */
  lemma SubtractCutKeys<T>(p: seq<T>, y: T, q: seq<T>, z: T, t: seq<T>, excluded: seq<T>)
    requires y in excluded && z in excluded
    requires forall x :: x in p + q + t ==> x !in excluded
    ensures Subtract(p + [y] + q + [z] + t, excluded) == p + q + t
  {
    assert forall x :: x in p ==> x in p + q + t;
    assert forall x :: x in q ==> x in p + q + t;
    assert forall x :: x in t ==> x in p + q + t;
    SubtractNoneExcluded(p, excluded);
    SubtractNoneExcluded(q, excluded);
    SubtractNoneExcluded(t, excluded);
    SubtractDropsKey(p + [y] + q, z, t, excluded);
    SubtractDropsKey(p, y, q, excluded);
  }

  /** Subtracting the keys that were spliced into `s` at two cuts gives `s`
      back, provided neither key occurred in `s` already. */
  lemma RemoveSplicedKeys<T>(s: seq<T>, i: nat, j: nat, x1: T, x2: T)
    requires i <= j <= |s| && x1 !in s && x2 !in s
    ensures Subtract(s[..i] + [x1] + s[i..j] + [x2] + s[j..], [x1, x2]) == s
    ensures Subtract(s[..i] + [x2] + s[i..j] + [x1] + s[j..], [x1, x2]) == s
  {
    assert s[..i] + s[i..j] + s[j..] == s;
    SubtractCutKeys(s[..i], x1, s[i..j], x2, s[j..], [x1, x2]);
    SubtractCutKeys(s[..i], x2, s[i..j], x1, s[j..], [x1, x2]);
  }

  /** The difference is empty exactly when every element of `s` is excluded. */
  lemma {:induction false} SubtractEmpty<T>(s: seq<T>, excluded: seq<T>)
    ensures Subtract(s, excluded) == [] <==> forall x :: x in s ==> x in excluded
  {
    if s != [] {
      SubtractEmpty(s[1..], excluded);
      assert forall x :: x in s <==> x == s[0] || x in s[1..];
    }
  }

  /** `s.index(x)`: the position of the first occurrence of `x`, or `None`
      where Python raises `ValueError`. */
  function IndexOf<T(==)>(s: seq<T>, x: T): (r: Option<nat>)
    ensures r.None? <==> x !in s
    ensures r.Some? ==> r.value < |s| && s[r.value] == x && x !in s[..r.value]
  {
    if s == [] then None
    else if s[0] == x then Some(0)
    else match IndexOf(s[1..], x)
      case None => None
      case Some(i) => assert s[..i + 1] == [s[0]] + s[1..][..i]; Some(i + 1)
  }

  /** The first occurrence is unique: a position holding `x` with no `x`
      before it is the one `IndexOf` finds. */
  lemma IndexOfFirst<T>(s: seq<T>, x: T, k: nat)
    requires k < |s| && s[k] == x && x !in s[..k]
    ensures IndexOf(s, x) == Some(k)
  {
  }

  /** `s.insert(i, x)` for a position inside the list: `x` lands at `i`, what
      was before `i` stays put and the rest moves up by one. */
  function InsertAt<T>(s: seq<T>, i: nat, x: T): (r: seq<T>)
    requires i <= |s|
    ensures |r| == |s| + 1 && r[i] == x
    ensures r[..i] == s[..i] && r[i + 1..] == s[i..]
  {
    s[..i] + [x] + s[i..]
  }

  /** `s.insert(s.index(anchor), x)`: `x` placed directly in front of the
      first occurrence of `anchor`, or `None` where `index` raises. */
  function InsertBefore<T(==)>(s: seq<T>, anchor: T, x: T): (r: Option<seq<T>>)
    ensures r.None? <==> anchor !in s
    ensures r.Some? ==> |r.value| == |s| + 1 && x in r.value
  {
    match IndexOf(s, anchor)
    case None => None
    case Some(i) => Some(InsertAt(s, i, x))
  }

  /** Splicing adds `x` and keeps every element that was there. */
  lemma InsertBeforeMembers<T>(s: seq<T>, anchor: T, x: T, y: T)
    requires anchor in s
    ensures InsertBefore(s, anchor, x).Some?
    ensures y in InsertBefore(s, anchor, x).value <==> y in s || y == x
  {
    var i := IndexOf(s, anchor).value;
    assert s == s[..i] + s[i..];
    assert InsertBefore(s, anchor, x).value == s[..i] + [x] + s[i..];
  }

  /** Inserting `x` in front of the first occurrence of `anchor`: the result
      is one longer, `x` is directly followed by the anchor, everything before
      the anchor keeps its position, the rest moves up by one, and, when `x`
      is not itself the anchor, the anchor's first occurrence moves up by
      one. */
  lemma InsertBeforeAnchor<T>(s: seq<T>, anchor: T, x: T)
    requires anchor in s
    ensures InsertBefore(s, anchor, x).Some?
    ensures var i := IndexOf(s, anchor).value;
            var r := InsertBefore(s, anchor, x).value;
            && |r| == |s| + 1
            && r[i] == x && r[i + 1] == anchor
            && r[..i] == s[..i]
            && r[i + 1..] == s[i..]
            && (x != anchor ==> IndexOf(r, anchor) == Some(i + 1))
  {
    var i := IndexOf(s, anchor).value;
    var r := InsertAt(s, i, x);
    assert InsertBefore(s, anchor, x) == Some(r);
    assert r[i + 1] == r[i + 1..][0];
    if x != anchor {
      assert r[..i + 1] == s[..i] + [x];
      assert anchor !in r[..i + 1];
    }
  }

  /** Splicing in front of an anchor whose first occurrence follows the
      prefix `p`. */
  lemma InsertBeforeAfterPrefix<T>(p: seq<T>, anchor: T, q: seq<T>, x: T)
    requires anchor !in p
    ensures InsertBefore(p + [anchor] + q, anchor, x) == Some(p + [x] + [anchor] + q)
  {
    var s := p + [anchor] + q;
    assert s[..|p|] == p;
    assert s[|p|..] == [anchor] + q;
    IndexOfFirst(s, anchor, |p|);
    assert InsertBefore(s, anchor, x) == Some(InsertAt(s, |p|, x));
    assert InsertAt(s, |p|, x) == p + [x] + ([anchor] + q);
    assert p + [x] + ([anchor] + q) == p + [x] + [anchor] + q;
  }

  /** Cutting `s` around position `j`, after inserting `x1` at `i < j`. */
  lemma CutAfterInsert<T>(s: seq<T>, i: nat, j: nat, x1: T)
    requires i < j < |s|
    ensures InsertAt(s, i, x1) == (s[..i] + [x1] + s[i..j]) + [s[j]] + s[j + 1..]
  {
    assert s[i..] == s[i..j] + [s[j]] + s[j + 1..];
  }

  /** Cutting `s` around position `j`, after inserting `x1` at `i > j`. */
  lemma CutBeforeInsert<T>(s: seq<T>, i: nat, j: nat, x1: T)
    requires j < i <= |s|
    ensures InsertAt(s, i, x1) == s[..j] + [s[j]] + (s[j + 1..i] + [x1] + s[i..])
  {
    assert s[..i] == s[..j] + [s[j]] + s[j + 1..i];
  }

  /** The second anchor lies after the first: after inserting `x1` at `i`,
      the second anchor is found one place further up. */
  lemma SpliceSecondAnchorAfter<T>(s: seq<T>, i: nat, j: nat, x1: T, a2: T, x2: T)
    requires i < j < |s| && s[j] == a2 && a2 !in s[..j] && x1 != a2
    ensures InsertBefore(InsertAt(s, i, x1), a2, x2) == Some(s[..i] + [x1] + s[i..j] + [x2] + s[j..])
  {
    var p := s[..i] + [x1] + s[i..j];
    var q := s[j + 1..];
    CutAfterInsert(s, i, j, x1);
    assert a2 !in p by {
      assert s[..j] == s[..i] + s[i..j];
    }
    InsertBeforeAfterPrefix(p, a2, q, x2);
    assert p + [x2] + [a2] + q == s[..i] + [x1] + s[i..j] + [x2] + s[j..] by {
      assert s[j..] == [a2] + q;
    }
  }

  /** The second anchor lies before the first: its first occurrence is not
      moved by inserting `x1` at `i`. */
  lemma SpliceSecondAnchorBefore<T>(s: seq<T>, i: nat, j: nat, x1: T, a2: T, x2: T)
    requires j < i <= |s| && s[j] == a2 && a2 !in s[..j]
    ensures InsertBefore(InsertAt(s, i, x1), a2, x2) == Some(s[..j] + [x2] + s[j..i] + [x1] + s[i..])
  {
    CutBeforeInsert(s, i, j, x1);
    InsertBeforeAfterPrefix(s[..j], a2, s[j + 1..i] + [x1] + s[i..], x2);
    RegroupBefore(s, i, j, x1, x2);
  }

  /** Regrouping the result of the second splice when it lands before the
      first one. */
  lemma RegroupBefore<T>(s: seq<T>, i: nat, j: nat, x1: T, x2: T)
    requires j < i <= |s|
    ensures s[..j] + [x2] + [s[j]] + (s[j + 1..i] + [x1] + s[i..]) == s[..j] + [x2] + s[j..i] + [x1] + s[i..]
  {
    var p, m, t := s[..j], s[j + 1..i], s[i..];
    assert s[j..i] == [s[j]] + m;
    assert p + [x2] + [s[j]] + (m + [x1] + t) == p + [x2] + ([s[j]] + m) + [x1] + t;
  }

  /** Two splices, each in front of its own anchor, the second anchor searched
      for in the list after the first insertion (as Python does). Nothing of
      `s` is dropped or reordered: the result is `s` cut at the two anchor
      positions with the two keys placed in the cuts. */
  lemma SpliceTwice<T>(s: seq<T>, a1: T, x1: T, a2: T, x2: T)
    requires a1 in s && a2 in s && a1 != a2 && x1 != a2
    ensures InsertBefore(s, a1, x1).Some?
    ensures var i := IndexOf(s, a1).value;
            var j := IndexOf(s, a2).value;
            InsertBefore(InsertBefore(s, a1, x1).value, a2, x2) ==
              if i < j then Some(s[..i] + [x1] + s[i..j] + [x2] + s[j..])
              else Some(s[..j] + [x2] + s[j..i] + [x1] + s[i..])
  {
    var i := IndexOf(s, a1).value;
    var j := IndexOf(s, a2).value;
    assert i != j by { assert s[i] == a1 && s[j] == a2; }
    assert InsertBefore(s, a1, x1) == Some(InsertAt(s, i, x1));
    if i < j {
      SpliceSecondAnchorAfter(s, i, j, x1, a2, x2);
    } else {
      SpliceSecondAnchorBefore(s, i, j, x1, a2, x2);
    }
  }
}
