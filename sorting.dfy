/**
 * Sorting the resolved entries with `compareByPathSegments`. The engine's
 * `Array.prototype.sort` is stable (required since ES2019); the model sorts
 * the array in place by insertion, and the lemmas show that the result is
 * ordered by the comparator's key, is a permutation of the input, keeps tied
 * entries in declaration order, and is the only sequence that does all this,
 * so every stable sort yields the same table.
 */
module Sorting {
  import opened Routes
  import opened Specificity

  /** No entry is strictly more specific than an entry in front of it. */
  ghost predicate Sorted(t: seq<Entry>)
  {
    forall i, j :: 0 <= i < j < |t| ==> !Precedes(t[j].segments, t[i].segments)
  }

  /** The entries whose kind vector is `k`, in their order: one class of tied entries. */
  function Filter(t: seq<Entry>, k: seq<bool>): seq<Entry>
  {
    if |t| == 0 then []
    else (if Kinds(t[0].segments) == k then [t[0]] else []) + Filter(t[1..], k)
  }

  /** Put `x` behind every entry it does not strictly precede, scanning from the back. */
  function Insert(t: seq<Entry>, x: Entry): seq<Entry>
    decreases |t|
  {
    if |t| == 0 then [x]
    else if Precedes(x.segments, t[|t| - 1].segments) then Insert(t[..|t| - 1], x) + [t[|t| - 1]]
    else t + [x]
  }

  /** Insertion of the entries one by one, in declaration order. */
  function Sort(s: seq<Entry>): seq<Entry>
    decreases |s|
  {
    if |s| == 0 then [] else Insert(Sort(s[..|s| - 1]), s[|s| - 1])
  }

  lemma {:induction false} FilterConcat(a: seq<Entry>, b: seq<Entry>, k: seq<bool>)
    ensures Filter(a + b, k) == Filter(a, k) + Filter(b, k)
    decreases |a|
  {
    if |a| == 0 {
      assert a + b == b;
    } else {
      assert (a + b)[0] == a[0];
      assert (a + b)[1..] == a[1..] + b;
      FilterConcat(a[1..], b, k);
    }
  }

  lemma {:induction false} FilterMember(t: seq<Entry>, k: seq<bool>, x: Entry)
    requires x in Filter(t, k)
    ensures x in t && Kinds(x.segments) == k
    decreases |t|
  {
    if x != t[0] || Kinds(t[0].segments) != k {
      FilterMember(t[1..], k, x);
    }
  }

  lemma {:induction false} InsertPermutes(t: seq<Entry>, x: Entry)
    ensures multiset(Insert(t, x)) == multiset(t) + multiset{x}
    decreases |t|
  {
    if |t| > 0 {
      var n := |t| - 1;
      assert t == t[..n] + [t[n]];
      if Precedes(x.segments, t[n].segments) {
        InsertPermutes(t[..n], x);
      }
    }
  }

  lemma {:induction false} InsertKeepsSorted(t: seq<Entry>, x: Entry)
    requires Sorted(t)
    ensures Sorted(Insert(t, x))
    decreases |t|
  {
    if |t| > 0 {
      var n := |t| - 1;
      var last := t[n];
      if Precedes(x.segments, last.segments) {
        var init := t[..n];
        InsertKeepsSorted(init, x);
        InsertPermutes(init, x);
        var u := Insert(init, x);
        var r := u + [last];
        forall i, j | 0 <= i < j < |r|
          ensures !Precedes(r[j].segments, r[i].segments)
        {
          if j == |u| {
            assert r[i] in multiset(u);
            if r[i] == x {
              PrecedesAsymmetric(x.segments, last.segments);
            } else {
              assert r[i] in multiset(init);
              var m :| 0 <= m < n && init[m] == r[i];
              assert t[m] == r[i];
            }
          } else {
            assert r[i] == u[i] && r[j] == u[j];
          }
        }
      } else {
        var r := t + [x];
        forall i, j | 0 <= i < j < |r|
          ensures !Precedes(r[j].segments, r[i].segments)
        {
          if j == |t| && i < n {
            if Precedes(x.segments, t[i].segments) {
              PrecedesSplit(x.segments, last.segments, t[i].segments);
            }
          }
        }
      }
    }
  }

  /** Inserting `x` appends it to its own class and leaves every other class alone. */
  lemma {:induction false} InsertFilters(t: seq<Entry>, x: Entry, k: seq<bool>)
    ensures Filter(Insert(t, x), k) == Filter(t, k) + (if Kinds(x.segments) == k then [x] else [])
    decreases |t|
  {
    if |t| == 0 {
      assert Filter([x], k) == (if Kinds(x.segments) == k then [x] else []) + Filter([], k);
    } else {
      var n := |t| - 1;
      var last := t[n];
      var init := t[..n];
      assert t == init + [last];
      FilterConcat(init, [last], k);
      assert Filter([last], k) == (if Kinds(last.segments) == k then [last] else []) + Filter([], k);
      var fx := (if Kinds(x.segments) == k then [x] else []);
      assert Filter([x], k) == fx + Filter([], k);
      if Precedes(x.segments, last.segments) {
        InsertFilters(init, x, k);
        FilterConcat(Insert(init, x), [last], k);
        PrecedesTrichotomy(x.segments, last.segments);
      } else {
        FilterConcat(t, [x], k);
      }
    }
  }

  /** The sorted table is ordered by the key, is a permutation of the input, and keeps ties in order. */
  lemma {:induction false} SortIsStableSort(s: seq<Entry>)
    ensures Sorted(Sort(s))
    ensures multiset(Sort(s)) == multiset(s)
    ensures forall k :: Filter(Sort(s), k) == Filter(s, k)
    decreases |s|
  {
    if |s| > 0 {
      var n := |s| - 1;
      var init := s[..n];
      assert s == init + [s[n]];
      SortIsStableSort(init);
      InsertKeepsSorted(Sort(init), s[n]);
      InsertPermutes(Sort(init), s[n]);
      forall k
        ensures Filter(Sort(s), k) == Filter(s, k)
      {
        InsertFilters(Sort(init), s[n], k);
        FilterConcat(init, [s[n]], k);
        assert Filter([s[n]], k) == (if Kinds(s[n].segments) == k then [s[n]] else []) + Filter([], k);
      }
    }
  }

  lemma FilterFront(t: seq<Entry>, k: seq<bool>)
    requires |t| > 0
    ensures Filter(t, k) == (if Kinds(t[0].segments) == k then [t[0]] else []) + Filter(t[1..], k)
  {
  }

  /** A non-empty sequence has a non-empty class: that of its first entry. */
  lemma NonEmptyHasClass(t: seq<Entry>)
    ensures |t| > 0 ==> Filter(t, Kinds(t[0].segments)) != []
  {
    if |t| > 0 {
      FilterFront(t, Kinds(t[0].segments));
    }
  }

  /** An entry heads its own class in a sequence it heads. */
  lemma FrontInOtherSequence(r1: seq<Entry>, r2: seq<Entry>)
    requires |r1| > 0
    requires forall k :: Filter(r1, k) == Filter(r2, k)
    ensures r1[0] in r2
  {
    var ka := Kinds(r1[0].segments);
    FilterFront(r1, ka);
    assert r1[0] in Filter(r2, ka);
    FilterMember(r2, ka, r1[0]);
  }

  /** Two sorted sequences with the same classes start with entries of the same class. */
  lemma SameFrontClass(r1: seq<Entry>, r2: seq<Entry>)
    requires |r1| > 0 && |r2| > 0
    requires Sorted(r1) && Sorted(r2)
    requires forall k :: Filter(r1, k) == Filter(r2, k)
    ensures Kinds(r1[0].segments) == Kinds(r2[0].segments)
  {
    var a, b := r1[0], r2[0];
    FrontInOtherSequence(r1, r2);
    FrontInOtherSequence(r2, r1);
    var j :| 0 <= j < |r2| && r2[j] == a;
    var i :| 0 <= i < |r1| && r1[i] == b;
    assert !Precedes(a.segments, b.segments) by {
      if j == 0 {
        PrecedesIrreflexive(a.segments, b.segments);
      }
    }
    assert !Precedes(b.segments, a.segments) by {
      if i == 0 {
        PrecedesIrreflexive(b.segments, a.segments);
      }
    }
    PrecedesTrichotomy(a.segments, b.segments);
  }

  /** Two sorted sequences with the same classes, class by class, are the same sequence. */
  lemma {:induction false} StableSortUnique(r1: seq<Entry>, r2: seq<Entry>)
    requires Sorted(r1) && Sorted(r2)
    requires forall k :: Filter(r1, k) == Filter(r2, k)
    ensures r1 == r2
    decreases |r1|
  {
    NonEmptyHasClass(r1);
    NonEmptyHasClass(r2);
    if |r1| == 0 || |r2| == 0 {
      return;
    }
    SameFrontClass(r1, r2);
    var ka := Kinds(r1[0].segments);
    FilterFront(r1, ka);
    FilterFront(r2, ka);
    assert r1[0] == Filter(r1, ka)[0] == Filter(r2, ka)[0] == r2[0];
    forall k
      ensures Filter(r1[1..], k) == Filter(r2[1..], k)
    {
      var h := if ka == k then [r1[0]] else [];
      FilterFront(r1, k);
      FilterFront(r2, k);
      assert Filter(r1[1..], k) == Filter(r1, k)[|h|..];
      assert Filter(r2[1..], k) == Filter(r2, k)[|h|..];
    }
    StableSortUnique(r1[1..], r2[1..]);
    assert r1 == [r1[0]] + r1[1..] && r2 == [r2[0]] + r2[1..];
  }

  /** The two ways `Insert` can stop scanning. */
  lemma InsertStops(p: seq<Entry>, j: nat, x: Entry)
    requires j <= |p|
    requires j == 0 || !Precedes(x.segments, p[j - 1].segments)
    ensures Insert(p[..j], x) == p[..j] + [x]
  {
  }

  /** One more step of the backward scan. */
  lemma InsertSteps(p: seq<Entry>, j: nat, x: Entry)
    requires 0 < j <= |p|
    requires Precedes(x.segments, p[j - 1].segments)
    ensures Insert(p[..j], x) + p[j..] == Insert(p[..j - 1], x) + p[j - 1..]
  {
    assert p[..j][..j - 1] == p[..j - 1];
    assert p[j - 1..] == [p[j - 1]] + p[j..];
  }

  /**
   * One pass of the insertion sort: the entry at `i` moves left past every
   * entry of the sorted prefix that it strictly precedes.
   */
  method InsertAt(a: array<Entry>, i: nat)
    requires i < a.Length
    modifies a
    ensures a[..i + 1] == Insert(old(a[..i]), old(a[i]))
    ensures a[i + 1..] == old(a[i + 1..])
  {
    ghost var p := a[..i];
    ghost var x := a[i];
    ghost var rest := a[i + 1..];
    assert p[..i] == p && p[i..] == [];
    assert a[..] == p[..i] + [x] + p[i..] + rest;
    var j := i;
    var moving := true;
    while j > 0 && moving
      invariant 0 <= j <= i
      invariant a[..] == p[..j] + [x] + p[j..] + rest
      invariant Insert(p, x) == Insert(p[..j], x) + p[j..]
      invariant !moving ==> j > 0 && !Precedes(x.segments, p[j - 1].segments)
      decreases j + (if moving then 1 else 0)
    {
      ghost var q := a[..];
      assert q[j - 1] == p[j - 1] && q[j] == x;
      var c := CompareByPathSegments(a[j - 1].segments, a[j].segments);
      if c > 0 {
        InsertSteps(p, j, x);
        a[j - 1], a[j] := a[j], a[j - 1];
        assert a[..] == q[j - 1 := x][j := p[j - 1]];
        ShiftRight(p, j, x, rest);
        j := j - 1;
      } else {
        moving := false;
      }
    }
    InsertStops(p, j, x);
    assert a[..i + 1] == (p[..j] + [x] + p[j..] + rest)[..i + 1] == p[..j] + [x] + p[j..];
    assert a[i + 1..] == rest;
  }

  /** Swapping `x` with its left neighbour moves the boundary one place left. */
  lemma ShiftRight(p: seq<Entry>, j: nat, x: Entry, rest: seq<Entry>)
    requires 0 < j <= |p|
    ensures (p[..j] + [x] + p[j..] + rest)[j - 1 := x][j := p[j - 1]] == p[..j - 1] + [x] + p[j - 1..] + rest
  {
    var q := p[..j] + [x] + p[j..] + rest;
    var r := p[..j - 1] + [x] + p[j - 1..] + rest;
    var q' := q[j - 1 := x][j := p[j - 1]];
    assert |q'| == |r|;
    forall k | 0 <= k < |r|
      ensures q'[k] == r[k]
    {
      if k < j - 1 {
        assert q'[k] == p[k] && r[k] == p[k];
      } else if k == j - 1 {
      } else if k == j {
        assert r[k] == p[j - 1];
      } else if k < |p| + 1 {
        assert q'[k] == p[k - 1] && r[k] == p[k - 1];
      } else {
        assert q'[k] == rest[k - |p| - 1] && r[k] == rest[k - |p| - 1];
      }
    }
  }

  /**
   * `entries.sort(compareByPathSegments)`: an in-place insertion sort that
   * moves each entry left past every entry the comparator puts after it.
   */
  method SortEntries(a: array<Entry>)
    modifies a
    ensures a[..] == Sort(old(a[..]))
  {
    ghost var s := a[..];
    for i := 0 to a.Length
      invariant a[..i] == Sort(s[..i])
      invariant a[i..] == s[i..]
    {
      assert a[i] == s[i];
      InsertAt(a, i);
      assert s[..i + 1][..i] == s[..i];
    }
    assert a[..a.Length] == a[..];
    assert s[..a.Length] == s;
  }
}
