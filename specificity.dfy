/**
 * The specificity comparator (`compareByPathSegments`). Entries are ordered
 * by the kind vector of their segments (literal or parameter at each
 * position): more segments first, then more literals first, then, at the
 * first position where the kinds differ, the entry with the PARAMETER there
 * first. The source comment says the opposite for that last rule; the code
 * returns 1 ("a after b") when `a` holds the literal, and that is modelled.
 */
module Specificity {
  import opened Template

  /** The kind vector of a segment list: `true` marks a literal, `false` a parameter. */
  function Kinds(segs: seq<Segment>): (k: seq<bool>)
    ensures |k| == |segs|
    ensures forall i :: 0 <= i < |segs| ==> k[i] == segs[i].Literal?
  {
    seq(|segs|, i requires 0 <= i < |segs| => segs[i].Literal?)
  }

  /** The number of `true` entries. */
  function Count(k: seq<bool>): nat
  {
    if |k| == 0 then 0 else (if k[0] then 1 else 0) + Count(k[1..])
  }

  /** The number of literal segments (src/index.ts:255-256). */
  function LiteralCount(segs: seq<Segment>): nat
  {
    Count(Kinds(segs))
  }

  /** Scanning from the left, the first position where the vectors differ has `false` in `k1`. */
  predicate ParamFirst(k1: seq<bool>, k2: seq<bool>)
    decreases |k1|
  {
    && |k1| > 0 && |k2| > 0
    && ((!k1[0] && k2[0]) || (k1[0] == k2[0] && ParamFirst(k1[1..], k2[1..])))
  }

  /** The sort key of the comparator as a strict order on kind vectors. */
  predicate KeyBefore(k1: seq<bool>, k2: seq<bool>)
  {
    || |k1| > |k2|
    || (|k1| == |k2| && Count(k1) > Count(k2))
    || (|k1| == |k2| && Count(k1) == Count(k2) && ParamFirst(k1, k2))
  }

  /** Segment list `a` is tried before segment list `b`. */
  predicate Precedes(a: seq<Segment>, b: seq<Segment>)
  {
    KeyBefore(Kinds(a), Kinds(b))
  }

  /** The recursive `ParamFirst` is the lexicographic rule: a common prefix, then `false` against `true`. */
  lemma {:induction false} ParamFirstAt(k1: seq<bool>, k2: seq<bool>)
    ensures ParamFirst(k1, k2) <==>
      exists i :: 0 <= i < |k1| && i < |k2| && k1[..i] == k2[..i] && !k1[i] && k2[i]
    decreases |k1|
  {
    if |k1| > 0 && |k2| > 0 {
      ParamFirstAt(k1[1..], k2[1..]);
      if ParamFirst(k1, k2) {
        if !(!k1[0] && k2[0]) {
          var i :| 0 <= i < |k1[1..]| && i < |k2[1..]| && k1[1..][..i] == k2[1..][..i] && !k1[1..][i] && k2[1..][i];
          assert k1[..i + 1] == [k1[0]] + k1[1..][..i];
          assert k2[..i + 1] == [k2[0]] + k2[1..][..i];
          assert k1[i + 1] == k1[1..][i] && k2[i + 1] == k2[1..][i];
        } else {
          assert k1[..0] == k2[..0];
        }
      } else {
        forall i | 0 <= i < |k1| && i < |k2| && k1[..i] == k2[..i]
          ensures !(!k1[i] && k2[i])
        {
          if i > 0 {
            assert k1[0] == k1[..i][0] && k2[0] == k2[..i][0];
            assert k1[1..][..i - 1] == k1[..i][1..];
            assert k2[1..][..i - 1] == k2[..i][1..];
            assert k1[1..][i - 1] == k1[i] && k2[1..][i - 1] == k2[i];
          }
        }
      }
    }
  }

  lemma {:induction false} ParamFirstAsymmetric(k1: seq<bool>, k2: seq<bool>)
    ensures ParamFirst(k1, k2) ==> !ParamFirst(k2, k1)
    decreases |k1|
  {
    if |k1| > 0 && |k2| > 0 {
      ParamFirstAsymmetric(k1[1..], k2[1..]);
    }
  }

  lemma {:induction false} ParamFirstTransitive(k1: seq<bool>, k2: seq<bool>, k3: seq<bool>)
    requires ParamFirst(k1, k2) && ParamFirst(k2, k3)
    ensures ParamFirst(k1, k3)
    decreases |k1|
  {
    if k1[0] == k2[0] && k2[0] == k3[0] {
      ParamFirstTransitive(k1[1..], k2[1..], k3[1..]);
    }
  }

  /** Two different vectors of equal length are ordered one way or the other. */
  lemma {:induction false} ParamFirstTotal(k1: seq<bool>, k2: seq<bool>)
    requires |k1| == |k2| && k1 != k2
    ensures ParamFirst(k1, k2) || ParamFirst(k2, k1)
    decreases |k1|
  {
    if k1[0] == k2[0] {
      assert k1 == [k1[0]] + k1[1..] && k2 == [k2[0]] + k2[1..];
      ParamFirstTotal(k1[1..], k2[1..]);
    }
  }

  /** The comparator's key is a strict weak order whose ties are the lists with equal kind vectors. */
  lemma PrecedesIrreflexive(a: seq<Segment>, b: seq<Segment>)
    requires Kinds(a) == Kinds(b)
    ensures !Precedes(a, b)
  {
    ParamFirstAsymmetric(Kinds(a), Kinds(a));
  }

  lemma PrecedesAsymmetric(a: seq<Segment>, b: seq<Segment>)
    requires Precedes(a, b)
    ensures !Precedes(b, a)
  {
    ParamFirstAsymmetric(Kinds(a), Kinds(b));
  }

  lemma PrecedesTransitive(a: seq<Segment>, b: seq<Segment>, c: seq<Segment>)
    requires Precedes(a, b) && Precedes(b, c)
    ensures Precedes(a, c)
  {
    var ka, kb, kc := Kinds(a), Kinds(b), Kinds(c);
    if |ka| == |kb| == |kc| && Count(ka) == Count(kb) == Count(kc) {
      ParamFirstTransitive(ka, kb, kc);
    }
  }

  /** Exactly one of: `a` first, a tie, `b` first. */
  lemma PrecedesTrichotomy(a: seq<Segment>, b: seq<Segment>)
    ensures Precedes(a, b) || Kinds(a) == Kinds(b) || Precedes(b, a)
    ensures Precedes(a, b) ==> Kinds(a) != Kinds(b) && !Precedes(b, a)
    ensures Kinds(a) == Kinds(b) ==> !Precedes(a, b) && !Precedes(b, a)
  {
    var ka, kb := Kinds(a), Kinds(b);
    ParamFirstAsymmetric(ka, kb);
    ParamFirstAsymmetric(ka, ka);
    if |ka| == |kb| && ka != kb {
      ParamFirstTotal(ka, kb);
    }
  }

  /** If `a` goes before `c`, then any `b` goes after `a` or before `c`. */
  lemma PrecedesSplit(a: seq<Segment>, b: seq<Segment>, c: seq<Segment>)
    requires Precedes(a, c)
    ensures Precedes(a, b) || Precedes(b, c)
  {
    PrecedesTrichotomy(a, b);
    if Precedes(b, a) {
      PrecedesTransitive(b, a, c);
    }
  }

  /**
   * `compareByPathSegments`: the length difference when the lengths differ,
   * then the literal-count difference, then -1, 0 or 1 from the first
   * position where the kinds differ. Its sign is the sort key's verdict.
   */
  method CompareByPathSegments(a: seq<Segment>, b: seq<Segment>) returns (r: int)
    ensures |a| != |b| ==> r == |b| - |a|
    ensures |a| == |b| && LiteralCount(a) != LiteralCount(b) ==> r == LiteralCount(b) - LiteralCount(a)
    ensures |a| == |b| && LiteralCount(a) == LiteralCount(b) ==> -1 <= r <= 1
    ensures r < 0 <==> Precedes(a, b)
    ensures r > 0 <==> Precedes(b, a)
    ensures r == 0 <==> Kinds(a) == Kinds(b)
  {
    if |a| != |b| {
      return |b| - |a|;
    }
    var aStrLen: int := LiteralCount(a);
    var bStrLen: int := LiteralCount(b);
    if aStrLen != bStrLen {
      return bStrLen - aStrLen;
    }
    ghost var ka, kb := Kinds(a), Kinds(b);
    ParamFirstAsymmetric(ka, kb);
    for i := 0 to |a|
      invariant ka[..i] == kb[..i]
    {
      if a[i].Literal? && b[i].Literal? {
        continue;
      }
      if a[i].Literal? {
        ParamFirstAt(kb, ka);
        return 1;
      }
      if b[i].Literal? {
        ParamFirstAt(ka, kb);
        return -1;
      }
    }
    assert ka == ka[..|a|];
    PrecedesIrreflexive(a, b);
    PrecedesIrreflexive(b, a);
    return 0;
  }
}
