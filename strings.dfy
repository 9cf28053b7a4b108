/**
 * The string primitives the router relies on: `split("/")` as JavaScript
 * defines it, the `filter(Boolean)` that drops empty pieces, and the
 * lower-casing of request methods.
 */
module Strings {

  /** `s.split(sep)`: every piece between separators, empty ones included. */
  function Split(s: string, sep: char): (r: seq<string>)
    ensures |r| >= 1
    ensures forall i :: 0 <= i < |r| ==> sep !in r[i]
    decreases |s|
  {
    if |s| == 0 then [""]
    else
      var rest := Split(s[1..], sep);
      if s[0] == sep then [""] + rest
      else [[s[0]] + rest[0]] + rest[1..]
  }

  /** The pieces glued back together with `sep` between neighbours. */
  function Join(ps: seq<string>, sep: char): string
  {
    if |ps| == 0 then ""
    else if |ps| == 1 then ps[0]
    else ps[0] + [sep] + Join(ps[1..], sep)
  }

  /** `filter(Boolean)` on an array of strings: the empty string is falsy. */
  function NonEmpty(ps: seq<string>): (r: seq<string>)
    ensures |r| <= |ps|
    ensures forall i :: 0 <= i < |r| ==> r[i] != "" && r[i] in ps
  {
    if |ps| == 0 then []
    else if ps[0] == "" then NonEmpty(ps[1..])
    else [ps[0]] + NonEmpty(ps[1..])
  }

  /** The non-empty `/`-pieces of a path, the way templates, base URLs and request paths are cut (src/index.ts:150, 235-236, 272). */
  function PathPieces(path: string): (r: seq<string>)
    ensures forall i :: 0 <= i < |r| ==> r[i] != "" && '/' !in r[i]
  {
    NonEmpty(Split(path, '/'))
  }

  /** Splitting forgets nothing: joining the pieces gives back the input. */
  lemma {:induction false} JoinSplit(s: string, sep: char)
    ensures Join(Split(s, sep), sep) == s
    decreases |s|
  {
    if |s| > 0 {
      JoinSplit(s[1..], sep);
      var rest := Split(s[1..], sep);
      if s[0] == sep {
        assert Split(s, sep) == [""] + rest;
        assert s == [s[0]] + s[1..];
      } else {
        var r := Split(s, sep);
        assert r[0] == [s[0]] + rest[0];
        assert r[1..] == rest[1..];
        if |rest| == 1 {
          assert Join(r, sep) == [s[0]] + rest[0];
        } else {
          assert Join(rest, sep) == rest[0] + [sep] + Join(rest[1..], sep);
          assert Join(r, sep) == r[0] + [sep] + Join(rest[1..], sep);
        }
        assert s == [s[0]] + s[1..];
      }
    }
  }

  /** Splitting at a separator splits the piece lists apart. */
  lemma {:induction false} SplitAround(a: string, sep: char, b: string)
    ensures Split(a + [sep] + b, sep) == Split(a, sep) + Split(b, sep)
    decreases |a|
  {
    var s := a + [sep] + b;
    if |a| == 0 {
      assert s[1..] == b;
    } else {
      assert s[1..] == a[1..] + [sep] + b;
      SplitAround(a[1..], sep, b);
    }
  }

  /** A separator-free word is a single piece. */
  lemma {:induction false} SplitWord(w: string, sep: char)
    requires sep !in w
    ensures Split(w, sep) == [w]
    decreases |w|
  {
    if |w| > 0 {
      SplitWord(w[1..], sep);
      assert w == [w[0]] + w[1..];
    }
  }

  /** Separator-free pieces survive a join followed by a split. */
  lemma {:induction false} SplitJoin(ps: seq<string>, sep: char)
    requires |ps| >= 1
    requires forall i :: 0 <= i < |ps| ==> sep !in ps[i]
    ensures Split(Join(ps, sep), sep) == ps
    decreases |ps|
  {
    if |ps| == 1 {
      SplitWord(ps[0], sep);
    } else {
      SplitJoin(ps[1..], sep);
      SplitAround(ps[0], sep, Join(ps[1..], sep));
      SplitWord(ps[0], sep);
      assert ps == [ps[0]] + ps[1..];
    }
  }

  lemma {:induction false} NonEmptyConcat(xs: seq<string>, ys: seq<string>)
    ensures NonEmpty(xs + ys) == NonEmpty(xs) + NonEmpty(ys)
    decreases |xs|
  {
    if |xs| == 0 {
      assert xs + ys == ys;
    } else {
      assert (xs + ys)[0] == xs[0];
      assert (xs + ys)[1..] == xs[1..] + ys;
      NonEmptyConcat(xs[1..], ys);
    }
  }

  lemma {:induction false} NonEmptyKeeps(ps: seq<string>)
    requires forall i :: 0 <= i < |ps| ==> ps[i] != ""
    ensures NonEmpty(ps) == ps
    decreases |ps|
  {
    if |ps| > 0 {
      NonEmptyKeeps(ps[1..]);
    }
  }

  /** A slash between two strings separates their pieces: `a/b` has the pieces of `a`, then those of `b`. */
  lemma PathPiecesAround(a: string, b: string)
    ensures PathPieces(a + "/" + b) == PathPieces(a) + PathPieces(b)
  {
    SplitAround(a, '/', b);
    NonEmptyConcat(Split(a, '/'), Split(b, '/'));
  }

  /** Leading, trailing and doubled slashes make no difference. */
  lemma PathPiecesSlashInsensitive(a: string, b: string)
    ensures PathPieces("/" + a) == PathPieces(a)
    ensures PathPieces(a + "/") == PathPieces(a)
    ensures PathPieces(a + "//" + b) == PathPieces(a + "/" + b)
  {
    PathPiecesAround("", a);
    assert "" + "/" + a == "/" + a;
    PathPiecesAround(a, "");
    assert a + "/" + "" == a + "/";
    PathPiecesAround(a, "/" + b);
    assert a + "/" + ("/" + b) == a + "//" + b;
    PathPiecesAround("", b);
    assert "" + "/" + b == "/" + b;
    PathPiecesAround(a, b);
  }

  /** Non-empty, slash-free pieces joined with `/` split back into themselves. */
  lemma PathPiecesJoin(ps: seq<string>)
    requires forall i :: 0 <= i < |ps| ==> ps[i] != "" && '/' !in ps[i]
    ensures PathPieces(Join(ps, '/')) == ps
  {
    if |ps| >= 1 {
      SplitJoin(ps, '/');
      NonEmptyKeeps(ps);
    }
  }

  /** An absolute path written from non-empty, slash-free pieces has exactly those pieces. */
  lemma PathPiecesAbsolute(ps: seq<string>)
    requires forall i :: 0 <= i < |ps| ==> ps[i] != "" && '/' !in ps[i]
    ensures PathPieces("/" + Join(ps, '/')) == ps
  {
    PathPiecesSlashInsensitive(Join(ps, '/'), "");
    PathPiecesJoin(ps);
  }

  /** `toLowerCase` on the ASCII letters; every other character is kept. */
  function LowerChar(c: char): (d: char)
  {
    if 'A' <= c <= 'Z' then (c as int - 'A' as int + 'a' as int) as char else c
  }

  function Lower(s: string): (r: string)
    ensures |r| == |s|
  {
    seq(|s|, i requires 0 <= i < |s| => LowerChar(s[i]))
  }
}
