/**
 * The piece of JavaScript's string library the admin page relies on:
 * `s.split(sep)` for a one-character separator, and `pop()` on the
 * resulting array, which yields its last element.
 */
module JsText {

  /** `s.split(sep)`: the pieces of `s` between occurrences of `sep`, in order.
      The array is never empty, so `pop()` on it always yields a string. */
  function Split(s: string, sep: char): (parts: seq<string>)
    ensures |parts| >= 1
  {
    if s == [] then [""]
    else
      var rest := Split(s[1..], sep);
      if s[0] == sep then [""] + rest
      else [[s[0]] + rest[0]] + rest[1..]
  }

  /** `parts.join(sep)`: the inverse of `Split`. */
  function Join(parts: seq<string>, sep: char): string
    requires |parts| >= 1
  {
    if |parts| == 1 then parts[0] else parts[0] + [sep] + Join(parts[1..], sep)
  }

  /** `xs.pop()` on a non-empty array: its last element, the one that removing it leaves out. */
  function Last<T>(xs: seq<T>): (x: T)
    requires |xs| >= 1
    ensures xs == xs[..|xs| - 1] + [x]
  {
    xs[|xs| - 1]
  }

  /** Joining the pieces back with the separator gives the original string. */
  lemma {:induction false} JoinSplit(s: string, sep: char)
    ensures Join(Split(s, sep), sep) == s
  {
    if s != [] {
      var rest := Split(s[1..], sep);
      JoinSplit(s[1..], sep);
      if s[0] == sep {
        assert ([""] + rest)[1..] == rest;
      } else if |rest| > 1 {
        var parts := [[s[0]] + rest[0]] + rest[1..];
        assert parts[1..] == rest[1..];
        assert s == [s[0]] + s[1..];
      }
    }
  }

  /** No piece contains the separator. */
  lemma {:induction false} SplitPiecesAreFree(s: string, sep: char)
    ensures forall i :: 0 <= i < |Split(s, sep)| ==> sep !in Split(s, sep)[i]
  {
    if s != [] {
      SplitPiecesAreFree(s[1..], sep);
      var rest := Split(s[1..], sep);
      if s[0] != sep {
        assert sep !in [s[0]] + rest[0];
      }
    }
  }

  /** A string without the separator splits into itself alone. */
  lemma {:induction false} SplitWithoutSeparator(s: string, sep: char)
    requires sep !in s
    ensures Split(s, sep) == [s]
  {
    if s != [] {
      SplitWithoutSeparator(s[1..], sep);
      assert [s[0]] + s[1..] == s;
    }
  }

  /** Splitting a string that starts with a given character. */
  lemma SplitCons(x: char, w: string, sep: char)
    ensures Split([x] + w, sep) ==
      if x == sep then [""] + Split(w, sep) else [[x] + Split(w, sep)[0]] + Split(w, sep)[1..]
  {
    assert ([x] + w)[1..] == w;
  }

  /** Piece-list arithmetic behind `SplitAtSeparator`: extending the first piece commutes with appending pieces. */
  lemma ExtendFirstPiece(x: char, left: seq<string>, right: seq<string>)
    requires |left| >= 1
    ensures [[x] + (left + right)[0]] + (left + right)[1..] == ([[x] + left[0]] + left[1..]) + right
  {
    assert (left + right)[0] == left[0];
    assert (left + right)[1..] == left[1..] + right;
  }

  /** Text arithmetic behind `SplitAtSeparator`, kept apart from `Split` so that it stays cheap. */
  lemma PeelFirst(u: string, t: string, sep: char)
    ensures u == [] ==> u + [sep] + t == [sep] + t
    ensures u != [] ==> u == [u[0]] + u[1..] && u + [sep] + t == [u[0]] + (u[1..] + [sep] + t)
  {
  }

  /** The inductive step of `SplitAtSeparator`: putting a character in front of `w` keeps the law. */
  lemma SplitAtSeparatorStep(x: char, w: string, t: string, sep: char)
    requires Split(w + [sep] + t, sep) == Split(w, sep) + Split(t, sep)
    ensures Split([x] + (w + [sep] + t), sep) == Split([x] + w, sep) + Split(t, sep)
  {
    SplitCons(x, w + [sep] + t, sep);
    SplitCons(x, w, sep);
    if x == sep {
      assert [""] + (Split(w, sep) + Split(t, sep)) == ([""] + Split(w, sep)) + Split(t, sep);
    } else {
      ExtendFirstPiece(x, Split(w, sep), Split(t, sep));
    }
  }

  /** Splitting at one occurrence of the separator concatenates the pieces of either side. */
  lemma {:induction false} SplitAtSeparator(u: string, t: string, sep: char)
    ensures Split(u + [sep] + t, sep) == Split(u, sep) + Split(t, sep)
  {
    PeelFirst(u, t, sep);
    if u == [] {
      SplitCons(sep, t, sep);
    } else {
      SplitAtSeparator(u[1..], t, sep);
      SplitAtSeparatorStep(u[0], u[1..], t, sep);
    }
  }

  /** Joining peels off the last piece after a separator. */
  lemma {:induction false} JoinLast(parts: seq<string>, sep: char)
    requires |parts| >= 2
    ensures Join(parts, sep) == Join(parts[..|parts| - 1], sep) + [sep] + Last(parts)
  {
    if |parts| > 2 {
      JoinLast(parts[1..], sep);
      assert parts[1..][..|parts| - 2] == parts[..|parts| - 1][1..];
    }
  }
}
