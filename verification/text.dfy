/** Strings as the script sees them: an optional value, the first index of a
    character, and Python's `str.split` on a one-character separator together
    with its inverse, `str.join`.
 */
module Text {

  datatype Option<+T> = None | Some(value: T)

  /** Position of the first occurrence of `c` in `s`. */
  function IndexOf(s: string, c: char): (i: nat)
    requires c in s
    ensures i < |s| && s[i] == c
    ensures forall j :: 0 <= j < i ==> s[j] != c
  {
    if s[0] == c then 0
    else 1 + IndexOf(s[1..], c)
  }

  /** A position holding `c` with no `c` before it is the first index of `c`. */
  lemma {:induction false} IndexOfFirst(s: string, c: char, k: nat)
    requires k < |s| && s[k] == c
    requires forall j :: 0 <= j < k ==> s[j] != c
    ensures IndexOf(s, c) == k
  {
    if k > 0 {
      IndexOfFirst(s[1..], c, k - 1);
    }
  }

  /** `s.split(sep)`: the maximal separator-free pieces of `s`, in order.
      There is always at least one piece; an empty `s` gives `[""]`. */
  function Split(s: string, sep: char): (parts: seq<string>)
    ensures |parts| >= 1
    ensures forall i :: 0 <= i < |parts| ==> sep !in parts[i]
    ensures |parts| == 1 <==> sep !in s
    ensures |parts[0]| <= |s| && s[..|parts[0]|] == parts[0]
    ensures |parts[0]| == |s| || s[|parts[0]|] == sep
  {
    if |s| == 0 then [""]
    else
      var rest := Split(s[1..], sep);
      if s[0] == sep then
        assert s[..0] == "";
        [""] + rest
      else
        assert s[..1 + |rest[0]|] == [s[0]] + s[1..][..|rest[0]|];
        [[s[0]] + rest[0]] + rest[1..]
  }

  /** `sep.join(parts)`. */
  function Join(parts: seq<string>, sep: char): string
  {
    if |parts| == 0 then ""
    else if |parts| == 1 then parts[0]
    else parts[0] + [sep] + Join(parts[1..], sep)
  }

  /** Putting a piece in front of a join. */
  lemma JoinCons(piece: string, parts: seq<string>, sep: char)
    requires |parts| >= 1
    ensures Join([piece] + parts, sep) == piece + [sep] + Join(parts, sep)
  {
    assert ([piece] + parts)[1..] == parts;
  }

  /** Joining the pieces of a split gives back the original text. */
  lemma {:induction false} JoinSplit(s: string, sep: char)
    ensures Join(Split(s, sep), sep) == s
  {
    if |s| > 0 {
      assert s == [s[0]] + s[1..];
      JoinSplit(s[1..], sep);
      if s[0] == sep {
        JoinSplitSep(s[1..], sep);
      } else {
        JoinSplitChar(s[0], s[1..], sep);
      }
    }
  }

  lemma JoinSplitSep(u: string, sep: char)
    requires Join(Split(u, sep), sep) == u
    ensures Join(Split([sep] + u, sep), sep) == [sep] + u
  {
    SplitAtSep(u, sep);
    JoinCons("", Split(u, sep), sep);
  }

  lemma JoinSplitChar(c: char, u: string, sep: char)
    requires c != sep
    requires Join(Split(u, sep), sep) == u
    ensures Join(Split([c] + u, sep), sep) == [c] + u
  {
    SplitCons(c, u, sep);
    JoinGrowFirst(c, Split(u, sep), sep);
  }

  /** Growing the first piece by a character grows the join by it. */
  lemma JoinGrowFirst(c: char, parts: seq<string>, sep: char)
    requires |parts| >= 1
    ensures Join([[c] + parts[0]] + parts[1..], sep) == [c] + Join(parts, sep)
  {
    var head := [c] + parts[0];
    if |parts| == 1 {
      assert [head] + parts[1..] == [head];
    } else {
      var tail := parts[1..];
      var j := Join(tail, sep);
      JoinCons(head, tail, sep);
      assert parts == [parts[0]] + tail;
      JoinCons(parts[0], tail, sep);
      assert [c] + (parts[0] + [sep] + j) == head + [sep] + j;
    }
  }

  /** Splitting a text that starts with an ordinary character. */
  lemma SplitCons(c: char, u: string, sep: char)
    requires c != sep
    ensures Split([c] + u, sep) == [[c] + Split(u, sep)[0]] + Split(u, sep)[1..]
  {
    assert ([c] + u)[1..] == u;
  }

  /** Splitting a text that starts with the separator. */
  lemma SplitAtSep(u: string, sep: char)
    ensures Split([sep] + u, sep) == [""] + Split(u, sep)
  {
    assert ([sep] + u)[1..] == u;
  }

  /** A separator-free piece followed by the separator splits off as the
      first piece. */
  lemma {:induction false} SplitAfterPiece(piece: string, t: string, sep: char)
    requires sep !in piece
    ensures Split(piece + [sep] + t, sep) == [piece] + Split(t, sep)
  {
    if |piece| == 0 {
      assert piece + [sep] + t == [sep] + t;
      SplitAtSep(t, sep);
    } else {
      var u := piece[1..] + [sep] + t;
      assert piece + [sep] + t == [piece[0]] + u;
      SplitAfterPiece(piece[1..], t, sep);
      var rest := Split(u, sep);
      assert rest[0] == piece[1..] && rest[1..] == Split(t, sep);
      SplitCons(piece[0], u, sep);
      assert [piece[0]] + piece[1..] == piece;
    }
  }

  /** A separator-free text is a single piece. */
  lemma {:induction false} SplitWhole(s: string, sep: char)
    requires sep !in s
    ensures Split(s, sep) == [s]
  {
    if |s| > 0 {
      assert s[0] != sep;
      assert sep !in s[1..];
      SplitWhole(s[1..], sep);
      assert s == [s[0]] + s[1..];
    }
  }

  /** Splitting a join of separator-free pieces gives back the pieces. */
  lemma {:induction false} SplitJoin(parts: seq<string>, sep: char)
    requires |parts| >= 1
    requires forall i :: 0 <= i < |parts| ==> sep !in parts[i]
    ensures Split(Join(parts, sep), sep) == parts
  {
    if |parts| == 1 {
      SplitWhole(parts[0], sep);
    } else {
      SplitJoin(parts[1..], sep);
      SplitAfterPiece(parts[0], Join(parts[1..], sep), sep);
      assert parts == [parts[0]] + parts[1..];
    }
  }

  /** The pieces after the first are the pieces of the text after the first
      separator. */
  lemma {:induction false} SplitAfterFirst(s: string, sep: char)
    requires sep in s
    ensures Split(s, sep)[1..] == Split(s[IndexOf(s, sep) + 1..], sep)
  {
    if s[0] != sep {
      assert sep in s[1..] by {
        var k :| 0 <= k < |s| && s[k] == sep;
        assert s[1..][k - 1] == sep;
      }
      SplitAfterFirst(s[1..], sep);
      assert s[1..][IndexOf(s[1..], sep) + 1..] == s[IndexOf(s, sep) + 1..];
    }
  }

  /** The first piece of the text from `start` on, located in the whole text. */
  lemma FirstPieceFrom(s: string, start: nat, sep: char)
    requires start <= |s|
    ensures var d := Split(s[start..], sep)[0];
      && start + |d| <= |s|
      && s[start..start + |d|] == d
      && (start + |d| == |s| || s[start + |d|] == sep)
  {
    var t := s[start..];
    var d := Split(t, sep)[0];
    assert s[start..start + |d|] == t[..|d|];
    if start + |d| < |s| {
      assert s[start + |d|] == t[|d|];
    }
  }
}
