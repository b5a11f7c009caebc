/**
 * The Python `str` operations the bot relies on: `split`, `strip` and
 * `lower`, as functions on `seq<char>`, with the facts the rest of the model
 * needs about them.
 */
module Strings {

  /** Python's `str.isspace()` for one character: the characters `str.strip()` removes. */
  predicate IsSpace(c: char)
  {
    c == ' ' || ('\t' <= c <= '\r') || ('\U{1C}' <= c <= '\U{1F}') ||
    c == '\U{85}' || c == '\U{A0}' || c == '\U{1680}' ||
    ('\U{2000}' <= c <= '\U{200A}') || c == '\U{2028}' || c == '\U{2029}' ||
    c == '\U{202F}' || c == '\U{205F}' || c == '\U{3000}'
  }

  predicate IsUpper(c: char)
  {
    'A' <= c <= 'Z'
  }

  /** `c.lower()` on the ASCII letters. */
  function LowerChar(c: char): (r: char)
    ensures !IsUpper(r)
    ensures IsSpace(r) <==> IsSpace(c)
    ensures !IsUpper(c) ==> r == c
  {
    if IsUpper(c) then (c as int + 32) as char else c
  }

  /** `s.lower()`. */
  function Lower(s: string): (r: string)
  {
    seq(|s|, i requires 0 <= i < |s| => LowerChar(s[i]))
  }

  /** `s.lstrip()`: drops the leading whitespace and nothing else. */
  function LStrip(s: string): (r: string)
    ensures |r| <= |s| && r == s[|s| - |r|..]
    ensures r == [] || !IsSpace(r[0])
    ensures forall i :: 0 <= i < |s| - |r| ==> IsSpace(s[i])
    decreases |s|
  {
    if s != [] && IsSpace(s[0]) then LStrip(s[1..]) else s
  }

  /** `s.rstrip()`: drops the trailing whitespace and nothing else. */
  function RStrip(s: string): (r: string)
    ensures |r| <= |s| && r == s[..|r|]
    ensures r == [] || !IsSpace(r[|r| - 1])
    ensures forall i :: |r| <= i < |s| ==> IsSpace(s[i])
    decreases |s|
  {
    if s != [] && IsSpace(s[|s| - 1]) then RStrip(s[..|s| - 1]) else s
  }

  /** `s.strip()`. */
  function Strip(s: string): string
  {
    RStrip(LStrip(s))
  }

  /** `s.split(sep)`: the pieces between the occurrences of `sep`, never an empty list. */
  function Split(s: string, sep: char): (parts: seq<string>)
    ensures |parts| >= 1
    ensures sep in s <==> |parts| >= 2
    decreases |s|
  {
    if s == [] then [[]]
    else
      var rest := Split(s[1..], sep);
      if s[0] == sep then [[]] + rest
      else [[s[0]] + rest[0]] + rest[1..]
  }

  /** `sep.join(parts)`, the inverse of `Split`. */
  function Join(parts: seq<string>, sep: char): string
    requires |parts| >= 1
  {
    if |parts| == 1 then parts[0] else parts[0] + [sep] + Join(parts[1..], sep)
  }

  /** `Split` on a string given by its first character and the rest. */
  lemma SplitCons(c: char, t: string, sep: char)
    ensures Split([c] + t, sep) ==
      if c == sep then [[]] + Split(t, sep) else [[c] + Split(t, sep)[0]] + Split(t, sep)[1..]
  {
    assert ([c] + t)[0] == c && ([c] + t)[1..] == t;
  }

  lemma SplitConsSep(t: string, sep: char)
    ensures Split([sep] + t, sep) == [[]] + Split(t, sep)
  {
    SplitCons(sep, t, sep);
  }

  lemma SplitConsOther(c: char, t: string, sep: char)
    requires c != sep
    ensures Split([c] + t, sep) == [[c] + Split(t, sep)[0]] + Split(t, sep)[1..]
  {
    SplitCons(c, t, sep);
  }

  /** No piece contains the separator. */
  lemma {:induction false} SplitPiecesWithoutSep(s: string, sep: char, i: nat)
    requires i < |Split(s, sep)|
    ensures sep !in Split(s, sep)[i]
    decreases |s|
  {
    if s != [] {
      var c, t := s[0], s[1..];
      var x := Split(t, sep);
      if c == sep {
        assert Split(s, sep) == [[]] + x;
        if i > 0 {
          SplitPiecesWithoutSep(t, sep, i - 1);
          assert Split(s, sep)[i] == x[i - 1];
        }
      } else {
        assert Split(s, sep) == [[c] + x[0]] + x[1..];
        SplitPiecesWithoutSep(t, sep, i);
        if i > 0 {
          assert Split(s, sep)[i] == x[i];
        }
      }
    }
  }

  /** Without a separator there is a single piece, the whole string. */
  lemma {:induction false} SplitWithoutSep(s: string, sep: char)
    requires sep !in s
    ensures Split(s, sep) == [s]
    decreases |s|
  {
    if s != [] {
      SplitWithoutSep(s[1..], sep);
      assert s == [s[0]] + s[1..];
    }
  }

  lemma JoinExtendFirst(c: char, x: seq<string>, sep: char)
    requires |x| >= 1
    ensures Join([[c] + x[0]] + x[1..], sep) == [c] + Join(x, sep)
  {
    var y := [[c] + x[0]] + x[1..];
    assert y[0] == [c] + x[0] && y[1..] == x[1..];
  }

  lemma JoinEmptyFirst(x: seq<string>, sep: char)
    requires |x| >= 1
    ensures Join([[]] + x, sep) == [sep] + Join(x, sep)
  {
    var y := [[]] + x;
    assert y[0] == [] && y[1..] == x;
  }

  /** Splitting loses nothing: joining the pieces gives the string back. */
  lemma {:induction false} JoinSplit(s: string, sep: char)
    ensures Join(Split(s, sep), sep) == s
    decreases |s|
  {
    if s != [] {
      var t := s[1..];
      assert s == [s[0]] + t;
      JoinSplit(t, sep);
      SplitCons(s[0], t, sep);
      if s[0] == sep {
        JoinEmptyFirst(Split(t, sep), sep);
      } else {
        JoinExtendFirst(s[0], Split(t, sep), sep);
      }
    }
  }

  /** The sequence algebra behind `SplitConcat`: extending the first piece commutes with appending. */
  lemma ExtendFirstAppend(c: char, x: seq<string>, y: seq<string>)
    requires |x| >= 1
    ensures [[c] + (x + y)[0]] + (x + y)[1..] == ([[c] + x[0]] + x[1..]) + y
  {
    assert (x + y)[0] == x[0];
    assert (x + y)[1..] == x[1..] + y;
  }

  /** Putting one character in front of two strings whose splits differ by a common suffix. */
  lemma ConsKeepsSuffix(c: char, t: string, u: string, y: seq<string>, sep: char)
    requires Split(u, sep) == Split(t, sep) + y
    ensures Split([c] + u, sep) == Split([c] + t, sep) + y
  {
    var x, z := Split(t, sep), Split(u, sep);
    if c == sep {
      SplitConsSep(t, sep);
      SplitConsSep(u, sep);
      assert [[]] + z == ([[]] + x) + y;
    } else {
      SplitConsOther(c, t, sep);
      SplitConsOther(c, u, sep);
      ExtendFirstAppend(c, x, y);
    }
  }

  lemma {:induction false} SplitConcat(a: string, b: string, sep: char)
    ensures Split(a + [sep] + b, sep) == Split(a, sep) + Split(b, sep)
    decreases |a|
  {
    var s := a + [sep] + b;
    if a == [] {
      assert s == [sep] + b;
      SplitConsSep(b, sep);
    } else {
      var c, tail := a[0], a[1..];
      var u := tail + [sep] + b;
      assert s == [c] + u;
      assert a == [c] + tail;
      SplitConcat(tail, b, sep);
      ConsKeepsSuffix(c, tail, u, Split(b, sep), sep);
    }
  }

  /** Splitting undoes joining, as long as no piece contains the separator. */
  lemma {:induction false} SplitJoin(parts: seq<string>, sep: char)
    requires |parts| >= 1
    requires forall i :: 0 <= i < |parts| ==> sep !in parts[i]
    ensures Split(Join(parts, sep), sep) == parts
    decreases |parts|
  {
    var head := parts[0];
    SplitWithoutSep(head, sep);
    if |parts| > 1 {
      var tail := parts[1..];
      var joined := Join(tail, sep);
      assert Join(parts, sep) == head + [sep] + joined;
      SplitJoin(tail, sep);
      SplitConcat(head, joined, sep);
      assert parts == [head] + tail;
    }
  }

  /** A piece without the separator, followed by the separator or by the end, is the first piece. */
  lemma FirstPiece(piece: string, rest: string, sep: char)
    requires sep !in piece
    requires rest == [] || rest[0] == sep
    ensures Split(piece + rest, sep)[0] == piece
  {
    SplitWithoutSep(piece, sep);
    if rest == [] {
      assert piece + rest == piece;
    } else {
      assert piece + rest == piece + [sep] + rest[1..];
      SplitConcat(piece, rest[1..], sep);
    }
  }

  /** The piece after the first separator, followed by another separator or by the end. */
  lemma SecondPiece(first: string, second: string, rest: string, sep: char)
    requires sep !in first && sep !in second
    requires rest == [] || rest[0] == sep
    ensures |Split(first + [sep] + second + rest, sep)| >= 2
    ensures Split(first + [sep] + second + rest, sep)[1] == second
  {
    var tail := second + rest;
    assert first + [sep] + second + rest == first + [sep] + tail;
    SplitConcat(first, tail, sep);
    SplitWithoutSep(first, sep);
    FirstPiece(second, rest, sep);
  }

  /** The piece after the last separator. */
  lemma LastPiece(prefix: string, last: string, sep: char)
    requires sep !in last
    ensures var parts := Split(prefix + [sep] + last, sep); parts[|parts| - 1] == last
  {
    SplitConcat(prefix, last, sep);
    SplitWithoutSep(last, sep);
  }

  /** Lowering touches only the ASCII capitals, so a string without them is unchanged. */
  lemma LowerUnchanged(s: string)
    requires forall i :: 0 <= i < |s| ==> !IsUpper(s[i])
    ensures Lower(s) == s
  {
  }

  lemma LowerIdempotent(s: string)
    ensures Lower(Lower(s)) == Lower(s)
  {
  }

  /** Lowering neither adds nor removes a character that is not a letter. */
  lemma LowerKeeps(s: string, c: char)
    requires !IsUpper(c) && !('a' <= c <= 'z')
    ensures c in s <==> c in Lower(s)
  {
    if c in Lower(s) {
      var i :| 0 <= i < |s| && Lower(s)[i] == c;
      assert s[i] == c;
    }
    if c in s {
      var i :| 0 <= i < |s| && s[i] == c;
      assert Lower(s)[i] == c;
    }
  }

  /** Stripping a string leaves a slice of it. */
  lemma StripIsSlice(s: string)
    ensures exists i, j :: 0 <= i <= j <= |s| && Strip(s) == s[i..j]
  {
    var l := LStrip(s);
    var r := RStrip(l);
    var i := |s| - |l|;
    assert r == s[i..][..|r|] == s[i..i + |r|];
  }

  lemma StripKeepsOut(s: string, c: char)
    requires c !in s
    ensures c !in Strip(s)
  {
    StripIsSlice(s);
  }

  /** `s.strip()` is empty exactly when `s` is all whitespace: Python's `if l.strip()` test. */
  lemma StripEmptyIff(s: string)
    ensures Strip(s) == [] <==> forall i :: 0 <= i < |s| ==> IsSpace(s[i])
  {
  }

  lemma {:induction false} RStripOfLStripped(s: string)
    requires s == [] || !IsSpace(s[0])
    ensures var r := RStrip(s); r == [] || !IsSpace(r[0])
    decreases |s|
  {
    if s != [] && IsSpace(s[|s| - 1]) {
      RStripOfLStripped(s[..|s| - 1]);
    }
  }

  /** Stripping twice strips no more than once. */
  lemma StripIdempotent(s: string)
    ensures Strip(Strip(s)) == Strip(s)
  {
    var t := Strip(s);
    RStripOfLStripped(LStrip(s));
    assert LStrip(t) == t;
  }

  lemma {:induction false} LStripLower(s: string)
    ensures LStrip(Lower(s)) == Lower(LStrip(s))
    decreases |s|
  {
    if s != [] {
      assert Lower(s)[1..] == Lower(s[1..]);
      LStripLower(s[1..]);
    }
  }

  lemma {:induction false} RStripLower(s: string)
    ensures RStrip(Lower(s)) == Lower(RStrip(s))
    decreases |s|
  {
    if s != [] {
      assert Lower(s)[..|s| - 1] == Lower(s[..|s| - 1]);
      RStripLower(s[..|s| - 1]);
    }
  }

  /** Lowering never turns whitespace into text or back, so it commutes with stripping. */
  lemma LowerStripCommute(s: string)
    ensures Lower(Strip(s)) == Strip(Lower(s))
  {
    LStripLower(s);
    RStripLower(LStrip(s));
  }
}
