/** The JavaScript string operations the models share, on strings as sequences of characters. */
module JsText {

  datatype Option<+T> = None | Some(value: T)

  datatype Result<+T, +E> = Ok(value: T) | Err(error: E)

  /** The characters removed by String.prototype.trim (white space and line terminators). */
  predicate IsSpace(c: char) {
    var n := c as int;
    9 <= n <= 13 || n == 0x20 || n == 0xA0 || n == 0x1680 || 0x2000 <= n <= 0x200A
    || n == 0x2028 || n == 0x2029 || n == 0x202F || n == 0x205F || n == 0x3000 || n == 0xFEFF
  }

  function TrimStart(s: string): string {
    if s != [] && IsSpace(s[0]) then TrimStart(s[1..]) else s
  }

  function TrimEnd(s: string): string {
    if s != [] && IsSpace(s[|s| - 1]) then TrimEnd(s[..|s| - 1]) else s
  }

  function Trim(s: string): string {
    TrimEnd(TrimStart(s))
  }

  predicate IsTrimmed(s: string) {
    s == [] || (!IsSpace(s[0]) && !IsSpace(s[|s| - 1]))
  }

  lemma {:induction false} TrimEndProps(s: string)
    ensures TrimEnd(s) <= s
    ensures TrimEnd(s) != [] ==> !IsSpace(TrimEnd(s)[|TrimEnd(s)| - 1])
  {
    if s != [] && IsSpace(s[|s| - 1]) { TrimEndProps(s[..|s| - 1]); }
  }

  lemma {:induction false} TrimStartProps(s: string)
    ensures |TrimStart(s)| <= |s| && TrimStart(s) == s[|s| - |TrimStart(s)|..]
    ensures TrimStart(s) != [] ==> !IsSpace(TrimStart(s)[0])
  {
    if s != [] && IsSpace(s[0]) { TrimStartProps(s[1..]); }
  }

  /** What trim returns is trimmed and is a contiguous part of its input; a trimmed string is a fixed point. */
  lemma TrimIsTrimmed(s: string)
    ensures IsTrimmed(Trim(s))
    ensures |Trim(s)| <= |s|
    ensures forall c :: c in Trim(s) ==> c in s
    ensures IsTrimmed(s) ==> Trim(s) == s
  {
    TrimStartProps(s);
    TrimEndProps(TrimStart(s));
  }

  /** Trimming drops white space at the two ends, all of it and nothing else. */
  lemma TrimDropsSpaceOnly(s: string) returns (a: nat, b: nat)
    ensures a <= b <= |s| && Trim(s) == s[a..b] && IsTrimmed(Trim(s))
    ensures forall i :: 0 <= i < a || b <= i < |s| ==> IsSpace(s[i])
  {
    TrimIsTrimmed(s);
    TrimStartProps(s);
    TrimEndProps(TrimStart(s));
    a := |s| - |TrimStart(s)|;
    b := a + |TrimEnd(TrimStart(s))|;
    assert Trim(s) == s[a..][..b - a] == s[a..b];
    TrimStartDropsSpace(s);
    TrimEndDropsSpace(s[a..]);
    forall i | b <= i < |s| ensures IsSpace(s[i]) { assert s[i] == s[a..][i - a]; }
  }

  lemma {:induction false} TrimStartDropsSpace(s: string)
    ensures |TrimStart(s)| <= |s| && forall i :: 0 <= i < |s| - |TrimStart(s)| ==> IsSpace(s[i])
  {
    if s != [] && IsSpace(s[0]) {
      TrimStartDropsSpace(s[1..]);
      forall i | 0 <= i < |s| - |TrimStart(s)| ensures IsSpace(s[i]) { if i > 0 { assert s[i] == s[1..][i - 1]; } }
    }
  }

  lemma {:induction false} TrimEndDropsSpace(s: string)
    ensures |TrimEnd(s)| <= |s| && forall i :: |TrimEnd(s)| <= i < |s| ==> IsSpace(s[i])
  {
    if s != [] && IsSpace(s[|s| - 1]) {
      var init := s[..|s| - 1];
      TrimEndDropsSpace(init);
      forall i | |TrimEnd(s)| <= i < |s| ensures IsSpace(s[i]) { if i < |init| { assert s[i] == init[i]; } }
    }
  }

  /** The white space of ECMAScript: tab, vertical tab, form feed, the no-break and Unicode spaces, line terminators. */
  lemma SpacesAre(c: char)
    ensures IsSpace(c) <==>
            c in {'\t', '\U{0B}', '\U{0C}', ' ', '\U{A0}', '\U{FEFF}', '\U{1680}', '\U{202F}', '\U{205F}', '\U{3000}',
                  '\U{2000}', '\U{2001}', '\U{2002}', '\U{2003}', '\U{2004}', '\U{2005}', '\U{2006}', '\U{2007}',
                  '\U{2008}', '\U{2009}', '\U{200A}', '\n', '\r', '\U{2028}', '\U{2029}'}
  {
  }

  predicate StartsWith(s: string, prefix: string) {
    prefix <= s
  }

  /** String.prototype.split on one separator character; always at least one piece. */
  function Split(s: string, sep: char): (pieces: seq<string>)
    ensures |pieces| >= 1
  {
    if s == [] then [[]] else ConsPiece(s[0], sep, Split(s[1..], sep))
  }

  /** One more character in front of pieces already split. */
  function ConsPiece(c: char, sep: char, rest: seq<string>): (pieces: seq<string>)
    requires |rest| >= 1
    ensures |pieces| >= 1
  {
    if c == sep then [[]] + rest else [[c] + rest[0]] + rest[1..]
  }

  /** Array.prototype.join with one separator character. */
  function Joined(pieces: seq<string>, sep: char): string
    requires |pieces| >= 1
  {
    if |pieces| == 1 then pieces[0] else pieces[0] + [sep] + Joined(pieces[1..], sep)
  }

  /** Joining the pieces of a split gives the text back. */
  lemma {:induction false} SplitJoins(s: string, sep: char)
    ensures Joined(Split(s, sep), sep) == s
  {
    if s != [] {
      SplitJoins(s[1..], sep);
      var rest, pieces := Split(s[1..], sep), Split(s, sep);
      if s[0] == sep {
        assert pieces[1..] == rest;
      } else if |rest| > 1 {
        assert pieces[1..] == rest[1..];
      }
      assert [s[0]] + s[1..] == s;
    }
  }

  function Last<T>(s: seq<T>): T
    requires s != []
  {
    s[|s| - 1]
  }

  function DropLast<T>(s: seq<T>): seq<T>
    requires s != []
  {
    s[..|s| - 1]
  }

  lemma {:induction false} SplitPiecesAreFree(s: string, sep: char)
    ensures forall i :: 0 <= i < |Split(s, sep)| ==> sep !in Split(s, sep)[i]
  {
    if s != [] { SplitPiecesAreFree(s[1..], sep); }
  }

  lemma {:induction false} SplitFree(s: string, sep: char)
    requires sep !in s
    ensures Split(s, sep) == [s]
  {
    if s != [] {
      SplitFree(s[1..], sep);
      assert [s[0]] + s[1..] == s;
    }
  }

  /** Splitting a concatenation only re-splits the unfinished last piece of the first part. */
  lemma {:induction false} SplitConcat(a: string, b: string, sep: char)
    ensures Split(a + b, sep) == DropLast(Split(a, sep)) + Split(Last(Split(a, sep)) + b, sep)
  {
    if a == [] {
      assert a + b == b;
      assert Last(Split(a, sep)) + b == b;
    } else {
      assert (a + b)[0] == a[0] && (a + b)[1..] == a[1..] + b;
      SplitConcat(a[1..], b, sep);
      SplitConcatStep(a[0], DropLast(Split(a[1..], sep)), Last(Split(a[1..], sep)), b, sep);
      assert Split(a[1..], sep) == DropLast(Split(a[1..], sep)) + [Last(Split(a[1..], sep))];
    }
  }

  lemma SplitConcatStep(c: char, init: seq<string>, last: string, b: string, sep: char)
    ensures var pieces := ConsPiece(c, sep, init + [last]);
            ConsPiece(c, sep, init + Split(last + b, sep)) == DropLast(pieces) + Split(Last(pieces) + b, sep)
  {
    var tail := Split(last + b, sep);
    if init != [] {
      ConsPieceConcat(c, sep, init, [last]);
      ConsPieceConcat(c, sep, init, tail);
      assert DropLast(ConsPiece(c, sep, init) + [last]) == ConsPiece(c, sep, init);
    } else {
      assert [] + [last] == [last] && [] + tail == tail;
      if c != sep {
        var line := [c] + last + b;
        assert line[0] == c && line[1..] == last + b;
      }
    }
  }

  lemma ConsPieceConcat(c: char, sep: char, init: seq<string>, tail: seq<string>)
    requires init != []
    ensures ConsPiece(c, sep, init + tail) == ConsPiece(c, sep, init) + tail
  {
    assert (init + tail)[1..] == init[1..] + tail;
  }

  /** A separator-free piece followed by the separator is the first piece. */
  lemma SplitLine(line: string, rest: string, sep: char)
    requires sep !in line
    ensures Split(line + [sep] + rest, sep) == [line] + Split(rest, sep)
  {
    SplitConcat(line, [sep] + rest, sep);
    SplitFree(line, sep);
    assert line + [sep] + rest == line + ([sep] + rest);
    SplitHead(line, rest, sep);
  }

  lemma {:induction false} SplitHead(line: string, rest: string, sep: char)
    requires sep !in line
    ensures Split(line + ([sep] + rest), sep) == [line] + Split(rest, sep)
  {
    var s := line + ([sep] + rest);
    if line == [] {
      assert s == [sep] + rest && s[1..] == rest;
    } else {
      SplitHead(line[1..], rest, sep);
      assert s[1..] == line[1..] + ([sep] + rest);
      assert [s[0]] + line[1..] == line;
    }
  }
}
