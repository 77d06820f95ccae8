/** The `str` methods the core relies on: `split` with a character pattern,
    `lines`, `split_ascii_whitespace`, `trim` / `trim_matches` and
    `[&str]::join`. */
module Text {

  /** `char::is_ascii_whitespace`: space, tab, line feed, form feed, carriage return. */
  predicate IsAsciiWhitespace(c: char) {
    c == ' ' || c == '\t' || c == '\n' || c == '\U{000C}' || c == '\r'
  }

  /** `char::is_whitespace`: the Unicode White_Space property. */
  predicate IsWhitespace(c: char) {
    var n := c as int;
    (0x09 <= n <= 0x0D) || n == 0x20 || n == 0x85 || n == 0xA0 || n == 0x1680 ||
    (0x2000 <= n <= 0x200A) || n == 0x2028 || n == 0x2029 || n == 0x202F ||
    n == 0x205F || n == 0x3000
  }

  predicate IsNewline(c: char) { c == '\n' }

  /** Index of the first character satisfying `p`, or `|s|` when there is none. */
  function Find(s: string, p: char -> bool): (i: nat)
    ensures i <= |s|
    ensures forall j :: 0 <= j < i ==> !p(s[j])
    ensures i < |s| ==> p(s[i])
  {
    if s == [] then 0 else if p(s[0]) then 0 else 1 + Find(s[1..], p)
  }

  function Count(s: string, p: char -> bool): nat {
    if s == [] then 0 else (if p(s[0]) then 1 else 0) + Count(s[1..], p)
  }

  /** `str::split(p)`: the pieces between the characters satisfying `p`;
      there is always one more piece than there are separators. */
  function Split(s: string, p: char -> bool): seq<string>
    decreases |s|
  {
    var i := Find(s, p);
    if i == |s| then [s] else [s[..i]] + Split(s[i + 1..], p)
  }

  /** A piece without the one '\r' that may end it. */
  function StripCr(line: string): (r: string)
    ensures |r| <= |line| && r == line[..|r|]
    ensures |r| < |line| <==> |line| > 0 && line[|line| - 1] == '\r'
    ensures |r| >= |line| - 1
  {
    if |line| > 0 && line[|line| - 1] == '\r' then line[..|line| - 1] else line
  }

  /** `str::lines` of the nightly toolchains with `NoneError`: the pieces
      of `split_terminator('\n')` (an empty final piece is not a line), each
      without one trailing '\r', the unterminated final piece included. */
  function Lines(s: string): seq<string>
    decreases |s|
  {
    if s == [] then []
    else
      var i := Find(s, IsNewline);
      if i == |s| then [StripCr(s)]
      else [StripCr(s[..i])] + Lines(s[i + 1..])
  }

  /** `str::split_ascii_whitespace`: the non-empty runs of characters that
      are not ASCII whitespace. */
  function Tokens(s: string): seq<string>
    decreases |s|
  {
    if s == [] then []
    else if IsAsciiWhitespace(s[0]) then Tokens(s[1..])
    else
      var i := Find(s, IsAsciiWhitespace);
      [s[..i]] + Tokens(s[i..])
  }

  /** `str::trim_matches(p)`: drops the matching characters at both ends. */
  function TrimMatches(s: string, p: char -> bool): string
    decreases |s|
  {
    if s == [] then []
    else if p(s[0]) then TrimMatches(s[1..], p)
    else if p(s[|s| - 1]) then TrimMatches(s[..|s| - 1], p)
    else s
  }

  /** `[&str]::join(sep)` */
  function Join(parts: seq<string>, sep: string): string {
    if parts == [] then []
    else if |parts| == 1 then parts[0]
    else parts[0] + sep + Join(parts[1..], sep)
  }

  lemma JoinCons(x: string, rest: seq<string>, sep: string)
    requires |rest| >= 1
    ensures Join([x] + rest, sep) == x + sep + Join(rest, sep)
  {
    assert ([x] + rest)[1..] == rest;
  }

  lemma JoinPair(x: string, y: string, sep: string)
    ensures Join([x, y], sep) == x + sep + y
  {
    assert [x, y][1..] == [y];
  }

  lemma JoinThree(a: string, b: string, c: string, rest: seq<string>, sep: string)
    requires |rest| >= 1
    ensures Join([a, b, c] + rest, sep) == a + sep + b + sep + c + sep + Join(rest, sep)
  {
    var r1 := [c] + rest;
    var r2 := [b] + r1;
    assert [a, b, c] + rest == [a] + r2;
    JoinCons(c, rest, sep);
    JoinCons(b, r1, sep);
    JoinCons(a, r2, sep);
  }

  predicate NoneMatch(s: string, p: char -> bool) {
    forall i :: 0 <= i < |s| ==> !p(s[i])
  }

  // ---- properties ----

  /** No piece of a split holds a separator, and there is one piece more
      than there are separators. */
  lemma {:induction false} SplitPieces(s: string, p: char -> bool)
    ensures |Split(s, p)| == Count(s, p) + 1
    ensures forall k :: 0 <= k < |Split(s, p)| ==> NoneMatch(Split(s, p)[k], p)
    decreases |s|
  {
    var i := Find(s, p);
    CountNone(s[..i], p);
    CountAppend(s[..i], s[i..], p);
    assert s == s[..i] + s[i..];
    if i < |s| {
      assert s[i..] == [s[i]] + s[i + 1..];
      CountAppend([s[i]], s[i + 1..], p);
      SplitPieces(s[i + 1..], p);
    }
  }

  lemma {:induction false} CountNone(s: string, p: char -> bool)
    requires NoneMatch(s, p)
    ensures Count(s, p) == 0
  {
    if s != [] { CountNone(s[1..], p); }
  }

  /** The count up to and including the first match is one. */
  lemma {:induction false} CountAt(s: string, i: nat, p: char -> bool)
    requires i < |s| && p(s[i])
    requires forall j :: 0 <= j < i ==> !p(s[j])
    ensures Count(s, p) == 1 + Count(s[i + 1..], p)
  {
    if i > 0 {
      assert s[1..][i..] == s[i + 1..];
      CountAt(s[1..], i - 1, p);
    }
  }

  lemma {:induction false} CountAppend(s: string, t: string, p: char -> bool)
    ensures Count(s + t, p) == Count(s, p) + Count(t, p)
  {
    if s == [] {
      assert s + t == t;
    } else {
      assert (s + t)[0] == s[0] && (s + t)[1..] == s[1..] + t;
      CountAppend(s[1..], t, p);
    }
  }

  /** Joining the pieces of a split on one character with that character
      rebuilds the text. */
  lemma {:induction false} JoinSplit(s: string, p: char -> bool, c: char)
    requires forall x :: p(x) <==> x == c
    ensures Join(Split(s, p), [c]) == s
    decreases |s|
  {
    var i := Find(s, p);
    if i < |s| {
      JoinSplit(s[i + 1..], p, c);
      var rest := Split(s[i + 1..], p);
      assert Split(s, p) == [s[..i]] + rest;
      assert |rest| >= 1 by { SplitPieces(s[i + 1..], p); }
      assert ([s[..i]] + rest)[1..] == rest;
      assert s == s[..i] + [c] + s[i + 1..];
    }
  }

  /** A split is in text order: splitting `a + [sep] + b` splits `a` and `b`
      separately (when `a` holds no separator). */
  lemma {:induction false} SplitAppend(a: string, c: char, b: string, p: char -> bool)
    requires p(c) && NoneMatch(a, p)
    ensures Split(a + [c] + b, p) == [a] + Split(b, p)
  {
    var s := a + [c] + b;
    var i := Find(s, p);
    assert forall j :: 0 <= j < |a| ==> s[j] == a[j];
    assert s[|a|] == c;
    assert i == |a|;
    assert s[..i] == a;
    assert s[i + 1..] == b;
  }

  /** The first two pieces of a split: the text before the first
      separator, and (when there is a separator) the text from there to the
      next one or to the end. */
  lemma SplitHead(s: string, p: char -> bool)
    ensures |Split(s, p)| >= 1 && Split(s, p)[0] == s[..Find(s, p)]
    ensures |Split(s, p)| >= 2 <==> Find(s, p) < |s|
    ensures |Split(s, p)| >= 2 ==>
      var rest := s[Find(s, p) + 1..];
      Split(s, p)[1] == rest[..Find(rest, p)]
  {
    var i := Find(s, p);
    if i < |s| {
      var rest := s[i + 1..];
      var j := Find(rest, p);
      if j < |rest| {
        assert Split(rest, p)[0] == rest[..j];
      }
    }
  }

  /** No line holds a line feed. */
  lemma {:induction false} LinesNoNewline(s: string)
    ensures forall k :: 0 <= k < |Lines(s)| ==> NoneMatch(Lines(s)[k], IsNewline)
    decreases |s|
  {
    if s != [] {
      var i := Find(s, IsNewline);
      if i < |s| {
        var stripped := StripCr(s[..i]);
        assert NoneMatch(stripped, IsNewline);
        LinesNoNewline(s[i + 1..]);
        assert Lines(s) == [stripped] + Lines(s[i + 1..]);
      } else {
        assert NoneMatch(StripCr(s), IsNewline);
      }
    }
  }

  /** There is one line per line feed, plus one for a final unterminated
      piece. */
  lemma {:induction false} LinesCount(s: string)
    ensures |Lines(s)| == Count(s, IsNewline) + (if s == [] || s[|s| - 1] == '\n' then 0 else 1)
    decreases |s|
  {
    if s != [] {
      var i := Find(s, IsNewline);
      if i == |s| {
        CountNone(s, IsNewline);
      } else {
        var t := s[i + 1..];
        CountAt(s, i, IsNewline);
        LinesCount(t);
        assert |Lines(s)| == 1 + |Lines(t)|;
        if t == [] {
          assert i == |s| - 1;
        } else {
          assert t[|t| - 1] == s[|s| - 1];
        }
      }
    }
  }

  /** The search skips a prefix without a match. */
  lemma {:induction false} FindAfter(s: string, t: string, p: char -> bool)
    requires NoneMatch(s, p)
    ensures Find(s + t, p) == |s| + Find(t, p)
  {
    if s != [] {
      assert (s + t)[1..] == s[1..] + t;
      FindAfter(s[1..], t, p);
    } else {
      assert s + t == t;
    }
  }

  /** A line ended by a line feed comes first, without its '\r'. */
  lemma LinesCons(line: string, rest: string)
    requires NoneMatch(line, IsNewline)
    ensures Lines(line + "\n" + rest) == [StripCr(line)] + Lines(rest)
  {
    var s := line + "\n" + rest;
    FindAfter(line, "\n" + rest, IsNewline);
    assert s == line + ("\n" + rest);
    assert s[..|line|] == line && s[|line| + 1..] == rest;
  }

  /** Text without a line feed is one line, without its '\r'. */
  lemma LinesLast(line: string)
    requires line != [] && NoneMatch(line, IsNewline)
    ensures Lines(line) == [StripCr(line)]
  {
  }

  /** A '\r' is dropped from the end of every line, the unterminated last
      one included. */
  lemma LinesFinalCr(first: string, last: string)
    requires NoneMatch(first, IsNewline) && NoneMatch(last, IsNewline)
    ensures Lines(first + "\n" + last + "\r") == [StripCr(first), last]
  {
    var t := last + "\r";
    assert first + "\n" + last + "\r" == first + "\n" + t;
    LinesCons(first, t);
    LinesLast(t);
    assert t[..|last|] == last;
  }

  /** Tokens are non-empty and hold no ASCII whitespace. */
  lemma {:induction false} TokensShape(s: string)
    ensures forall k :: 0 <= k < |Tokens(s)| ==> |Tokens(s)[k]| > 0 && NoneMatch(Tokens(s)[k], IsAsciiWhitespace)
    decreases |s|
  {
    if s != [] {
      if IsAsciiWhitespace(s[0]) {
        TokensShape(s[1..]);
      } else {
        var i := Find(s, IsAsciiWhitespace);
        TokensShape(s[i..]);
      }
    }
  }

  /** Tokens, concatenated, are the text with its ASCII whitespace removed. */
  lemma {:induction false} TokensCover(s: string)
    ensures Concat(Tokens(s)) == Keep(s, IsAsciiWhitespace)
    decreases |s|
  {
    if s != [] {
      if IsAsciiWhitespace(s[0]) {
        TokensCover(s[1..]);
      } else {
        var i := Find(s, IsAsciiWhitespace);
        TokensCover(s[i..]);
        KeepAll(s[..i], IsAsciiWhitespace);
        KeepAppend(s[..i], s[i..], IsAsciiWhitespace);
        assert s == s[..i] + s[i..];
        assert ([s[..i]] + Tokens(s[i..]))[1..] == Tokens(s[i..]);
      }
    }
  }

  /** The characters of `s` that do not satisfy `p`, in order. */
  function Keep(s: string, p: char -> bool): string {
    if s == [] then [] else (if p(s[0]) then [] else [s[0]]) + Keep(s[1..], p)
  }

  function Concat(parts: seq<string>): string {
    if parts == [] then [] else parts[0] + Concat(parts[1..])
  }

  lemma {:induction false} KeepAll(s: string, p: char -> bool)
    requires NoneMatch(s, p)
    ensures Keep(s, p) == s
  {
    if s != [] { KeepAll(s[1..], p); }
  }

  lemma {:induction false} KeepAppend(s: string, t: string, p: char -> bool)
    ensures Keep(s + t, p) == Keep(s, p) + Keep(t, p)
  {
    if s == [] {
      assert s + t == t;
    } else {
      assert (s + t)[0] == s[0] && (s + t)[1..] == s[1..] + t;
      KeepAppend(s[1..], t, p);
    }
  }

  /** `trim_matches(p)` leaves nothing exactly when every character matches. */
  lemma {:induction false} TrimEmpty(s: string, p: char -> bool)
    ensures TrimMatches(s, p) == [] <==> forall i :: 0 <= i < |s| ==> p(s[i])
    decreases |s|
  {
    if s != [] {
      if p(s[0]) {
        TrimEmpty(s[1..], p);
        assert forall i :: 1 <= i < |s| ==> s[i] == s[1..][i - 1];
      } else if p(s[|s| - 1]) {
        TrimEmpty(s[..|s| - 1], p);
      }
    }
  }
}
