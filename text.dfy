/** Text shaping helpers of the line viewer: splitting a raw line into its
    content and terminator (chomp), truncating a string to a column budget
    (cutStrInWidth) and expanding tabs to 4-column stops (detab).
    Strings are sequences of runes; the terminal's per-rune display width
    (runewidth.RuneWidth) is a parameter `rw` of every width-aware member. */
module Text {

  /** Display width of one rune as the terminal's width tables give it. */
  type RuneWidth = char -> nat

  /** Display width of a string: the sum of the widths of its runes
      (runewidth.StringWidth). */
  function StringWidth(rw: RuneWidth, s: string): nat
  {
    if s == [] then 0 else rw(s[0]) + StringWidth(rw, s[1..])
  }

  lemma {:induction false} StringWidthAppend(rw: RuneWidth, a: string, b: string)
    ensures StringWidth(rw, a + b) == StringWidth(rw, a) + StringWidth(rw, b)
  {
    if a != [] {
      assert (a + b)[0] == a[0];
      assert (a + b)[1..] == a[1..] + b;
      StringWidthAppend(rw, a[1..], b);
    } else {
      assert a + b == b;
    }
  }

  predicate EndsWith(s: string, t: string)
  {
    |t| <= |s| && s[|s| - |t|..] == t
  }

  /** The terminators chomp can report: CRLF, LF, CR or none. */
  predicate IsTerminator(t: string)
  {
    t == "" || t == "\n" || t == "\r\n" || t == "\r"
  }

  // ---------------------------------------------------------------- chomp

  /** Splits a raw line into (content, terminator); the two put back
      together are the line. */
  function Chomp(line: string): (r: (string, string))
    ensures r.0 + r.1 == line
    ensures IsTerminator(r.1)
  {
    if |line| > 0 && line[|line| - 1] == '\n' then
      var body := line[..|line| - 1];
      if |body| > 0 && body[|body| - 1] == '\r' then
        assert line == body[..|body| - 1] + "\r\n";
        (body[..|body| - 1], "\r\n")
      else
        assert line == body + "\n";
        (body, "\n")
    else if |line| > 0 && line[|line| - 1] == '\r' then
      assert line == line[..|line| - 1] + "\r";
      (line[..|line| - 1], "\r")
    else
      (line, "")
  }

  /** The terminator chomp reports is determined by how the line ends:
      CRLF, else LF, else CR, else none (the empty line included). */
  lemma ChompCases(line: string)
    ensures Chomp(line).1 == "\r\n" <==> EndsWith(line, "\r\n")
    ensures Chomp(line).1 == "\n" <==> EndsWith(line, "\n") && !EndsWith(line, "\r\n")
    ensures Chomp(line).1 == "\r" <==> EndsWith(line, "\r")
    ensures Chomp(line).1 == "" <==> !EndsWith(line, "\n") && !EndsWith(line, "\r")
  {
    EndsWithOne(line, '\n');
    EndsWithOne(line, '\r');
    EndsWithTwo(line, '\r', '\n');
    if |line| > 0 && line[|line| - 1] == '\n' {
      var body := line[..|line| - 1];
      assert (|body| > 0 && body[|body| - 1] == '\r') <==> (|line| >= 2 && line[|line| - 2] == '\r');
    }
  }

  /** Whether chomp, applied to `text + term`, gives back exactly `text`
      and `term`: it fails only when the text's own last rune would be
      taken for (part of) a terminator. */
  predicate Reattachable(text: string, term: string)
  {
    if term == "" then !EndsWith(text, "\n") && !EndsWith(text, "\r")
    else if term == "\n" then !EndsWith(text, "\r")
    else term == "\r\n" || term == "\r"
  }

  lemma EndsWithOne(s: string, c: char)
    ensures EndsWith(s, [c]) <==> |s| > 0 && s[|s| - 1] == c
  {
    if |s| > 0 && s[|s| - 1] == c {
      assert s[|s| - 1..] == [c];
    }
  }

  lemma EndsWithTwo(s: string, c: char, d: char)
    ensures EndsWith(s, [c, d]) <==> |s| >= 2 && s[|s| - 2] == c && s[|s| - 1] == d
  {
    if |s| >= 2 && s[|s| - 2] == c && s[|s| - 1] == d {
      assert s[|s| - 2..] == [c, d];
    }
  }

  /** The inverse direction of Chomp's round trip: appending a terminator
      to a text and chomping recovers both exactly when they are
      Reattachable. */
  lemma ChompRecovers(text: string, term: string)
    requires IsTerminator(term)
    ensures Chomp(text + term) == (text, term) <==> Reattachable(text, term)
  {
    var line := text + term;
    EndsWithOne(text, '\r');
    EndsWithOne(text, '\n');
    if term == "\r\n" {
      assert line[|line| - 1] == '\n';
      assert line[..|line| - 1] == text + "\r";
      assert (text + "\r")[..|text|] == text;
    } else if term == "\n" {
      assert line[|line| - 1] == '\n';
      assert line[..|line| - 1] == text;
    } else if term == "\r" {
      assert line[|line| - 1] == '\r';
      assert line[..|line| - 1] == text;
    } else {
      assert line == text;
      if |text| > 0 && text[|text| - 1] == '\n' {
        assert Chomp(line).1 != "";
      }
    }
  }

  // ---------------------------------------------------------- cutStrInWidth

  /** The prefix of `s` that cutStrInWidth keeps, with its width: runes are
      taken left to right from position `n`, with `w` columns already used,
      until the next one would exceed `cellwidth`. */
  function CutFrom(rw: RuneWidth, s: string, cellwidth: int, n: nat, w: int): (string, int)
    requires n <= |s|
    decreases |s| - n
  {
    if n == |s| then (s, w)
    else if w + rw(s[n]) > cellwidth then (s[..n], w)
    else CutFrom(rw, s, cellwidth, n + 1, w + rw(s[n]))
  }

  function CutInWidth(rw: RuneWidth, s: string, cellwidth: int): (string, int)
  {
    CutFrom(rw, s, cellwidth, 0, 0)
  }

  lemma WidthOfLonger(rw: RuneWidth, s: string, n: nat)
    requires n < |s|
    ensures StringWidth(rw, s[..n + 1]) == StringWidth(rw, s[..n]) + rw(s[n])
    ensures StringWidth(rw, s[..n + 1]) <= StringWidth(rw, s)
  {
    assert s[..n + 1] == s[..n] + [s[n]];
    StringWidthAppend(rw, s[..n], [s[n]]);
    assert [s[n]][1..] == [];
    assert s == s[..n + 1] + s[n + 1..];
    StringWidthAppend(rw, s[..n + 1], s[n + 1..]);
  }

  lemma {:induction false} CutFromFits(rw: RuneWidth, s: string, cellwidth: int, n: nat, w: int)
    requires n <= |s|
    requires w == StringWidth(rw, s[..n])
    requires w <= cellwidth || n == 0
    ensures var r := CutFrom(rw, s, cellwidth, n, w);
      && n <= |r.0| <= |s| && r.0 == s[..|r.0|]
      && r.1 == StringWidth(rw, r.0)
      && (r.1 <= cellwidth || r.0 == [])
      && (|r.0| < |s| ==> r.1 + rw(s[|r.0|]) > cellwidth)
      && (StringWidth(rw, s) <= cellwidth ==> r.0 == s)
    decreases |s| - n
  {
    if n == |s| {
      assert s[..n] == s;
    } else {
      WidthOfLonger(rw, s, n);
      if w + rw(s[n]) <= cellwidth {
        CutFromFits(rw, s, cellwidth, n + 1, w + rw(s[n]));
      }
    }
  }

  /** cutStrInWidth keeps the longest prefix that fits: the prefix is cut at
      a rune boundary, its width is the sum of its runes' widths and within
      the budget, the next rune would exceed the budget, and a string that
      fits is kept whole. */
  lemma CutInWidthFits(rw: RuneWidth, s: string, cellwidth: int)
    ensures var (p, w) := CutInWidth(rw, s, cellwidth);
      && |p| <= |s| && p == s[..|p|]
      && w == StringWidth(rw, p)
      && (w <= cellwidth || p == [])
      && (|p| < |s| ==> w + rw(s[|p|]) > cellwidth)
      && (StringWidth(rw, s) <= cellwidth ==> p == s)
  {
    CutFromFits(rw, s, cellwidth, 0, 0);
  }

  /** cutStrInWidth: the rune loop accumulating the width `w`. */
  method CutStrInWidth(rw: RuneWidth, s: string, cellwidth: int) returns (prefix: string, w: int)
    ensures (prefix, w) == CutInWidth(rw, s, cellwidth)
  {
    w := 0;
    var n := 0;
    while n < |s|
      invariant 0 <= n <= |s|
      invariant CutFrom(rw, s, cellwidth, n, w) == CutInWidth(rw, s, cellwidth)
    {
      var w1 := rw(s[n]);
      if w + w1 > cellwidth {
        return s[..n], w;
      }
      w := w + w1;
      n := n + 1;
    }
    return s, w;
  }

  // ------------------------------------------------------------------ detab

  function Spaces(n: nat): (r: string)
    ensures |r| == n && forall i :: 0 <= i < n ==> r[i] == ' '
  {
    if n == 0 then "" else " " + Spaces(n - 1)
  }

  /** strings.IndexByte: the first position of `c` in `s`, or -1. */
  function IndexOf(s: string, c: char): (r: int)
    ensures -1 <= r < |s|
    ensures r < 0 <==> c !in s
    ensures 0 <= r ==> s[r] == c && c !in s[..r]
  {
    if s == [] then -1
    else if s[0] == c then 0
    else
      var k := IndexOf(s[1..], c);
      assert k >= 0 ==> s[..k + 1] == [s[0]] + s[1..][..k];
      if k < 0 then -1 else k + 1
  }

  /** Number of tabs in a string. */
  function TabCount(s: string): nat
  {
    if s == [] then 0 else (if s[0] == '\t' then 1 else 0) + TabCount(s[1..])
  }

  lemma {:induction false} TabCountAppend(a: string, b: string)
    ensures TabCount(a + b) == TabCount(a) + TabCount(b)
  {
    if a == [] {
      assert a + b == b;
    } else {
      assert (a + b)[0] == a[0] && (a + b)[1..] == a[1..] + b;
      TabCountAppend(a[1..], b);
    }
  }

  lemma {:induction false} TabCountNone(s: string)
    requires '\t' !in s
    ensures TabCount(s) == 0
  {
    if s != [] {
      TabCountNone(s[1..]);
    }
  }

  /** Number of spaces a tab after `prefix` becomes: up to the next
      multiple of 4 columns, so between 1 and 4. */
  function TabPad(rw: RuneWidth, prefix: string): (n: nat)
    ensures 1 <= n <= 4
    ensures (StringWidth(rw, prefix) + n) % 4 == 0
  {
    4 - StringWidth(rw, prefix) % 4
  }

  lemma ReplaceTab(s: string, pos: nat, n: nat)
    requires pos < |s| && s[pos] == '\t'
    ensures TabCount(s[..pos] + Spaces(n) + s[pos + 1..]) == TabCount(s) - 1
    ensures |s[..pos] + Spaces(n) + s[pos + 1..]| == |s| - 1 + n
  {
    var rest := s[pos + 1..];
    assert s == s[..pos] + ([s[pos]] + rest);
    assert ([s[pos]] + rest)[1..] == rest;
    TabCountAppend(s[..pos], [s[pos]] + rest);
    TabCountAppend(s[..pos], Spaces(n));
    TabCountAppend(s[..pos] + Spaces(n), rest);
    TabCountNone(Spaces(n));
  }

  /** detab as the source computes it: replace the first tab, repeat. */
  function Detabbed(rw: RuneWidth, s: string): (r: string)
    ensures '\t' !in r
    ensures '\t' !in s ==> r == s
    decreases TabCount(s)
  {
    var pos := IndexOf(s, '\t');
    if pos < 0 then s
    else
      var pad := TabPad(rw, s[..pos]);
      ReplaceTab(s, pos, pad);
      Detabbed(rw, s[..pos] + Spaces(pad) + s[pos + 1..])
  }

  /** Each tab becomes one to four spaces, so detab lengthens a line by at
      most three runes per tab. */
  lemma {:induction false} DetabbedLength(rw: RuneWidth, s: string)
    ensures |s| <= |Detabbed(rw, s)| <= |s| + 3 * TabCount(s)
    decreases TabCount(s)
  {
    var pos := IndexOf(s, '\t');
    if pos >= 0 {
      var pad := TabPad(rw, s[..pos]);
      var t := s[..pos] + Spaces(pad) + s[pos + 1..];
      assert |t| == |s| - 1 + pad && TabCount(t) == TabCount(s) - 1 by {
        ReplaceTab(s, pos, pad);
      }
      var d := Detabbed(rw, t);
      assert |t| <= |d| <= |t| + 3 * TabCount(t) by {
        DetabbedLength(rw, t);
      }
      assert Detabbed(rw, s) == d;
    }
  }

  /** detab: the `for` loop that reassigns `s` until no tab is left. */
  method Detab(rw: RuneWidth, s0: string) returns (s: string)
    ensures s == Detabbed(rw, s0)
  {
    s := s0;
    while true
      invariant Detabbed(rw, s) == Detabbed(rw, s0)
      decreases TabCount(s)
    {
      var pos := IndexOf(s, '\t');
      if pos < 0 {
        return;
      }
      var pad := TabPad(rw, s[..pos]);
      ReplaceTab(s, pos, pad);
      s := s[..pos] + Spaces(pad) + s[pos + 1..];
    }
  }

  /** Reference definition of tab expansion in one left-to-right pass:
      `done` is the output so far; a tab pads it to the next 4-column stop. */
  function Expand(rw: RuneWidth, done: string, rest: string): string
    decreases |rest|
  {
    if rest == [] then done
    else if rest[0] == '\t' then Expand(rw, done + Spaces(TabPad(rw, done)), rest[1..])
    else Expand(rw, done + [rest[0]], rest[1..])
  }

  /** Repeatedly replacing the first tab computes the one-pass expansion. */
  lemma {:induction false} DetabbedIsExpand(rw: RuneWidth, done: string, rest: string)
    requires '\t' !in done
    ensures Detabbed(rw, done + rest) == Expand(rw, done, rest)
    decreases |rest|
  {
    var s := done + rest;
    if rest == [] {
      assert s == done;
    } else if rest[0] == '\t' {
      var pos := IndexOf(s, '\t');
      assert s[..|done|] == done;
      assert s[|done|] == '\t';
      assert pos == |done|;
      assert s[pos + 1..] == rest[1..];
      var pad := Spaces(TabPad(rw, done));
      assert '\t' !in pad;
      DetabbedIsExpand(rw, done + pad, rest[1..]);
    } else {
      assert s == (done + [rest[0]]) + rest[1..];
      DetabbedIsExpand(rw, done + [rest[0]], rest[1..]);
    }
  }

  lemma {:induction false} SpacesWidth(rw: RuneWidth, n: nat)
    requires rw(' ') == 1
    ensures StringWidth(rw, Spaces(n)) == n
  {
    if n > 0 {
      assert Spaces(n)[1..] == Spaces(n - 1);
      SpacesWidth(rw, n - 1);
    }
  }

  /** With single-column spaces, the text produced up to and including a
      tab's padding always ends on a 4-column tab stop. */
  lemma TabEndsOnStop(rw: RuneWidth, done: string)
    requires rw(' ') == 1
    ensures StringWidth(rw, done + Spaces(TabPad(rw, done))) % 4 == 0
  {
    StringWidthAppend(rw, done, Spaces(TabPad(rw, done)));
    SpacesWidth(rw, TabPad(rw, done));
  }

  /** Expanding twice is expanding once. */
  lemma DetabIdempotent(rw: RuneWidth, s: string)
    ensures Detabbed(rw, Detabbed(rw, s)) == Detabbed(rw, s)
  {
  }

  lemma ExpandExample(rw: RuneWidth, a: char, b: char)
    requires rw(a) == 1 && b != '\t'
    ensures Expand(rw, [a], ['\t', b]) == [a, ' ', ' ', ' ', b]
  {
    assert Expand(rw, [a], ['\t', b]) == Expand(rw, [a, ' ', ' ', ' '], [b]) by {
      assert StringWidth(rw, [a]) == 1 by {
        assert [a][1..] == [];
      }
      assert TabPad(rw, [a]) == 3;
      assert Spaces(3) == "   ";
      assert [a] + Spaces(3) == [a, ' ', ' ', ' '];
      assert ['\t', b][1..] == [b];
    }
    assert Expand(rw, [a, ' ', ' ', ' '], [b]) == Expand(rw, [a, ' ', ' ', ' ', b], []) by {
      assert [a, ' ', ' ', ' '] + [b] == [a, ' ', ' ', ' ', b];
    }
  }

  /** A one-column rune, a tab and another rune: the tab becomes three
      spaces, so "a\tb" renders as "a   b". */
  lemma DetabExample(rw: RuneWidth, a: char, b: char)
    requires rw(a) == 1 && a != '\t' && b != '\t'
    ensures Detabbed(rw, [a, '\t', b]) == [a, ' ', ' ', ' ', b]
  {
    DetabbedIsExpand(rw, [], [a, '\t', b]);
    assert [] + [a, '\t', b] == [a, '\t', b];
    assert Expand(rw, [], [a, '\t', b]) == Expand(rw, [a], ['\t', b]) by {
      assert [a, '\t', b][1..] == ['\t', b];
      assert [] + [a] == [a];
    }
    ExpandExample(rw, a, b);
  }
}
