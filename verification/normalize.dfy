/**
 * `normalizeCode` of the practice page: trim, turn CRLF into LF, collapse
 * every whitespace run to one space, then drop the whitespace around
 * punctuation. Whitespace is the set JavaScript's `\s` and `trim` use.
 */
module Normalize {

  /** JavaScript white space and line terminators. */
  predicate IsSpace(c: char) {
    c == '\t' || c == '\n' || c == '\U{000B}' || c == '\U{000C}' || c == '\r' || c == ' ' ||
    c == '\U{00A0}' || c == '\U{1680}' || ('\U{2000}' <= c <= '\U{200A}') ||
    c == '\U{2028}' || c == '\U{2029}' || c == '\U{202F}' || c == '\U{205F}' ||
    c == '\U{3000}' || c == '\U{FEFF}'
  }

  // The punctuation class of the last replacement: { } [ ] ( ) . , ; : + - * / % = < > ! & | ^
  predicate IsPunct(c: char) {
    c in "{}[]().,;:+-*/%=<>!&|^"
  }

  /** The text with every whitespace character removed: what normalisation
      must not change. */
  function NonBlank(s: string): string {
    if s == [] then [] else Kept(s[0]) + NonBlank(s[1..])
  }

  function Kept(c: char): string {
    if IsSpace(c) then [] else [c]
  }

  predicate AllSpace(s: string) {
    forall i :: 0 <= i < |s| ==> IsSpace(s[i])
  }

  /** The length of the longest all-whitespace prefix. */
  function LeadingSpaces(s: string): (k: nat)
    ensures k <= |s|
    ensures k < |s| ==> !IsSpace(s[k])
  {
    if s != [] && IsSpace(s[0]) then 1 + LeadingSpaces(s[1..]) else 0
  }

  /** What `LeadingSpaces` skips is all whitespace. */
  lemma {:induction false} LeadingSpacesSkipsSpace(s: string)
    ensures AllSpace(s[..LeadingSpaces(s)])
    decreases |s|
  {
    if s != [] && IsSpace(s[0]) {
      LeadingSpacesSkipsSpace(s[1..]);
      var k := LeadingSpaces(s);
      assert s[..k] == [s[0]] + s[1..][..k - 1];
    }
  }

  /** The length of the longest all-whitespace suffix. */
  function TrailingSpaces(s: string): (k: nat)
    ensures k <= |s|
    ensures k < |s| ==> !IsSpace(s[|s| - 1 - k])
  {
    if s != [] && IsSpace(s[|s| - 1]) then 1 + TrailingSpaces(s[..|s| - 1]) else 0
  }

  /** What `TrailingSpaces` counts is all whitespace. */
  lemma {:induction false} TrailingSpacesSkipsSpace(s: string)
    ensures AllSpace(s[|s| - TrailingSpaces(s)..])
    decreases |s|
  {
    if s != [] && IsSpace(s[|s| - 1]) {
      var init := s[..|s| - 1];
      TrailingSpacesSkipsSpace(init);
      var k := TrailingSpaces(s);
      var m := |init| - (k - 1);
      forall i | |s| - k <= i < |s| ensures IsSpace(s[i]) {
        if i < |s| - 1 {
          assert s[i] == init[i] == init[m..][i - m];
        }
      }
    }
  }

  function TrimStart(s: string): (r: string)
    ensures r != [] ==> !IsSpace(r[0])
  {
    s[LeadingSpaces(s)..]
  }

  function TrimEnd(s: string): (r: string)
    ensures r != [] ==> !IsSpace(r[|r| - 1])
  {
    s[..|s| - TrailingSpaces(s)]
  }

  /** `String.prototype.trim`. */
  function Trim(s: string): (r: string)
    ensures r == [] || (!IsSpace(r[0]) && !IsSpace(r[|r| - 1]))
  {
    TrimEnd(TrimStart(s))
  }

  /** `replace(/\r\n/g, "\n")`. */
  function ReplaceCrLf(s: string): (r: string)
    ensures s != [] && !IsSpace(s[0]) ==> r != [] && r[0] == s[0]
    ensures s != [] && !IsSpace(s[|s| - 1]) ==> r != [] && r[|r| - 1] == s[|s| - 1]
  {
    if s == [] then []
    else if |s| >= 2 && s[0] == '\r' && s[1] == '\n' then "\n" + ReplaceCrLf(s[2..])
    else [s[0]] + ReplaceCrLf(s[1..])
  }

  /** `replace(/\s+/g, " ")`: each maximal whitespace run becomes one space. */
  function CollapseSpaces(s: string): (r: string)
    ensures |r| <= |s|
    decreases |s|
  {
    if s == [] then []
    else if IsSpace(s[0]) then [' '] + CollapseSpaces(s[LeadingSpaces(s)..])
    else [s[0]] + CollapseSpaces(s[1..])
  }

  /** Collapsing keeps a non-blank first character, and each end of the
      text stays blank or non-blank as it was. */
  lemma {:induction false} CollapseEnds(s: string)
    ensures var r := CollapseSpaces(s);
      s != [] ==> r != [] && IsSpace(r[0]) == IsSpace(s[0]) && IsSpace(r[|r| - 1]) == IsSpace(s[|s| - 1])
    ensures s != [] && !IsSpace(s[0]) ==> CollapseSpaces(s)[0] == s[0]
    decreases |s|
  {
    if s != [] {
      var k := if IsSpace(s[0]) then LeadingSpaces(s) else 1;
      var t := s[k..];
      assert CollapseSpaces(s) == [Squash(s[0])] + CollapseSpaces(t);
      if t == [] {
        if IsSpace(s[0]) {
          LeadingSpacesSkipsSpace(s);
          assert s[..k] == s;
        }
      } else {
        CollapseEnds(t);
        assert t[|t| - 1] == s[|s| - 1];
      }
    }
  }

  /** After collapsing, every blank is a plain space and no two blanks are
      adjacent. */
  lemma {:induction false} CollapseShape(s: string)
    ensures BlanksAreSpaces(CollapseSpaces(s)) && NoDoubleBlank(CollapseSpaces(s))
    decreases |s|
  {
    if s != [] {
      var k := if IsSpace(s[0]) then LeadingSpaces(s) else 1;
      var c := if IsSpace(s[0]) then ' ' else s[0];
      var tail := CollapseSpaces(s[k..]);
      assert CollapseSpaces(s) == [c] + tail;
      CollapseShape(s[k..]);
      NoDoubleBlankCons(c, tail);
      BlanksAreSpacesCons(c, tail);
    }
  }

  lemma BlanksAreSpacesCons(c: char, t: string)
    requires BlanksAreSpaces(t) && (IsSpace(c) ==> c == ' ')
    ensures BlanksAreSpaces([c] + t)
  {
    var r := [c] + t;
    forall i | 0 <= i < |r| && IsSpace(r[i]) ensures r[i] == ' ' {
      if i > 0 {
        assert r[i] == t[i - 1];
      }
    }
  }

  // The last replacement of `normalizeCode` (a global regular expression
  // with a capture of one punctuation character), scanning left to right:
  // at each position a whitespace run followed by a punctuation character
  // is replaced, together with the whitespace after it, by that character;
  // otherwise one character is copied.
  function StripAroundPunct(s: string): (r: string)
    ensures s != [] && !IsSpace(s[0]) ==> r != [] && r[0] == s[0]
    decreases |s|
  {
    if s == [] then []
    else if PunctAhead(s) then [s[LeadingSpaces(s)]] + StripAroundPunct(AfterPunct(s))
    else [s[0]] + StripAroundPunct(s[1..])
  }

  /** The pattern matches at the head of `s`: a whitespace run, possibly
      empty, then a punctuation character. */
  predicate PunctAhead(s: string) {
    LeadingSpaces(s) < |s| && IsPunct(s[LeadingSpaces(s)])
  }

  /** What is left after a match: the input past the punctuation character
      and the whitespace that follows it. It is a proper suffix, it does not
      start with whitespace, and it is empty only if the input ends with the
      punctuation character or with whitespace. */
  function AfterPunct(s: string): (t: string)
    requires PunctAhead(s)
    ensures |t| < |s| && t == s[|s| - |t|..]
    ensures t != [] ==> !IsSpace(t[0])
    ensures t == [] && !IsSpace(s[|s| - 1]) ==> LeadingSpaces(s) == |s| - 1
  {
    var rest := s[LeadingSpaces(s) + 1..];
    if rest != [] && !IsSpace(rest[|rest| - 1]) then
      LeadingSpacesBeforeLast(rest);
      rest[LeadingSpaces(rest)..]
    else
      rest[LeadingSpaces(rest)..]
  }

  /** A whitespace prefix stops before a last character that is not whitespace. */
  lemma LeadingSpacesBeforeLast(x: string)
    requires x != [] && !IsSpace(x[|x| - 1])
    ensures LeadingSpaces(x) < |x|
  {
    LeadingSpacesSkipsSpace(x);
    assert x[..|x|] == x;
  }

  lemma PunctIsNotSpace(c: char)
    ensures IsPunct(c) ==> !IsSpace(c)
  {
  }

  /** The replacement starts with punctuation only where the pattern matches
      at the head of the input. */
  lemma StripHeadPunct(s: string)
    ensures var r := StripAroundPunct(s); r != [] && IsPunct(r[0]) ==> PunctAhead(s)
  {
    if s != [] && !PunctAhead(s) {
      assert StripAroundPunct(s)[0] == s[0];
      PunctIsNotSpace(s[0]);
    }
  }

  /** A last character that is not whitespace survives the replacement. */
  lemma {:induction false} StripKeepsLast(s: string)
    ensures s != [] && !IsSpace(s[|s| - 1]) ==>
      StripAroundPunct(s) != [] && StripAroundPunct(s)[|StripAroundPunct(s)| - 1] == s[|s| - 1]
    decreases |s|
  {
    if s != [] && !IsSpace(s[|s| - 1]) {
      if PunctAhead(s) {
        var t := AfterPunct(s);
        assert StripAroundPunct(s) == [s[LeadingSpaces(s)]] + StripAroundPunct(t);
        if t != [] {
          StripKeepsLast(t);
          assert t[|t| - 1] == s[|s| - 1];
        }
      } else {
        assert StripAroundPunct(s) == [s[0]] + StripAroundPunct(s[1..]);
        if |s| > 1 {
          StripKeepsLast(s[1..]);
          assert s[1..][|s| - 2] == s[|s| - 1];
        }
      }
    }
  }

  /** No whitespace is left beside a punctuation character. */
  lemma {:induction false} StripLeavesNoBlankBesidePunct(s: string)
    ensures NoBlankBesidePunct(StripAroundPunct(s))
    decreases |s|
  {
    if s != [] {
      if PunctAhead(s) {
        var tail := StripAroundPunct(AfterPunct(s));
        assert StripAroundPunct(s) == [s[LeadingSpaces(s)]] + tail;
        StripLeavesNoBlankBesidePunct(AfterPunct(s));
        PunctIsNotSpace(s[LeadingSpaces(s)]);
        NoBlankBesidePunctCons(s[LeadingSpaces(s)], tail);
      } else {
        var tail := StripAroundPunct(s[1..]);
        assert StripAroundPunct(s) == [s[0]] + tail;
        StripLeavesNoBlankBesidePunct(s[1..]);
        PunctIsNotSpace(s[0]);
        if IsSpace(s[0]) && tail != [] {
          assert !IsPunct(tail[0]) by {
            StripHeadPunct(s[1..]);
            assert LeadingSpaces(s[1..]) == LeadingSpaces(s) - 1;
          }
        }
        NoBlankBesidePunctCons(s[0], tail);
      }
    }
  }

  lemma NoBlankBesidePunctCons(c: char, t: string)
    requires NoBlankBesidePunct(t)
    requires t != [] ==> !(IsSpace(c) && IsPunct(t[0])) && !(IsPunct(c) && IsSpace(t[0]))
    ensures NoBlankBesidePunct([c] + t)
  {
    var r := [c] + t;
    forall i | 0 <= i < |r| - 1
      ensures !(IsSpace(r[i]) && IsPunct(r[i + 1])) && !(IsPunct(r[i]) && IsSpace(r[i + 1]))
    {
      if i > 0 {
        assert r[i] == t[i - 1] && r[i + 1] == t[i];
      }
    }
  }

  /** The replacement only deletes: every character it keeps came from the input. */
  lemma {:induction false} StripKeepsChars(s: string)
    ensures forall c :: c in StripAroundPunct(s) ==> c in s
    decreases |s|
  {
    if s != [] {
      if PunctAhead(s) {
        var t := AfterPunct(s);
        StripKeepsChars(t);
        assert forall c :: c in t ==> c in s;
      } else {
        StripKeepsChars(s[1..]);
        assert forall c :: c in s[1..] ==> c in s;
      }
    }
  }

  /** Every blank the replacement keeps is a plain space when every blank of
      its input is. */
  lemma StripKeepsBlanksAreSpaces(s: string)
    requires BlanksAreSpaces(s)
    ensures BlanksAreSpaces(StripAroundPunct(s))
  {
    var r := StripAroundPunct(s);
    StripKeepsChars(s);
    forall i | 0 <= i < |r| && IsSpace(r[i]) ensures r[i] == ' ' {
      assert r[i] in s;
      var j :| 0 <= j < |s| && s[j] == r[i];
    }
  }

  /** Deleting whitespace beside punctuation never makes two blanks adjacent. */
  lemma {:induction false} StripKeepsNoDoubleBlank(s: string)
    requires NoDoubleBlank(s)
    ensures NoDoubleBlank(StripAroundPunct(s))
    decreases |s|
  {
    if s != [] {
      if PunctAhead(s) {
        var t := AfterPunct(s);
        NoDoubleBlankSuffix(s, |s| - |t|);
        StripKeepsNoDoubleBlank(t);
        PunctIsNotSpace(s[LeadingSpaces(s)]);
        NoDoubleBlankCons(s[LeadingSpaces(s)], StripAroundPunct(t));
      } else {
        NoDoubleBlankSuffix(s, 1);
        StripKeepsNoDoubleBlank(s[1..]);
        var tail := StripAroundPunct(s[1..]);
        if IsSpace(s[0]) && tail != [] {
          assert !IsSpace(s[1]);
        }
        NoDoubleBlankCons(s[0], tail);
      }
    }
  }

  lemma NoDoubleBlankSuffix(s: string, j: nat)
    requires j <= |s| && NoDoubleBlank(s)
    ensures NoDoubleBlank(s[j..])
  {
    var t := s[j..];
    forall i | 0 <= i < |t| - 1 ensures !(IsSpace(t[i]) && IsSpace(t[i + 1])) {
      assert t[i] == s[j + i] && t[i + 1] == s[j + i + 1];
    }
  }

  lemma NoDoubleBlankCons(c: char, t: string)
    requires NoDoubleBlank(t)
    requires IsSpace(c) && t != [] ==> !IsSpace(t[0])
    ensures NoDoubleBlank([c] + t)
  {
    var r := [c] + t;
    forall i | 0 <= i < |r| - 1 ensures !(IsSpace(r[i]) && IsSpace(r[i + 1])) {
      if i > 0 {
        assert r[i] == t[i - 1] && r[i + 1] == t[i];
      }
    }
  }

  predicate BlanksAreSpaces(s: string) {
    forall i :: 0 <= i < |s| && IsSpace(s[i]) ==> s[i] == ' '
  }

  predicate NoDoubleBlank(s: string) {
    forall i :: 0 <= i < |s| - 1 ==> !(IsSpace(s[i]) && IsSpace(s[i + 1]))
  }

  predicate NoBlankAtEnds(s: string) {
    s == [] || (!IsSpace(s[0]) && !IsSpace(s[|s| - 1]))
  }

  predicate NoBlankBesidePunct(s: string) {
    forall i :: 0 <= i < |s| - 1 ==>
      !(IsSpace(s[i]) && IsPunct(s[i + 1])) && !(IsPunct(s[i]) && IsSpace(s[i + 1]))
  }

  /** The shape `normalizeCode` promises. */
  predicate Normalized(s: string) {
    NoBlankAtEnds(s) && BlanksAreSpaces(s) && NoDoubleBlank(s) && NoBlankBesidePunct(s)
  }

  /** `normalizeCode`: the result has no blank at either end, only plain
      spaces as blanks, never two blanks in a row and no blank beside
      punctuation, and its non-blank characters are those of the input, in
      order. */
  function NormalizeCode(code: string): (r: string)
    ensures Normalized(r)
    ensures NonBlank(r) == NonBlank(code)
  {
    var t := Trim(code);
    var c := ReplaceCrLf(t);
    var collapsed := CollapseSpaces(c);
    StagesKeepEnds(t);
    CollapseShape(c);
    StripLeavesNoBlankBesidePunct(collapsed);
    StripKeepsBlanksAreSpaces(collapsed);
    StripKeepsNoDoubleBlank(collapsed);
    TrimKeepsText(code);
    ReplaceCrLfKeepsText(t);
    CollapseKeepsText(c);
    StripKeepsText(collapsed);
    StripAroundPunct(collapsed)
  }

  /** Text without a blank at either end keeps that through the three
      rewriting steps. */
  lemma StagesKeepEnds(t: string)
    requires NoBlankAtEnds(t)
    ensures NoBlankAtEnds(StripAroundPunct(CollapseSpaces(ReplaceCrLf(t))))
  {
    var c := ReplaceCrLf(t);
    var collapsed := CollapseSpaces(c);
    if t == [] {
      assert c == [] && collapsed == [];
    } else {
      assert NoBlankAtEnds(collapsed) && collapsed != [] by {
        assert c != [] && !IsSpace(c[0]) && !IsSpace(c[|c| - 1]);
        CollapseEnds(c);
      }
      StripKeepsLast(collapsed);
    }
  }

  lemma {:induction false} NonBlankConcat(a: string, b: string)
    ensures NonBlank(a + b) == NonBlank(a) + NonBlank(b)
    decreases |a|
  {
    if a == [] {
      assert a + b == b;
    } else {
      NonBlankConcat(a[1..], b);
      assert (a + b)[0] == a[0];
      assert (a + b)[1..] == a[1..] + b;
      assert NonBlank(a + b) == Kept(a[0]) + NonBlank(a[1..] + b);
      assert NonBlank(a) == Kept(a[0]) + NonBlank(a[1..]);
    }
  }

  lemma {:induction false} NonBlankAllSpace(s: string)
    requires AllSpace(s)
    ensures NonBlank(s) == []
    decreases |s|
  {
    if s != [] {
      NonBlankAllSpace(s[1..]);
    }
  }

  /** Dropping a whitespace prefix does not change the text. */
  lemma NonBlankSkip(s: string, k: nat)
    requires k <= |s| && AllSpace(s[..k])
    ensures NonBlank(s[k..]) == NonBlank(s)
  {
    NonBlankConcat(s[..k], s[k..]);
    NonBlankAllSpace(s[..k]);
    assert s[..k] + s[k..] == s;
  }

  lemma TrimStartKeepsText(s: string)
    ensures NonBlank(TrimStart(s)) == NonBlank(s)
  {
    LeadingSpacesSkipsSpace(s);
    NonBlankSkip(s, LeadingSpaces(s));
  }

  lemma TrimEndKeepsText(a: string)
    ensures NonBlank(TrimEnd(a)) == NonBlank(a)
  {
    var b := TrimEnd(a);
    var tail := a[|b|..];
    TrailingSpacesSkipsSpace(a);
    NonBlankConcat(b, tail);
    NonBlankAllSpace(tail);
    assert b + tail == a;
  }

  lemma TrimKeepsText(s: string)
    ensures NonBlank(Trim(s)) == NonBlank(s)
  {
    TrimStartKeepsText(s);
    TrimEndKeepsText(TrimStart(s));
  }

  lemma {:induction false} ReplaceCrLfKeepsText(s: string)
    ensures NonBlank(ReplaceCrLf(s)) == NonBlank(s)
    decreases |s|
  {
    if s != [] {
      if |s| >= 2 && s[0] == '\r' && s[1] == '\n' {
        ReplaceCrLfKeepsText(s[2..]);
        NonBlankSkip(s, 2);
        NonBlankSkip("\n" + ReplaceCrLf(s[2..]), 1);
        assert ("\n" + ReplaceCrLf(s[2..]))[1..] == ReplaceCrLf(s[2..]);
      } else {
        ReplaceCrLfKeepsText(s[1..]);
        assert ([s[0]] + ReplaceCrLf(s[1..]))[1..] == ReplaceCrLf(s[1..]);
      }
    }
  }

  lemma {:induction false} CollapseKeepsText(s: string)
    ensures NonBlank(CollapseSpaces(s)) == NonBlank(s)
    decreases |s|
  {
    if s != [] {
      if IsSpace(s[0]) {
        var k := LeadingSpaces(s);
        CollapseKeepsText(s[k..]);
        LeadingSpacesSkipsSpace(s);
        NonBlankSkip(s, k);
        assert ([' '] + CollapseSpaces(s[k..]))[1..] == CollapseSpaces(s[k..]);
      } else {
        CollapseKeepsText(s[1..]);
        assert ([s[0]] + CollapseSpaces(s[1..]))[1..] == CollapseSpaces(s[1..]);
      }
    }
  }

  lemma {:induction false} StripKeepsText(s: string)
    ensures NonBlank(StripAroundPunct(s)) == NonBlank(s)
    decreases |s|
  {
    if s != [] {
      if PunctAhead(s) {
        var t := AfterPunct(s);
        StripKeepsText(t);
        AfterPunctKeepsText(s);
        assert ([s[LeadingSpaces(s)]] + StripAroundPunct(t))[1..] == StripAroundPunct(t);
      } else {
        StripKeepsText(s[1..]);
        assert ([s[0]] + StripAroundPunct(s[1..]))[1..] == StripAroundPunct(s[1..]);
      }
    }
  }

  /** A match removes only whitespace besides the punctuation character it keeps. */
  lemma AfterPunctKeepsText(s: string)
    requires PunctAhead(s)
    ensures NonBlank(s) == [s[LeadingSpaces(s)]] + NonBlank(AfterPunct(s))
  {
    var k := LeadingSpaces(s);
    var rest := s[k + 1..];
    PunctIsNotSpace(s[k]);
    LeadingSpacesSkipsSpace(s);
    LeadingSpacesSkipsSpace(rest);
    NonBlankSkip(s, k);
    NonBlankSkip(rest, LeadingSpaces(rest));
    assert s[k..][1..] == rest;
  }

  /** No carriage return is directly followed by a line feed. */
  predicate NoCrLf(s: string) {
    forall i :: 0 <= i < |s| - 1 ==> !(s[i] == '\r' && s[i + 1] == '\n')
  }

  /** Text without a CR LF pair is left unchanged; together with
      `ReplaceCrLfPair` this says what the step does to every input. */
  lemma {:induction false} ReplaceCrLfIdle(s: string)
    requires NoCrLf(s)
    ensures ReplaceCrLf(s) == s
    decreases |s|
  {
    if s != [] {
      assert !(|s| >= 2 && s[0] == '\r' && s[1] == '\n');
      assert NoCrLf(s[1..]) by {
        forall i | 0 <= i < |s| - 2 ensures !(s[1..][i] == '\r' && s[1..][i + 1] == '\n') {
          assert s[1..][i] == s[i + 1] && s[1..][i + 1] == s[i + 2];
        }
      }
      ReplaceCrLfIdle(s[1..]);
      assert [s[0]] + s[1..] == s;
    }
  }

  /** Each CR LF pair becomes one LF, and the text on either side of it is
      rewritten on its own: the scan never joins a carriage return before
      the pair with the pair's line feed. */
  lemma {:induction false} ReplaceCrLfPair(x: string, y: string)
    ensures ReplaceCrLf(x + "\r\n" + y) == ReplaceCrLf(x) + "\n" + ReplaceCrLf(y)
    decreases |x|
  {
    var s := x + "\r\n" + y;
    if x == [] {
      assert s == "\r\n" + y && s[2..] == y;
    } else {
      var pair := |x| >= 2 && x[0] == '\r' && x[1] == '\n';
      var k := if pair then 2 else 1;
      var h := if pair then "\n" else [x[0]];
      assert s[k..] == x[k..] + "\r\n" + y by {
        Reassociate(x, "\r\n", y);
        DropAppend(x, "\r\n" + y, k);
        Reassociate(x[k..], "\r\n", y);
      }
      assert ReplaceCrLf(s) == h + ReplaceCrLf(s[k..]) by {
        assert s[0] == x[0] && (pair ==> s[1] == '\n');
        assert !pair ==> !(s[0] == '\r' && s[1] == '\n');
      }
      assert ReplaceCrLf(x) == h + ReplaceCrLf(x[k..]);
      ReplaceCrLfPair(x[k..], y);
      var mid := ReplaceCrLf(x[k..]);
      Reassociate(h, mid + "\n", ReplaceCrLf(y));
      Reassociate(h, mid, "\n");
    }
  }

  lemma {:induction false} CollapseIdle(s: string)
    requires BlanksAreSpaces(s) && NoDoubleBlank(s)
    ensures CollapseSpaces(s) == s
    decreases |s|
  {
    if s != [] {
      if IsSpace(s[0]) {
        assert LeadingSpaces(s) == 1;
      }
      CollapseIdle(s[1..]);
      assert [s[0]] + s[1..] == s;
    }
  }

  lemma {:induction false} StripIdle(s: string)
    requires NoDoubleBlank(s) && NoBlankBesidePunct(s)
    ensures StripAroundPunct(s) == s
    decreases |s|
  {
    if s != [] {
      if IsSpace(s[0]) {
        assert LeadingSpaces(s[1..]) == 0;
        assert !PunctAhead(s);
      } else if IsPunct(s[0]) {
        assert LeadingSpaces(s[1..]) == 0;
        assert AfterPunct(s) == s[1..];
      }
      NoDoubleBlankSuffix(s, 1);
      StripIdle(s[1..]);
      assert [s[0]] + s[1..] == s;
    }
  }

  /** Neither whitespace nor punctuation: a character of a word. */
  predicate Plain(c: char) {
    !IsSpace(c) && !IsPunct(c)
  }

  predicate BlankFree(s: string) {
    forall i :: 0 <= i < |s| ==> !IsSpace(s[i])
  }

  /** A whitespace run in front of a non-blank is exactly what
      `LeadingSpaces` counts. */
  lemma {:induction false} LeadingSpacesRun(w: string, y: string)
    requires AllSpace(w) && (y == [] || !IsSpace(y[0]))
    ensures LeadingSpaces(w + y) == |w|
    decreases |w|
  {
    if w == [] {
      assert w + y == y;
    } else {
      LeadingSpacesRun(w[1..], y);
      assert (w + y)[1..] == w[1..] + y;
    }
  }

  /** Text appended after the first non-blank does not change `LeadingSpaces`. */
  lemma {:induction false} LeadingSpacesPrefix(x: string, z: string)
    requires LeadingSpaces(x) < |x|
    ensures LeadingSpaces(x + z) == LeadingSpaces(x)
    decreases |x|
  {
    if IsSpace(x[0]) {
      LeadingSpacesPrefix(x[1..], z);
      assert (x + z)[1..] == x[1..] + z;
    }
  }

  /** Every whitespace run becomes exactly one space, whatever its length
      and its characters; the text on either side is collapsed on its own. */
  lemma CollapseRun(x: string, w: string, y: string)
    requires x == [] || !IsSpace(x[|x| - 1])
    requires w != [] && AllSpace(w)
    requires y == [] || !IsSpace(y[0])
    ensures CollapseSpaces(x + w + y) == CollapseSpaces(x) + " " + CollapseSpaces(y)
  {
    Reassociate(x, w, y);
    CollapseConcat(x, w + y);
    CollapseLeadingRun(w, y);
    Reassociate(CollapseSpaces(x), " ", CollapseSpaces(y));
  }

  lemma Reassociate(a: string, b: string, c: string)
    ensures a + (b + c) == a + b + c
  {
  }

  lemma DropAppend(x: string, z: string, k: nat)
    requires k <= |x|
    ensures (x + z)[k..] == x[k..] + z
  {
  }

  /** Collapsing works separately on both sides of a non-blank. */
  lemma {:induction false} CollapseConcat(a: string, b: string)
    requires a == [] || !IsSpace(a[|a| - 1])
    ensures CollapseSpaces(a + b) == CollapseSpaces(a) + CollapseSpaces(b)
    decreases |a|
  {
    if a == [] {
      assert a + b == b;
    } else {
      var k := Cut(a);
      var h := [Squash(a[0])];
      CollapseStep(a, b);
      CollapseConcat(a[k..], b);
      Reassociate(h, CollapseSpaces(a[k..]), CollapseSpaces(b));
    }
  }

  /** How far one step of `CollapseSpaces` advances, and what it emits. */
  function Cut(a: string): nat
    requires a != []
  {
    if IsSpace(a[0]) then LeadingSpaces(a) else 1
  }

  function Squash(c: char): char {
    if IsSpace(c) then ' ' else c
  }

  /** A run at the head of the text becomes one space. */
  lemma CollapseLeadingRun(w: string, y: string)
    requires w != [] && AllSpace(w)
    requires y == [] || !IsSpace(y[0])
    ensures CollapseSpaces(w + y) == " " + CollapseSpaces(y)
  {
    LeadingSpacesRun(w, y);
    assert (w + y)[|w|..] == y;
  }

  /** One step of `CollapseSpaces` on `x + z` stays inside `x` when `x`
      ends with a non-blank. */
  lemma CollapseStep(x: string, z: string)
    requires x != [] && !IsSpace(x[|x| - 1])
    ensures 0 < Cut(x) <= |x|
    ensures Cut(x) < |x| ==> x[Cut(x)..][|x| - Cut(x) - 1] == x[|x| - 1]
    ensures CollapseSpaces(x + z) == [Squash(x[0])] + CollapseSpaces(x[Cut(x)..] + z)
    ensures CollapseSpaces(x) == [Squash(x[0])] + CollapseSpaces(x[Cut(x)..])
  {
    var k := Cut(x);
    if IsSpace(x[0]) {
      LeadingSpacesBeforeLast(x);
      LeadingSpacesPrefix(x, z);
    }
    assert (x + z)[k..] == x[k..] + z;
  }

  /** Whitespace in front of a word character is copied. */
  lemma {:induction false} StripKeepsSpaceRun(w: string, y: string)
    requires AllSpace(w) && (y == [] || Plain(y[0]))
    ensures StripAroundPunct(w + y) == w + StripAroundPunct(y)
    decreases |w|
  {
    if w == [] {
      assert w + y == y;
    } else {
      LeadingSpacesRun(w, y);
      assert !PunctAhead(w + y);
      DropAppend(w, y, 1);
      StripKeepsSpaceRun(w[1..], y);
      Reassociate([w[0]], w[1..], StripAroundPunct(y));
      assert [w[0]] + w[1..] == w;
    }
  }

  /** Whitespace with a word character on both sides survives the
      punctuation step unchanged, and the text on either side is rewritten
      on its own. */
  lemma StripKeepsBlankBetweenWords(x: string, w: string, y: string)
    requires x == [] || Plain(x[|x| - 1])
    requires AllSpace(w)
    requires y == [] || Plain(y[0])
    ensures StripAroundPunct(x + w + y) == StripAroundPunct(x) + w + StripAroundPunct(y)
  {
    Reassociate(x, w, y);
    StripConcat(x, w + y);
    StripKeepsSpaceRun(w, y);
    Reassociate(StripAroundPunct(x), w, StripAroundPunct(y));
  }

  /** Whitespace on both sides of a punctuation character is removed, and
      the punctuation character is kept. */
  lemma StripDropsBlanksAroundPunct(w: string, p: char, v: string, y: string)
    requires AllSpace(w) && IsPunct(p) && AllSpace(v)
    requires y == [] || !IsSpace(y[0])
    ensures StripAroundPunct(w + [p] + v + y) == [p] + StripAroundPunct(y)
  {
    var after := [p] + (v + y);
    var s := w + after;
    assert w + [p] + v + y == s by {
      Reassociate(w, [p] + v, y);
      Reassociate(w, [p], v);
      Reassociate([p], v, y);
    }
    assert PunctAhead(s) && s[LeadingSpaces(s)] == p by {
      PunctIsNotSpace(p);
      LeadingSpacesRun(w, after);
      DropAppend(w, after, |w|);
      assert w[|w|..] == [];
    }
    assert s[LeadingSpaces(s) + 1..] == v + y by {
      LeadingSpacesRun(w, after);
      DropAppend(w, after, |w|);
      assert w[|w|..] == [];
      DropAppend([p], v + y, 1);
      assert [p][1..] == [];
    }
    assert AfterPunct(s) == y by {
      LeadingSpacesRun(v, y);
      DropAppend(v, y, |v|);
      assert v[|v|..] == [];
    }
  }

  /** No match of the pattern reaches across a word character, so the text
      on either side of one is rewritten on its own. */
  lemma {:induction false} StripConcat(a: string, b: string)
    requires a == [] || Plain(a[|a| - 1])
    ensures StripAroundPunct(a + b) == StripAroundPunct(a) + StripAroundPunct(b)
    decreases |a|
  {
    if a == [] {
      assert a + b == b;
    } else {
      var k := StripCut(a);
      var h := [StripEmit(a)];
      StripStep(a, b);
      StripConcat(a[k..], b);
      Reassociate(h, StripAroundPunct(a[k..]), StripAroundPunct(b));
    }
  }

  /** How far one step of `StripAroundPunct` advances, and what it emits. */
  function StripCut(x: string): nat
    requires x != []
  {
    if PunctAhead(x) then |x| - |AfterPunct(x)| else 1
  }

  function StripEmit(x: string): char
    requires x != []
  {
    if PunctAhead(x) then x[LeadingSpaces(x)] else x[0]
  }

  /** One step of `StripAroundPunct` on `x + z` stays inside `x` when `x`
      ends with a word character. */
  lemma StripStep(x: string, z: string)
    requires x != [] && Plain(x[|x| - 1])
    ensures 0 < StripCut(x) <= |x|
    ensures StripCut(x) < |x| ==> x[StripCut(x)..][|x| - StripCut(x) - 1] == x[|x| - 1]
    ensures StripAroundPunct(x + z) == [StripEmit(x)] + StripAroundPunct(x[StripCut(x)..] + z)
    ensures StripAroundPunct(x) == [StripEmit(x)] + StripAroundPunct(x[StripCut(x)..])
  {
    LeadingSpacesBeforeLast(x);
    LeadingSpacesPrefix(x, z);
    if PunctAhead(x) {
      StripMatchInside(x, z);
      var t := AfterPunct(x);
      assert x[StripCut(x)..] == t;
      assert t != [] ==> t[|t| - 1] == x[|x| - 1];
    } else {
      assert !PunctAhead(x + z);
      DropAppend(x, z, 1);
    }
  }

  /** A match at the head of `x` is the same match at the head of `x + z`. */
  lemma StripMatchInside(x: string, z: string)
    requires x != [] && Plain(x[|x| - 1]) && PunctAhead(x)
    ensures PunctAhead(x + z) && LeadingSpaces(x + z) == LeadingSpaces(x)
    ensures AfterPunct(x + z) == AfterPunct(x) + z
  {
    LeadingSpacesBeforeLast(x);
    var k := LeadingSpaces(x);
    LeadingSpacesPrefix(x, z);
    var rest := x[k + 1..];
    LeadingSpacesBeforeLast(rest);
    var m := LeadingSpaces(rest);
    LeadingSpacesPrefix(rest, z);
    DropAppend(x, z, k + 1);
    DropAppend(rest, z, m);
  }

  /** On text already in collapsed form only the punctuation step acts. */
  lemma CollapsedOnlyStrips(s: string)
    requires NoBlankAtEnds(s) && BlanksAreSpaces(s) && NoDoubleBlank(s)
    ensures NormalizeCode(s) == StripAroundPunct(s)
  {
    assert Trim(s) == s by {
      assert LeadingSpaces(s) == 0 && TrailingSpaces(s) == 0;
      assert s[0..] == s && s[..|s|] == s;
    }
    ReplaceCrLfIdle(s);
    CollapseIdle(s);
  }

  /** The space between two words survives normalisation: normalising
      `a b` gives the normalised words joined by one space. */
  lemma NormalizeKeepsWordGap(a: string, b: string)
    requires a != [] && b != [] && BlankFree(a) && BlankFree(b)
    requires Plain(a[|a| - 1]) && Plain(b[0])
    ensures NormalizeCode(a + " " + b) == NormalizeCode(a) + " " + NormalizeCode(b)
  {
    var s := a + " " + b;
    assert NormalizeCode(s) == StripAroundPunct(s) by {
      assert NoDoubleBlank(s) by {
        forall i | 0 <= i < |s| - 1 ensures !(IsSpace(s[i]) && IsSpace(s[i + 1])) {
          if i < |a| - 1 {
            assert s[i + 1] == a[i + 1];
          } else if i > |a| {
            assert s[i] == b[i - |a| - 1];
          }
        }
      }
      CollapsedOnlyStrips(s);
    }
    CollapsedOnlyStrips(a);
    CollapsedOnlyStrips(b);
    StripKeepsBlankBetweenWords(a, " ", b);
  }

  /** The spaces around an operator disappear: normalising `a p b`, with
      one space on each side of the punctuation character `p`, gives the
      normalised words with `p` between them. */
  lemma NormalizeDropsGapAroundPunct(a: string, p: char, b: string)
    requires a != [] && b != [] && BlankFree(a) && BlankFree(b)
    requires Plain(a[|a| - 1]) && IsPunct(p)
    ensures NormalizeCode(a + " " + [p] + " " + b) == NormalizeCode(a) + [p] + NormalizeCode(b)
  {
    var s := a + " " + [p] + " " + b;
    var rest := " " + [p] + " " + b;
    assert NormalizeCode(s) == StripAroundPunct(s) by {
      PunctGapShape(a, p, b);
      CollapsedOnlyStrips(s);
    }
    assert s == a + rest by {
      Reassociate(a, " " + [p] + " ", b);
      Reassociate(a, " " + [p], " ");
      Reassociate(a, " ", [p]);
    }
    StripConcat(a, rest);
    StripDropsBlanksAroundPunct(" ", p, " ", b);
    CollapsedOnlyStrips(a);
    CollapsedOnlyStrips(b);
    Reassociate(StripAroundPunct(a), [p], StripAroundPunct(b));
  }

  lemma PunctGapShape(a: string, p: char, b: string)
    requires a != [] && b != [] && BlankFree(a) && BlankFree(b) && IsPunct(p)
    ensures var s := a + " " + [p] + " " + b;
      NoBlankAtEnds(s) && BlanksAreSpaces(s) && NoDoubleBlank(s)
  {
    var s := a + " " + [p] + " " + b;
    PunctIsNotSpace(p);
    forall i | 0 <= i < |s| - 1 ensures !(IsSpace(s[i]) && IsSpace(s[i + 1])) {
      if i < |a| - 1 {
        assert s[i + 1] == a[i + 1];
      } else if i > |a| + 2 {
        assert s[i] == b[i - |a| - 3];
      }
    }
  }

  /** Normalising twice is normalising once. */
  lemma NormalizeIdempotent(code: string)
    ensures NormalizeCode(NormalizeCode(code)) == NormalizeCode(code)
  {
    var n := NormalizeCode(code);
    assert Trim(n) == n by {
      assert LeadingSpaces(n) == 0 && TrailingSpaces(n) == 0;
      assert n[0..] == n && n[..|n|] == n;
    }
    ReplaceCrLfIdle(n);
    CollapseIdle(n);
    StripIdle(n);
  }
}

