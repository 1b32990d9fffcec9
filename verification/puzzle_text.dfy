/**
 * The puzzle text format: rows separated by a line break, cells within a
 * row separated by a single space. `Split` is JavaScript's
 * `String.prototype.split` with a one-character separator.
 */
module PuzzleText {

  /** The number of occurrences of `c` in `s`. */
  function Count(s: string, c: char): nat {
    if s == [] then 0 else (if s[0] == c then 1 else 0) + Count(s[1..], c)
  }

  /** `s.split(sep)`: the pieces between occurrences of `sep`, always at
      least one (the empty string yields `[""]`). */
  function Split(s: string, sep: char): (parts: seq<string>)
    ensures |parts| == Count(s, sep) + 1
    ensures forall k :: 0 <= k < |parts| ==> sep !in parts[k]
    ensures forall k, ch :: 0 <= k < |parts| && ch in parts[k] ==> ch in s
  {
    if s == [] then [""]
    else
      var rest := Split(s[1..], sep);
      assert forall ch :: ch in s[1..] ==> ch in s;
      if s[0] == sep then [""] + rest
      else [[s[0]] + rest[0]] + rest[1..]
  }

  /** `parts.join(sep)`. */
  function Join(parts: seq<string>, sep: char): string
    requires |parts| >= 1
  {
    if |parts| == 1 then parts[0] else parts[0] + [sep] + Join(parts[1..], sep)
  }

  /** Joining the pieces back with the separator gives the text again. */
  lemma {:induction false} JoinSplit(s: string, sep: char)
    ensures Join(Split(s, sep), sep) == s
  {
    if s != [] {
      JoinSplit(s[1..], sep);
      var rest := Split(s[1..], sep);
      if s[0] != sep {
        if |rest| == 1 {
        } else {
          assert ([s[0]] + rest[0]) + [sep] + Join(rest[1..], sep)
              == [s[0]] + (rest[0] + [sep] + Join(rest[1..], sep));
        }
      }
    }
  }

  /** Splitting a join of separator-free pieces gives the pieces back. */
  lemma {:induction false} SplitJoin(parts: seq<string>, sep: char)
    requires |parts| >= 1
    requires forall k :: 0 <= k < |parts| ==> sep !in parts[k]
    ensures Split(Join(parts, sep), sep) == parts
  {
    if |parts| == 1 {
      SplitPiece(parts[0], sep);
    } else {
      SplitJoin(parts[1..], sep);
      SplitPieceThen(parts[0], sep, Join(parts[1..], sep));
      assert [parts[0]] + parts[1..] == parts;
    }
  }

  lemma {:induction false} SplitPiece(w: string, sep: char)
    requires sep !in w
    ensures Split(w, sep) == [w]
  {
    if w != [] {
      SplitPiece(w[1..], sep);
      assert [w[0]] + w[1..] == w;
    }
  }

  lemma {:induction false} SplitPieceThen(w: string, sep: char, t: string)
    requires sep !in w
    ensures Split(w + [sep] + t, sep) == [w] + Split(t, sep)
  {
    if w == [] {
      assert w + [sep] + t == [sep] + t;
      assert ([sep] + t)[1..] == t;
    } else {
      SplitPieceThen(w[1..], sep, t);
      assert (w + [sep] + t)[1..] == w[1..] + [sep] + t;
      assert [w[0]] + w[1..] == w;
    }
  }

  /** The grid as the component parses it: one row per line, one cell per
      space-separated token. */
  function ParseGrid(text: string): (grid: seq<seq<string>>)
    ensures |grid| == Count(text, '\n') + 1
    ensures forall r :: 0 <= r < |grid| ==> |grid[r]| >= 1
    ensures forall r, c :: 0 <= r < |grid| && 0 <= c < |grid[r]| ==>
      '\n' !in grid[r][c] && ' ' !in grid[r][c]
  {
    var rows := Split(text, '\n');
    seq(|rows|, i requires 0 <= i < |rows| => Split(rows[i], ' '))
  }

  /** Writing the rows back out, cells joined by a space and rows by a line
      break, gives the puzzle text again: parsing loses nothing. */
  lemma ParseGridRoundTrip(text: string)
    ensures var grid := ParseGrid(text);
      Join(seq(|grid|, i requires 0 <= i < |grid| => Join(grid[i], ' ')), '\n') == text
  {
    var rows := Split(text, '\n');
    var grid := ParseGrid(text);
    forall i | 0 <= i < |rows| ensures Join(grid[i], ' ') == rows[i] {
      JoinSplit(rows[i], ' ');
    }
    assert seq(|grid|, i requires 0 <= i < |grid| => Join(grid[i], ' ')) == rows;
    JoinSplit(text, '\n');
  }
}
