/**
 * The word-search grid component: it parses the puzzle text, runs the
 * two-click selection, highlights the straight path under the pointer,
 * matches a finished selection against the answer placements and projects
 * the solved words back onto the grid.
 */
module WordSearchGrid {
  import opened Wrappers
  import opened Geometry
  import opened PuzzleText

  /** An answer placement as the puzzle service supplies it. The direction
      label is carried but never consulted. */
  datatype Placement = Placement(word: string, start: Cell, end: Cell, direction: string)

  /** The selection `a`..`b` covers the placement's endpoints, in either order. */
  predicate Spans(p: Placement, a: Cell, b: Cell) {
    (a == p.start && b == p.end) || (a == p.end && b == p.start)
  }

  /** The word of the first answer, in list order, whose endpoints are the
      unordered pair {a, b}. */
  function FirstMatch(answers: seq<Placement>, a: Cell, b: Cell): Option<string> {
    if answers == [] then None
    else if Spans(answers[0], a, b) then Some(answers[0].word)
    else FirstMatch(answers[1..], a, b)
  }

  /** Matching does not depend on which endpoint was clicked first. */
  lemma {:induction false} FirstMatchSymmetric(answers: seq<Placement>, a: Cell, b: Cell)
    ensures FirstMatch(answers, a, b) == FirstMatch(answers, b, a)
  {
    if answers != [] {
      FirstMatchSymmetric(answers[1..], a, b);
    }
  }

  /** `FirstMatch` finds nothing exactly when no answer spans the pair, and
      otherwise gives the word of the first answer that does. */
  lemma {:induction false} FirstMatchIsFirst(answers: seq<Placement>, a: Cell, b: Cell)
    ensures FirstMatch(answers, a, b).None? <==>
      forall k :: 0 <= k < |answers| ==> !Spans(answers[k], a, b)
    ensures FirstMatch(answers, a, b).Some? ==>
      exists k :: 0 <= k < |answers| && Spans(answers[k], a, b) &&
        FirstMatch(answers, a, b).value == answers[k].word &&
        forall j :: 0 <= j < k ==> !Spans(answers[j], a, b)
  {
    if answers != [] && !Spans(answers[0], a, b) {
      FirstMatchIsFirst(answers[1..], a, b);
      if FirstMatch(answers, a, b).Some? {
        var k :| 0 <= k < |answers| - 1 && Spans(answers[1..][k], a, b) &&
          FirstMatch(answers, a, b).value == answers[1..][k].word &&
          forall j :: 0 <= j < k ==> !Spans(answers[1..][j], a, b);
        assert Spans(answers[k + 1], a, b);
      }
    } else if answers != [] {
      assert Spans(answers[0], a, b);
    }
  }

  /** The cell lies on the stepped path of an answer whose word is solved. */
  predicate Highlighted(answers: seq<Placement>, found: set<string>, x: Cell) {
    exists k :: 0 <= k < |answers| && answers[k].word in found && x in Path(answers[k].start, answers[k].end)
  }

  /** Once the word matched by a straight selection is solved, every cell of
      that selection is shown as solved, whichever end was clicked first. */
  lemma MatchedSelectionHighlighted(answers: seq<Placement>, found: set<string>, a: Cell, b: Cell, x: Cell)
    requires FirstMatch(answers, a, b).Some? && FirstMatch(answers, a, b).value in found
    requires Straight(a, b) && x in Path(a, b)
    ensures Highlighted(answers, found, x)
  {
    FirstMatchIsFirst(answers, a, b);
    var k :| 0 <= k < |answers| && Spans(answers[k], a, b) &&
      FirstMatch(answers, a, b).value == answers[k].word &&
      forall j :: 0 <= j < k ==> !Spans(answers[j], a, b);
    PathCellsSymmetric(a, b);
    assert x in PathCells(a, b);
    assert x in Path(answers[k].start, answers[k].end);
  }

  /** The state of one mounted grid component. */
  class GridState {
    var wordSearchString: string
    var answers: seq<Placement>
    var grid: seq<seq<string>>
    var selectionStart: Option<Cell>
    var currentEnd: Option<Cell>
    var selectedCells: set<Cell>
    var foundWords: set<string>
    var isSelecting: bool

    /** Mounting: empty state, then the parse effect runs once. */
    constructor (wordSearchString: string, answers: seq<Placement>)
      ensures this.wordSearchString == wordSearchString && this.answers == answers
      ensures grid == if wordSearchString != "" then ParseGrid(wordSearchString) else []
      ensures selectionStart == None && currentEnd == None
      ensures selectedCells == {} && foundWords == {} && !isSelecting
    {
      this.wordSearchString := wordSearchString;
      this.answers := answers;
      grid := [];
      selectionStart := None;
      currentEnd := None;
      selectedCells := {};
      foundWords := {};
      isSelecting := false;
      new;
      ParseEffect();
    }

    /** The parse effect: a non-empty puzzle text replaces the grid and
        clears the selection and the solved words; `isSelecting` is left as
        it was. An empty text changes nothing. */
    method ParseEffect()
      modifies this`grid, this`selectionStart, this`currentEnd, this`selectedCells, this`foundWords
      ensures wordSearchString == "" ==>
        grid == old(grid) && selectionStart == old(selectionStart) && currentEnd == old(currentEnd) &&
        selectedCells == old(selectedCells) && foundWords == old(foundWords)
      ensures wordSearchString != "" ==>
        grid == ParseGrid(wordSearchString) && selectionStart == None && currentEnd == None &&
        selectedCells == {} && foundWords == {}
    {
      if wordSearchString != "" {
        grid := ParseGrid(wordSearchString);
        selectionStart := None;
        currentEnd := None;
        selectedCells := {};
        foundWords := {};
      }
    }

    /** A re-render with new props: the answers are replaced, and the parse
        effect runs only when the puzzle text differs from the last one. */
    method ReceiveProps(wordSearchString: string, answers: seq<Placement>)
      modifies this
      ensures this.wordSearchString == wordSearchString && this.answers == answers
      ensures isSelecting == old(isSelecting)
      ensures wordSearchString == old(this.wordSearchString) || wordSearchString == "" ==>
        grid == old(grid) && selectionStart == old(selectionStart) && currentEnd == old(currentEnd) &&
        selectedCells == old(selectedCells) && foundWords == old(foundWords)
      ensures wordSearchString != old(this.wordSearchString) && wordSearchString != "" ==>
        grid == ParseGrid(wordSearchString) && selectionStart == None && currentEnd == None &&
        selectedCells == {} && foundWords == {}
    {
      this.answers := answers;
      if wordSearchString != this.wordSearchString {
        this.wordSearchString := wordSearchString;
        ParseEffect();
      }
    }

    /** A click starts a selection when none is active and finishes it
        otherwise. `notified` is the word passed to `onWordFound`, if any. */
    method HandleCellClick(row: int, col: int) returns (notified: Option<string>)
      modifies this`isSelecting, this`selectionStart, this`currentEnd, this`selectedCells, this`foundWords
      ensures isSelecting == !old(isSelecting)
      ensures !old(isSelecting) ==>
        selectionStart == Some(Cell(row, col)) && currentEnd == None &&
        selectedCells == {Cell(row, col)} && foundWords == old(foundWords) && notified == None
      ensures old(isSelecting) ==>
        selectionStart == old(selectionStart) && currentEnd == Some(Cell(row, col)) &&
        selectedCells == old(selectedCells) &&
        notified == (if old(selectionStart).Some? then NonEmpty(FirstMatch(answers, old(selectionStart).value, Cell(row, col))) else None) &&
        foundWords == (if notified.Some? then old(foundWords) + {notified.value} else old(foundWords))
      ensures old(foundWords) <= foundWords
    {
      notified := None;
      if !isSelecting {
        isSelecting := true;
        selectionStart := Some(Cell(row, col));
        currentEnd := None;
        selectedCells := {Cell(row, col)};
      } else {
        isSelecting := false;
        currentEnd := Some(Cell(row, col));
        if selectionStart.Some? {
          var selectedWord := CheckSelection(selectionStart.value, Cell(row, col));
          if selectedWord.Some? && selectedWord.value != "" {
            foundWords := foundWords + {selectedWord.value};
            notified := selectedWord;
          }
        }
      }
    }

    /** Hovering while a selection is active re-highlights the path from the
        anchor; anything else leaves the highlight alone. */
    method HandleCellHover(row: int, col: int)
      modifies this`selectedCells
      ensures if isSelecting && selectionStart.Some? && Straight(selectionStart.value, Cell(row, col))
        then selectedCells == PathCells(selectionStart.value, Cell(row, col))
        else selectedCells == old(selectedCells)
    {
      if isSelecting && selectionStart.Some? {
        UpdateSelectedCells(selectionStart.value, Cell(row, col));
      }
    }

    /** Highlights the stepped path from `start` to `current` when the two
        are in one row, one column or on an exact diagonal. */
    method UpdateSelectedCells(start: Cell, current: Cell)
      modifies this`selectedCells
      ensures Straight(start, current) ==> selectedCells == PathCells(start, current)
      ensures !Straight(start, current) ==> selectedCells == old(selectedCells)
    {
      var rowDiff := current.row - start.row;
      var colDiff := current.col - start.col;
      if rowDiff == 0 || colDiff == 0 || Abs(rowDiff) == Abs(colDiff) {
        var newSelectedCells: set<Cell> := {};
        var rowStep: int := if rowDiff == 0 then 0 else if rowDiff > 0 then 1 else -1;
        var colStep: int := if colDiff == 0 then 0 else if colDiff > 0 then 1 else -1;
        var steps := Max(Abs(rowDiff), Abs(colDiff));
        var i := 0;
        while i <= steps
          invariant 0 <= i <= steps + 1
          invariant newSelectedCells == set j | 0 <= j < i :: CellAt(start, current, j)
        {
          assert Cell(start.row + i * rowStep, start.col + i * colStep) == CellAt(start, current, i);
          assert (set j | 0 <= j < i + 1 :: CellAt(start, current, j))
              == (set j | 0 <= j < i :: CellAt(start, current, j)) + {CellAt(start, current, i)};
          newSelectedCells := newSelectedCells + {Cell(start.row + i * rowStep, start.col + i * colStep)};
          i := i + 1;
        }
        assert newSelectedCells == PathCells(start, current) by {
          forall x ensures x in newSelectedCells <==> x in Path(start, current) {
            if x in Path(start, current) {
              var j :| 0 <= j < |Path(start, current)| && Path(start, current)[j] == x;
              assert x == CellAt(start, current, j);
            }
            if x in newSelectedCells {
              var j :| 0 <= j <= steps && x == CellAt(start, current, j);
              assert Path(start, current)[j] == x;
            }
          }
        }
        selectedCells := newSelectedCells;
      }
    }

    /** The word of the first answer whose endpoints are {start, end}. */
    method CheckSelection(start: Cell, end: Cell) returns (r: Option<string>)
      ensures r.None? <==> forall k :: 0 <= k < |answers| ==> !Spans(answers[k], start, end)
      ensures r.Some? ==>
        exists k :: 0 <= k < |answers| && Spans(answers[k], start, end) && r.value == answers[k].word &&
          forall j :: 0 <= j < k ==> !Spans(answers[j], start, end)
      ensures r == FirstMatch(answers, start, end)
    {
      FirstMatchIsFirst(answers, start, end);
      var k := 0;
      while k < |answers|
        invariant 0 <= k <= |answers|
        invariant forall j :: 0 <= j < k ==> !Spans(answers[j], start, end)
      {
        var answerStart := answers[k].start;
        var answerEnd := answers[k].end;
        if (start.row == answerStart.row && start.col == answerStart.col &&
            end.row == answerEnd.row && end.col == answerEnd.col) ||
           (start.row == answerEnd.row && start.col == answerEnd.col &&
            end.row == answerStart.row && end.col == answerStart.col)
        {
          return Some(answers[k].word);
        }
        k := k + 1;
      }
      return None;
    }

    /** Whether the cell belongs to the path of some solved answer. */
    method IsCellInFoundWord(rowIndex: int, colIndex: int) returns (r: bool)
      ensures r == Highlighted(answers, foundWords, Cell(rowIndex, colIndex))
      ensures foundWords == {} ==> !r
    {
      var x := Cell(rowIndex, colIndex);
      var k := 0;
      while k < |answers|
        invariant 0 <= k <= |answers|
        invariant forall j :: 0 <= j < k ==>
          !(answers[j].word in foundWords && x in Path(answers[j].start, answers[j].end))
      {
        var answer := answers[k];
        if answer.word in foundWords {
          var startRow, startCol := answer.start.row, answer.start.col;
          var endRow, endCol := answer.end.row, answer.end.col;
          var rowStep: int := if startRow == endRow then 0 else if startRow < endRow then 1 else -1;
          var colStep: int := if startCol == endCol then 0 else if startCol < endCol then 1 else -1;
          var steps := Max(Abs(endRow - startRow), Abs(endCol - startCol));
          var i := 0;
          while i <= steps
            invariant 0 <= i <= steps + 1
            invariant forall j :: 0 <= j < i ==> Path(answer.start, answer.end)[j] != x
          {
            var row := startRow + i * rowStep;
            var col := startCol + i * colStep;
            assert Path(answer.start, answer.end)[i] == Cell(row, col);
            if row == rowIndex && col == colIndex {
              return true;
            }
            i := i + 1;
          }
          assert x !in Path(answer.start, answer.end);
        }
        k := k + 1;
      }
      return false;
    }
  }

  /** JavaScript's truthiness test on the matched word: the empty string
      counts as no match. */
  function NonEmpty(w: Option<string>): (r: Option<string>)
    ensures r.Some? <==> w.Some? && w.value != ""
    ensures r.Some? ==> r == w
  {
    if w.Some? && w.value != "" then w else None
  }
}
