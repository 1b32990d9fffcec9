/**
 * The word-search page: it holds the loaded puzzle and the list of words
 * reported found by the grid, and shows the answer words beside the grid.
 */
module WordSearchPage {
  import opened Wrappers
  import opened WordSearchGrid

  /** The puzzle payload: the grid text and the answer placements. */
  datatype WordSearchData = WordSearchData(wordSearch: string, answers: seq<Placement>)

  /** The words listed beside the grid: the answers' words, in answer order,
      duplicates included. */
  function Words(answers: seq<Placement>): (words: seq<string>)
    ensures |words| == |answers|
    ensures forall i :: 0 <= i < |answers| ==> words[i] == answers[i].word
  {
    if answers == [] then [] else [answers[0].word] + Words(answers[1..])
  }

  predicate NoDuplicates(s: seq<string>) {
    forall i, j :: 0 <= i < j < |s| ==> s[i] != s[j]
  }

  /** The found list after the grid reports `w`: `w` is appended when it is
      not yet listed. */
  function Recorded(found: seq<string>, w: string): (r: seq<string>)
    ensures w in r
    ensures forall v :: v in r <==> v in found || v == w
    ensures |found| <= |r| <= |found| + 1 && r[..|found|] == found
    ensures w in found ==> r == found
    ensures NoDuplicates(found) ==> NoDuplicates(r)
  {
    if w in found then found else found + [w]
  }

  /** The found list after a run of reports starting from `found`. */
  function RecordAll(found: seq<string>, reports: seq<string>): seq<string>
    decreases reports
  {
    if reports == [] then found else RecordAll(Recorded(found, reports[0]), reports[1..])
  }

  /** A run of reports keeps the list free of duplicates, keeps what was
      listed as a prefix, and adds exactly the reported words, at most one
      entry per report. From the empty list a load sets, the list is then
      the distinct reported words. */
  lemma {:induction false} RecordAllDistinct(found: seq<string>, reports: seq<string>)
    requires NoDuplicates(found)
    ensures NoDuplicates(RecordAll(found, reports))
    ensures forall v :: v in RecordAll(found, reports) <==> v in found || v in reports
    ensures |found| <= |RecordAll(found, reports)| <= |found| + |reports|
    ensures RecordAll(found, reports)[..|found|] == found
    decreases reports
  {
    if reports != [] {
      var next := Recorded(found, reports[0]);
      RecordAllDistinct(next, reports[1..]);
      var r := RecordAll(next, reports[1..]);
      assert r == RecordAll(found, reports);
      assert forall v :: v in reports <==> v == reports[0] || v in reports[1..];
      assert r[..|found|] == r[..|next|][..|found|];
    }
  }

  /** The page's own state (the network flags are not modelled). */
  class PageState {
    var data: Option<WordSearchData>
    var foundWords: seq<string>

    ghost predicate Valid()
      reads this
    {
      NoDuplicates(foundWords)
    }

    constructor ()
      ensures Valid() && data == None && foundWords == []
    {
      data := None;
      foundWords := [];
    }

    /** A successful load stores the puzzle and empties the found list. */
    method LoadSucceeded(d: WordSearchData)
      modifies this
      ensures Valid() && data == Some(d) && foundWords == []
    {
      data := Some(d);
      foundWords := [];
    }

    /** The `onWordFound` callback. */
    method HandleWordFound(word: string)
      requires Valid()
      modifies this`foundWords
      ensures Valid() && foundWords == Recorded(old(foundWords), word)
    {
      if word !in foundWords {
        foundWords := foundWords + [word];
      }
    }

    /** The word list shown beside the grid, once a puzzle is loaded. */
    function WordList(): (words: Option<seq<string>>)
      reads this
      ensures words.Some? <==> data.Some?
      ensures words.Some? ==> |words.value| == |data.value.answers|
      ensures words.Some? ==> words.value == Words(data.value.answers)
    {
      if data.Some? then Some(Words(data.value.answers)) else None
    }
  }
}
