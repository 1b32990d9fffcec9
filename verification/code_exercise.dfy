/**
 * The code-practice page: it shows a generated solution, lets the user
 * type it from memory and scores the attempt against the solution.
 */
module CodeExercise {
  import opened Wrappers
  import opened Normalize
  import opened Scoring

  /** The generated exercise: the solution code and an optional explanation. */
  datatype CodeResponse = CodeResponse(code: string, explanation: Option<string>)

  /** The score and the feedback message shown after a check. */
  datatype PracticeResult = PracticeResult(score: int, message: string)

  /** The outcome of checking `attempt` against the solution `code`. */
  function Assess(code: string, attempt: string): (r: PracticeResult)
    ensures 0 <= r.score <= 100
    ensures NormalizeCode(attempt) == NormalizeCode(code) ==> r == PracticeResult(100, Message(Perfect))
  {
    var score := ScoreOf(NormalizeCode(code), NormalizeCode(attempt));
    PracticeResult(score, Message(VerdictFor(score)))
  }

  /** An attempt that differs from the solution only in layout (whitespace
      around punctuation, runs of blanks, line endings, leading or trailing
      blanks) gets the full score. */
  lemma LayoutOnlyDifferencesScoreFull(code: string, attempt: string)
    requires NormalizeCode(attempt) == NormalizeCode(code)
    ensures Assess(code, attempt).score == 100
    ensures Assess(NormalizeCode(code), attempt).score == 100
  {
    NormalizeIdempotent(code);
  }

  /** The page's own state (the network flags and the form inputs are not modelled). */
  class PracticeState {
    var codeData: Option<CodeResponse>
    var userCode: string
    var practiceMode: bool
    var result: Option<PracticeResult>

    constructor ()
      ensures codeData == None && userCode == "" && !practiceMode && result == None
    {
      codeData := None;
      userCode := "";
      practiceMode := false;
      result := None;
    }

    /** A successful load stores the exercise and resets the practice. */
    method CodeLoaded(data: CodeResponse)
      modifies this
      ensures codeData == Some(data) && userCode == "" && !practiceMode && result == None
    {
      codeData := Some(data);
      userCode := "";
      practiceMode := false;
      result := None;
    }

    /** The "Practicar" button. */
    method StartPractice()
      modifies this`practiceMode, this`userCode, this`result
      ensures practiceMode && userCode == "" && result == None
    {
      practiceMode := true;
      userCode := "";
      result := None;
    }

    /** The editor's change handler: the typed code replaces `userCode`. */
    method EditCode(newCode: string)
      modifies this`userCode
      ensures userCode == newCode
    {
      userCode := newCode;
    }

    /** The "Ver Solución" button: back to the solution view, keeping the
        typed code and the last result. */
    method ShowSolution()
      modifies this`practiceMode
      ensures !practiceMode
    {
      practiceMode := false;
    }

    /** The "Comprobar" button: with no exercise loaded nothing happens;
        otherwise the result is the assessment of the typed code. */
    method CompareCode()
      modifies this`result
      ensures codeData == None ==> result == old(result)
      ensures codeData != None ==> result == Some(Assess(codeData.value.code, userCode))
    {
      if codeData == None {
        return;
      }
      var code := codeData.value.code;
      var originalNormalized := NormalizeCode(code);
      var userNormalized := NormalizeCode(userCode);
      var score := SimilarityScore(originalNormalized, userNormalized);
      assert score == ScoreOf(NormalizeCode(code), NormalizeCode(userCode));
      var message := Message(VerdictFor(score));
      assert PracticeResult(score, message) == Assess(code, userCode);
      result := Some(PracticeResult(score, message));
    }
  }
}
