/**
 * The practice page's similarity score: 100 for equal normalised texts,
 * otherwise the share of positions holding the same character, as a
 * rounded percentage of the longer text; and the feedback message chosen
 * from the score.
 */
module Scoring {
  import opened Geometry

  function Min(a: nat, b: nat): nat { if a < b then a else b }

  /** The number of indices below `k` at which `a` and `b` hold the same character. */
  function SameCountUpTo(a: string, b: string, k: nat): (n: nat)
    requires k <= |a| && k <= |b|
    ensures n <= k
  {
    if k == 0 then 0 else SameCountUpTo(a, b, k - 1) + (if a[k - 1] == b[k - 1] then 1 else 0)
  }

  /** The `sameChars` of the page: positions below the shorter length with equal characters. */
  function SameCount(a: string, b: string): nat {
    SameCountUpTo(a, b, Min(|a|, |b|))
  }

  /** The counting loop of the page. */
  method CountSameChars(originalNormalized: string, userNormalized: string) returns (sameChars: nat)
    ensures sameChars == SameCount(originalNormalized, userNormalized)
    ensures sameChars <= Min(|originalNormalized|, |userNormalized|)
  {
    sameChars := 0;
    var n := Min(|originalNormalized|, |userNormalized|);
    var i := 0;
    while i < n
      invariant 0 <= i <= n
      invariant sameChars == SameCountUpTo(originalNormalized, userNormalized, i)
    {
      if originalNormalized[i] == userNormalized[i] {
        sameChars := sameChars + 1;
      }
      i := i + 1;
    }
  }

  /** Every compared position agrees exactly when the count is the number of positions. */
  lemma {:induction false} SameCountUpToFull(a: string, b: string, k: nat)
    requires k <= |a| && k <= |b|
    ensures SameCountUpTo(a, b, k) == k <==> forall i :: 0 <= i < k ==> a[i] == b[i]
  {
    if k > 0 {
      SameCountUpToFull(a, b, k - 1);
    }
  }

  /** The count reaches the longer length exactly when the texts are equal. */
  lemma SameCountMax(a: string, b: string)
    ensures SameCount(a, b) == Max(|a|, |b|) <==> a == b
  {
    var m := Min(|a|, |b|);
    SameCountUpToFull(a, b, m);
    if SameCount(a, b) == Max(|a|, |b|) {
      assert |a| == |b|;
      assert forall i :: 0 <= i < |a| ==> a[i] == b[i];
    }
  }

  lemma {:induction false} SameCountUpToSymmetric(a: string, b: string, k: nat)
    requires k <= |a| && k <= |b|
    ensures SameCountUpTo(a, b, k) == SameCountUpTo(b, a, k)
  {
    if k > 0 {
      SameCountUpToSymmetric(a, b, k - 1);
    }
  }

  /** `Math.round((part / whole) * 100)`, in exact arithmetic: the nearest
      whole percentage, halves rounded up. */
  function RoundPercent(part: nat, whole: nat): (r: nat)
    requires whole > 0
    ensures 2 * whole * r <= 200 * part + whole < 2 * whole * (r + 1)
    ensures part <= whole ==> r <= 100
  {
    var r := (200 * part + whole) / (2 * whole);
    RoundPercentBounds(part, whole, r);
    r
  }

  lemma RoundPercentBounds(part: nat, whole: nat, r: int)
    requires whole > 0 && r == (200 * part + whole) / (2 * whole)
    ensures r >= 0
    ensures 2 * whole * r <= 200 * part + whole < 2 * whole * (r + 1)
    ensures part <= whole ==> r <= 100
  {
    var d := 2 * whole;
    var x := 200 * part + whole;
    assert x == d * r + x % d;
    if part <= whole && r > 100 {
      MulMono(d, 101, r);
      assert false;
    }
  }

  lemma MulMono(d: nat, a: int, b: int)
    requires a <= b
    ensures d * a <= d * b
  {
  }

  /** The score of the attempt `user` against the solution `orig`, both normalised. */
  function ScoreOf(orig: string, user: string): (score: nat)
    ensures score <= 100
    ensures orig == user ==> score == 100
  {
    if user == orig then 100
    else
      SameCountMax(orig, user);
      RoundPercent(SameCount(orig, user), Max(|orig|, |user|))
  }

  /** The scoring block of the page, on the two normalised texts. */
  method SimilarityScore(originalNormalized: string, userNormalized: string) returns (score: int)
    ensures score == ScoreOf(originalNormalized, userNormalized)
    ensures 0 <= score <= 100
  {
    score := 0;
    if userNormalized == originalNormalized {
      score := 100;
    } else {
      var maxLength := Max(|originalNormalized|, |userNormalized|);
      var sameChars := CountSameChars(originalNormalized, userNormalized);
      SameCountMax(originalNormalized, userNormalized);
      score := (200 * sameChars + maxLength) / (2 * maxLength);
    }
  }

  /** The score does not depend on which text is the solution. */
  lemma ScoreSymmetric(a: string, b: string)
    ensures ScoreOf(a, b) == ScoreOf(b, a)
  {
    SameCountUpToSymmetric(a, b, Min(|a|, |b|));
  }

  /** A score of 100 means equal texts or at least 99.5% of the longer
      length agreeing position by position: rounding lets a long attempt
      with one wrong character score 100. */
  lemma ScorePerfect(orig: string, user: string)
    ensures ScoreOf(orig, user) == 100 <==>
      orig == user || 200 * SameCount(orig, user) >= 199 * Max(|orig|, |user|)
  {
    if orig != user {
      var p, w := SameCount(orig, user), Max(|orig|, |user|);
      SameCountMax(orig, user);
      var r := RoundPercent(p, w);
      if r == 100 {
        assert 2 * w * 100 <= 200 * p + w;
      }
      if 200 * p >= 199 * w && r < 100 {
        MulMono(2 * w, r + 1, 100);
        assert false;
      }
    }
  }

  /** The five feedback levels, tried in order. */
  datatype Verdict = Perfect | VeryGood | Good | Partial | Different

  /** The first threshold the score meets: == 100, >= 90, >= 70, >= 50, else. */
  function VerdictFor(score: int): (v: Verdict)
    ensures v == Perfect <==> score == 100
    ensures v == VeryGood <==> score != 100 && score >= 90
    ensures v == Good <==> 70 <= score < 90
    ensures v == Partial <==> 50 <= score < 70
    ensures v == Different <==> score < 50
  {
    if score == 100 then Perfect
    else if score >= 90 then VeryGood
    else if score >= 70 then Good
    else if score >= 50 then Partial
    else Different
  }

  function Rank(v: Verdict): nat {
    match v
    case Different => 0
    case Partial => 1
    case Good => 2
    case VeryGood => 3
    case Perfect => 4
  }

  /** Within 0..100, a higher score never gets a worse message. */
  lemma VerdictMonotone(s: int, t: int)
    requires 0 <= s <= t <= 100
    ensures Rank(VerdictFor(s)) <= Rank(VerdictFor(t))
  {
  }

  /** The feedback texts, from the best band to the worst. */
  const PerfectText := "¡Perfecto! Tu código coincide exactamente con la solución."
  const VeryGoodText := "¡Muy bien! Tu código es casi idéntico a la solución."
  const GoodText := "Buen trabajo. Tu código es similar a la solución pero tiene algunas diferencias."
  const PartialText := "Tu código tiene algunas similitudes con la solución, pero hay diferencias significativas."
  const DifferentText := "Tu código es bastante diferente de la solución. Intenta revisar la lógica y sintaxis."

  /** The feedback text of each band. */
  function Message(v: Verdict): (m: string)
    ensures m != ""
  {
    match v
    case Perfect => PerfectText
    case VeryGood => VeryGoodText
    case Good => GoodText
    case Partial => PartialText
    case Different => DifferentText
  }

  /** The five texts are distinct, so the message tells the band. */
  lemma MessageIdentifiesVerdict(v: Verdict, w: Verdict)
    ensures Message(v) == Message(w) <==> v == w
  {
    // the texts already differ in length
    assert |PerfectText| == 58 && |VeryGoodText| == 52 && |GoodText| == 80;
    assert |PartialText| == 89 && |DifferentText| == 85;
  }
}
