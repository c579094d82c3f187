/**
 * Judging a reply to a question and the per-user tallies it feeds
 * (`check_question`, lines 204-233 of controller/quizHandler.py), as values.
 */
module Evaluation {
  import opened Wrappers
  import opened Text
  import opened Questions
  import opened Rendering

  /** What the user's reply amounts to. */
  datatype Reply = Skip | Correct | Wrong | Invalid

  /** Lines 205-224: the reply is read with `int()`; text that is not an integer
      skips the question when it is the skip button's label and is rejected
      otherwise; the integer 0 skips, `correct + 1` is right and any other
      integer is wrong. */
  function Classify(text: string, correct: int): (r: Reply)
    ensures r == Invalid <==> ParseInt(text).None? && text != SkipButton
    ensures r == Skip <==> (ParseInt(text).None? && text == SkipButton) || ParseInt(text) == Some(0)
    ensures r == Correct <==> ParseInt(text).Some? && ParseInt(text).value != 0 && ParseInt(text).value - 1 == correct
    ensures r == Wrong <==> ParseInt(text).Some? && ParseInt(text).value != 0 && ParseInt(text).value - 1 != correct
  {
    match ParseInt(text)
    case None => if text == SkipButton then Skip else Invalid
    case Some(answer) =>
      if answer == 0 then Skip
      else if correct == answer - 1 then Correct
      else Wrong
  }

  /** The counters the store keeps for a user: right, wrong and skipped answers. */
  datatype Stats = Stats(correct: nat, wrong: nat, notAnswered: nat)
  {
    /** Line 227: the number of questions answered so far. */
    function Total(): nat {
      correct + wrong + notAnswered
    }
  }

  const NoStats := Stats(0, 0, 0)

  /** `add_correct_answer`, `add_wrong_answer` and `add_not_answered` in one:
      an invalid reply records nothing. */
  function Record(s: Stats, r: Reply): Stats {
    match r
    case Skip => s.(notAnswered := s.notAnswered + 1)
    case Correct => s.(correct := s.correct + 1)
    case Wrong => s.(wrong := s.wrong + 1)
    case Invalid => s
  }

  /** The tallies after the replies `rs`, recorded one after the other. */
  function Tally(s: Stats, rs: seq<Reply>): Stats
    decreases |rs|
  {
    if |rs| == 0 then s else Tally(Record(s, rs[0]), rs[1..])
  }

  /** How many of the replies `rs` are `r`. */
  function Count(rs: seq<Reply>, r: Reply): (c: nat)
    ensures c <= |rs|
    decreases |rs|
  {
    if |rs| == 0 then 0 else (if rs[0] == r then 1 else 0) + Count(rs[1..], r)
  }

  lemma {:induction false} CountSplit(rs: seq<Reply>)
    ensures Count(rs, Skip) + Count(rs, Correct) + Count(rs, Wrong) + Count(rs, Invalid) == |rs|
    decreases |rs|
  {
    if |rs| > 0 {
      CountSplit(rs[1..]);
    }
  }

  /** Every counter grows by the number of replies of its kind, and the total
      by the number of replies that were not rejected. */
  lemma {:induction false} TallyCounts(s: Stats, rs: seq<Reply>)
    ensures Tally(s, rs).correct == s.correct + Count(rs, Correct)
    ensures Tally(s, rs).wrong == s.wrong + Count(rs, Wrong)
    ensures Tally(s, rs).notAnswered == s.notAnswered + Count(rs, Skip)
    ensures Tally(s, rs).Total() == s.Total() + |rs| - Count(rs, Invalid)
    decreases |rs|
  {
    if |rs| > 0 {
      TallyCounts(Record(s, rs[0]), rs[1..]);
      CountSplit(rs);
      CountSplit(rs[1..]);
    }
  }

  /** Pressing a button of the keyboard `send_question` offers is never
      rejected: button `k` (labelled `k + 1`) is right exactly when `k` is the
      correct index, and the last button skips. */
  lemma ButtonsClassify(q: Question, k: nat)
    requires k <= |q.answers|
    ensures |Buttons(|q.answers|)| == |q.answers| + 1
    ensures Classify(Buttons(|q.answers|)[k], q.correct) ==
      if k == |q.answers| then Skip else if k == q.correct then Correct else Wrong
  {
    ButtonsAre(|q.answers|);
    if k < |q.answers| {
      ParseIntOfIntToString(k + 1);
      assert IntToString(k + 1) == NatToString(k + 1);
    } else {
      assert !IsDigit(SkipButton[0]);
      assert !IsIntLiteral(SkipButton);
    }
  }

  /** A number written as `str` writes it is never rejected, and skips only when it is 0. */
  lemma {:induction false} NumberIsNeverInvalid(n: int, correct: int)
    ensures Classify(IntToString(n), correct) != Invalid
    ensures Classify(IntToString(n), correct) == Skip <==> n == 0
  {
    ParseIntOfIntToString(n);
  }

  // ---------------------------------------------------------------------------
  // The response message
  // ---------------------------------------------------------------------------

  /** Line 212: the reply to text that is neither an integer nor the skip label. */
  const InvalidNotice: string := "Risposta non valida"

  /** Lines 218, 221 and 224: the openings of the three verdicts. */
  const SkippedText: string := "\U{1F7E1} La risposta corretta era la "
  const CorrectText: string := "\U{2705} Risposta corretta!\n<code>Streak attuale: "
  const WrongText: string := "\U{274C} Risposta errata. La risposta corretta era la "

  /** The first line of the response, which for a skipped or wrong answer
      names the right one, counting from 1. */
  function Verdict(r: Reply, correct: int, streak: int): string
    requires r != Invalid
  {
    match r
    case Skip => SkippedText + IntToString(1 + correct) + "\n"
    case Correct => CorrectText + IntToString(streak) + "</code>\n"
    case Wrong => WrongText + IntToString(1 + correct) + "\n"
  }

  /** Line 228: the opening of the accuracy line. */
  const AccuracyText: string := "<code>Correttezza: "

  /** Lines 226-230: the accuracy line, with the percentage as the store reports it. */
  function Summary(percent: string, s: Stats): string {
    AccuracyText + percent + "% (" + NatToString(s.correct) + " / " + NatToString(s.Total()) + ")</code>"
  }

  function Response(r: Reply, correct: int, streak: int, percent: string, s: Stats): string
    requires r != Invalid
  {
    Verdict(r, correct, streak) + Summary(percent, s)
  }

  /** The pieces of a joined string can be cut back out of it. */
  lemma SliceOfJoin(a: string, b: string, c: string, d: string, e: string)
    ensures var line := a + b + c + d + e;
      && line[|a|..|a| + |b|] == b
      && line[|a| + |b| + |c|..|line| - |e|] == d
  {
    var line := a + b + c + d + e;
    assert line == a + (b + (c + (d + e)));
    assert line[|a|..] == b + (c + (d + e));
    assert line[|a| + |b| + |c|..] == d + e;
  }

  /** The accuracy line reports the right answers and the total as numbers
      that read back as the counters. */
  lemma SummaryReadsBack(percent: string, s: Stats)
    ensures var line := Summary(percent, s);
      var prefix := AccuracyText + percent + "% (";
      var right := NatToString(s.correct);
      && line[|prefix|..|prefix| + |right|] == right
      && ParseInt(right) == Some(s.correct)
      && ParseInt(line[|prefix| + |right| + 3..|line| - 8]) == Some(s.correct + s.wrong + s.notAnswered)
  {
    var prefix := AccuracyText + percent + "% (";
    var right := NatToString(s.correct);
    var total := NatToString(s.Total());
    SliceOfJoin(prefix, right, " / ", total, ")</code>");
    assert Summary(percent, s) == prefix + right + " / " + total + ")</code>";
    ParseIntOfIntToString(s.correct);
    ParseIntOfIntToString(s.Total());
  }

  /** A question with a plain answer and an answer with an image, whose second
      answer is right: it is rendered answer by answer and the reply "2" is right
      while "1" is wrong and "Passa" skips. */
  lemma ImageAnswerExample()
    ensures var q := Question("Q", "", [Answer("A", ""), Answer("B", "img")], 1);
      && AnalyzeQuestion(q) == ImageInAnswer
      && Classify("2", q.correct) == Correct
      && Classify("1", q.correct) == Wrong
      && Classify("Passa", q.correct) == Skip
      && Classify("due", q.correct) == Invalid
  {
    var q := Question("Q", "", [Answer("A", ""), Answer("B", "img")], 1);
    assert q.answers[1].image != "";
    assert ParseInt("2") == Some(2) by {
      assert AllDigits("2");
      assert DigitsValue("2") == 2 by { assert "2"[..0] == []; }
    }
    assert ParseInt("1") == Some(1) by {
      assert AllDigits("1");
      assert DigitsValue("1") == 1 by { assert "1"[..0] == []; }
    }
    assert !IsIntLiteral("Passa") by {
      assert "Passa"[0] == 'P' && !IsDigit("Passa"[0]);
    }
    assert !IsIntLiteral("due") by {
      assert "due"[0] == 'd' && !IsDigit("due"[0]);
    }
  }
}
