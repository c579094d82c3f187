/**
 * `QuizHandler` and the two collaborators it changes: the database adapter
 * (`db`), reduced to the per-user state the handler reads and writes, and the
 * bot, reduced to the trace of what it sends.
 */
module Handler {
  import opened Wrappers
  import opened Text
  import opened Questions
  import opened Rendering
  import opened Picking
  import opened Evaluation

  /** The chat user id (`message.from_user.id`). */
  type UserId = int

  /** The topic files the handler can open, by the sanitized name the path is built from. */
  type Topics = map<string, seq<Question>>

  /** The ways `open_file_and_get_question` fails: the name holds no name
      character at all, no file has that name, or the topic has no question. */
  datatype QuizError = NoTopicName | TopicNotFound | EmptyTopic

  /** Lines 84-87: sanitizing the name and loading the file it names. */
  function LoadTopic(topics: Topics, filename: string): (r: Result<seq<Question>, QuizError>)
    ensures r == Err(NoTopicName) <==> SanitizeFilename(Some(filename)).NoMatch?
    ensures r.Ok? <==> SanitizeFilename(Some(filename)).Name? && SanitizeFilename(Some(filename)).name in topics
    ensures r.Ok? ==> r.value == topics[SanitizeFilename(Some(filename)).name]
  {
    match SanitizeFilename(Some(filename))
    case Name(name) => if name in topics then Ok(topics[name]) else Err(TopicNotFound)
    case _ => Err(NoTopicName)
  }

  /** Lines 93-94: a history as long as the topic is emptied; otherwise nothing changes. */
  function ResetIfComplete(dic: map<UserId, seq<int>>, u: UserId, n: int): map<UserId, seq<int>> {
    if u in dic && |dic[u]| == n then dic[u := []] else dic
  }

  /** The database adapter: the last question each user was served and each
      user's answer counters. */
  class Store {
    var lastQuestion: map<UserId, int>
    var stats: map<UserId, Stats>

    constructor ()
      ensures lastQuestion == map[] && stats == map[]
    {
      lastQuestion := map[];
      stats := map[];
    }

    /** The counters of user `u`; a user who never answered has none. */
    function StatsOf(u: UserId): Stats
      reads this
    {
      if u in stats then stats[u] else NoStats
    }

    method SetLastQuestion(u: UserId, index: int)
      modifies this
      ensures lastQuestion == old(lastQuestion)[u := index]
      ensures stats == old(stats)
    {
      lastQuestion := lastQuestion[u := index];
    }

    method AddCorrectAnswer(u: UserId)
      modifies this
      ensures stats == old(stats)[u := Record(old(StatsOf(u)), Correct)]
      ensures lastQuestion == old(lastQuestion)
    {
      stats := stats[u := Record(StatsOf(u), Correct)];
    }

    method AddWrongAnswer(u: UserId)
      modifies this
      ensures stats == old(stats)[u := Record(old(StatsOf(u)), Wrong)]
      ensures lastQuestion == old(lastQuestion)
    {
      stats := stats[u := Record(StatsOf(u), Wrong)];
    }

    method AddNotAnswered(u: UserId)
      modifies this
      ensures stats == old(stats)[u := Record(old(StatsOf(u)), Skip)]
      ensures lastQuestion == old(lastQuestion)
    {
      stats := stats[u := Record(StatsOf(u), Skip)];
    }
  }

  /** The chat transport: everything sent lands at the end of `trace`. */
  class Bot {
    var trace: seq<Event>

    constructor ()
      ensures trace == []
    {
      trace := [];
    }

    method SendMessage(text: string, html: bool)
      modifies this
      ensures trace == old(trace) + [Message(text, html)]
    {
      trace := trace + [Message(text, html)];
    }

    method SendPhoto(image: Image, caption: Option<string>)
      modifies this
      ensures trace == old(trace) + [Photo(image, caption)]
    {
      trace := trace + [Photo(image, caption)];
    }

    method SendKeyboard(prompt: string, buttons: seq<string>)
      modifies this
      ensures trace == old(trace) + [Keyboard(prompt, buttons)]
    {
      trace := trace + [Keyboard(prompt, buttons)];
    }
  }

  class QuizHandler {
    /** For each user, the indices already served from the current topic (lines 68-71). */
    var dicPick: map<UserId, seq<int>>
    const db: Store
    const bot: Bot

    constructor (db: Store, bot: Bot)
      ensures this.db == db && this.bot == bot
      ensures dicPick == map[]
    {
      this.db := db;
      this.bot := bot;
      dicPick := map[];
    }

    /** The indices served to `u`; a user without an entry has been served none. */
    function History(u: UserId): seq<int>
      reads this
    {
      if u in dicPick then dicPick[u] else []
    }

    /** Lines 77-81: `index` is appended to the user's history, which is
        created when the user has none. */
    method AddEntryToDicPick(u: UserId, index: int)
      modifies this
      ensures dicPick == old(dicPick)[u := old(History(u)) + [index]]
    {
      if u in dicPick {
        dicPick := dicPick[u := dicPick[u] + [index]];
      } else {
        assert old(History(u)) + [index] == [index];
        dicPick := dicPick[u := [index]];
      }
    }

    /** Lines 83-108. Without an explicit index, an index not yet served to
        the user is drawn and added to the history, which is first emptied when
        it already covers the topic; an explicit index is reduced modulo the
        topic length and leaves the history alone (apart from that emptying).
        The index served is recorded as the user's last question. */
    method OpenFileAndGetQuestion(topics: Topics, filename: string, questId: Option<int>, u: UserId)
      returns (r: Result<Question, QuizError>)
      requires questId.None? && LoadTopic(topics, filename).Ok? ==>
        HistoryValid(History(u), |LoadTopic(topics, filename).value|)
      modifies this, db
      ensures LoadTopic(topics, filename).Err? ==>
        && r == Err(LoadTopic(topics, filename).error)
        && dicPick == old(dicPick)
        && db.lastQuestion == old(db.lastQuestion)
      ensures LoadTopic(topics, filename).Ok? && |LoadTopic(topics, filename).value| == 0 ==>
        && r == Err(EmptyTopic)
        && dicPick == old(dicPick)
        && db.lastQuestion == old(db.lastQuestion)
      ensures LoadTopic(topics, filename).Ok? && |LoadTopic(topics, filename).value| > 0 ==>
        var questions := LoadTopic(topics, filename).value;
        var n := |questions|;
        && u in db.lastQuestion
        && (var i := db.lastQuestion[u];
            && 0 <= i < n
            && r == Ok(questions[i])
            && db.lastQuestion == old(db.lastQuestion)[u := i]
            && (questId.Some? ==>
                  i == Normalize(questId.value, n) && dicPick == ResetIfComplete(old(dicPick), u, n))
            && (questId.None? ==>
                  Unused(old(History(u)), n, i) && dicPick == old(dicPick)[u := Step(old(History(u)), n, i)]))
      ensures db.stats == old(db.stats)
    {
      var loaded := LoadTopic(topics, filename);
      if loaded.Err? {
        return Err(loaded.error);
      }
      var questions := loaded.value;
      var length := |questions|;
      ghost var before := History(u);

      if u in dicPick && |dicPick[u]| == length {
        dicPick := dicPick[u := []];
      }
      assert dicPick == ResetIfComplete(old(dicPick), u, length);
      assert History(u) == Base(before, length);

      var index: int;
      if questId.None? {
        if length == 0 {
          assert dicPick == old(dicPick);
          return Err(EmptyTopic);
        }
        UnusedExists(before, length);
        // The retry loop of lines 96-101 ends with an index the history does not hold.
        var rand :| 0 <= rand < length && rand !in History(u);
        assert Unused(before, length, rand);
        index := rand;
        AddEntryToDicPick(u, rand);
      } else {
        index := questId.value;
      }

      if index < 0 || index >= length {
        if length == 0 {
          assert dicPick == old(dicPick);
          return Err(EmptyTopic);
        }
        index := index % length;
      }

      var question := questions[index];
      db.SetLastQuestion(u, index);
      return Ok(question);
    }

    /** Lines 135-141. */
    method DecodeAndSendImage(image: Image, caption: string, maxLength: nat)
      requires maxLength > 0
      modifies bot
      ensures bot.trace == old(bot.trace) + ImageEvents(image, caption, maxLength)
    {
      if |caption| > maxLength {
        bot.SendPhoto(image, None);
        SendMultipartMessage(caption, maxLength);
      } else {
        bot.SendPhoto(image, Some(caption));
      }
    }

    /** Lines 143-145: one HTML message per slice of `maxLength` characters. */
    method SendMultipartMessage(buffer: string, maxLength: nat)
      requires maxLength > 0
      modifies bot
      ensures bot.trace == old(bot.trace) + MultipartEvents(buffer, maxLength)
    {
      var i := 0;
      while i < |buffer|
        invariant 0 <= i
        invariant old(bot.trace) + MultipartEvents(buffer, maxLength) ==
          bot.trace + MultipartEvents(buffer[Min(i, |buffer|)..], maxLength)
        decreases |buffer| - i
      {
        MultipartStep(buffer, i, maxLength);
        bot.SendMessage(buffer[i..Min(i + maxLength, |buffer|)], true);
        i := i + maxLength;
      }
      assert MultipartEvents(buffer[|buffer|..], maxLength) == [];
    }

    /** Lines 150-158: types 0 and 1 inline the numbered answers after the
        question text; types 2 and 3 start from the question text alone. */
    method BuildBuffer(q: Question, qtype: QuestionType) returns (buffer: string)
      ensures qtype == TextOnly || qtype == ImageInQuestion ==> buffer == InlineBody(q)
      ensures qtype == ImageInAnswer || qtype == ImageInQuestionAndAnswer ==> buffer == q.quest
    {
      if qtype == TextOnly || qtype == ImageInQuestion {
        buffer := q.quest;
        var i := 0;
        while i < |q.answers|
          invariant 0 <= i <= |q.answers|
          invariant buffer + InlineLines(q.answers, i) == InlineBody(q)
        {
          var line := "\n\n" + NatToString(i + 1) + ". " + q.answers[i].text;
          assert line == InlineLine(i, q.answers[i]);
          buffer := buffer + line;
          i := i + 1;
        }
        assert InlineLines(q.answers, i) == "";
      } else {
        buffer := q.quest;
      }
    }

    /** Lines 190-193: answer `i` as text, or as a photo captioned with its number. */
    method SendAnswer(a: Answer, i: nat)
      modifies bot
      ensures bot.trace == old(bot.trace) + AnswerEvents(a, i)
    {
      if a.image == "" {
        SendMultipartMessage(NatToString(i + 1) + ") " + a.text, MaxLength);
      } else {
        DecodeAndSendImage(a.image, NatToString(i + 1) + ")", MaxLengthImage);
      }
    }

    /** Lines 189-193: each answer on its own, in order. */
    method SendAnswers(answers: seq<Answer>)
      modifies bot
      ensures bot.trace == old(bot.trace) + AnswersEvents(answers, 0)
    {
      var i := 0;
      while i < |answers|
        invariant 0 <= i <= |answers|
        invariant bot.trace == old(bot.trace) + AnswersUpTo(answers, i)
      {
        SendAnswer(answers[i], i);
        AppendAssoc(old(bot.trace), AnswersUpTo(answers, i), AnswerEvents(answers[i], i));
        i := i + 1;
      }
      AnswersUpToThenRest(answers, i);
      assert AnswersEvents(answers, i) == [];
    }

    /** Lines 196-200: a button per answer, numbered from 1, then the skip button. */
    method BuildKeyboard(count: nat) returns (buttons: seq<string>)
      ensures buttons == Buttons(count)
    {
      buttons := [];
      var k := 0;
      while k < count
        invariant 0 <= k <= count
        invariant buttons + ButtonLabels(k, count) == ButtonLabels(0, count)
      {
        buttons := buttons + [NatToString(k + 1)];
        k := k + 1;
      }
      assert ButtonLabels(k, count) == [];
      buttons := buttons + [SkipButton];
    }

    /** Lines 147-202. The "500 - Internal Error" branch of lines 160-162 has no
        counterpart: the four question types are all the classifier returns. */
    method SendQuestion(q: Question)
      modifies bot
      ensures bot.trace == old(bot.trace) + QuestionEvents(q)
    {
      var qtype := AnalyzeQuestion(q);
      var buffer := BuildBuffer(q, qtype);

      var maxLength := MaxLength;
      buffer := SanitizeHtml(buffer);

      if qtype == TextOnly {
        SendMultipartMessage(buffer, maxLength);
      } else if qtype == ImageInQuestion {
        DecodeAndSendImage(q.image, buffer, maxLength);
      } else {
        ghost var head: seq<Event>;
        if qtype == ImageInAnswer {
          SendMultipartMessage(buffer, maxLength);
          head := MultipartEvents(buffer, maxLength);
        } else {
          DecodeAndSendImage(q.image, buffer, maxLength);
          head := ImageEvents(q.image, buffer, maxLength);
        }
        SendAnswers(q.answers);
        AppendAssoc(old(bot.trace), head, AnswersEvents(q.answers, 0));
      }
      assert bot.trace == old(bot.trace) + ContentEvents(q);

      var buttons := BuildKeyboard(|q.answers|);
      bot.SendKeyboard(KeyboardPrompt, buttons);
      AppendAssoc(old(bot.trace), ContentEvents(q), [Keyboard(KeyboardPrompt, buttons)]);
    }

    /** Lines 204-233. `streak` and `percent` are what the store's `get_streak`
        and `get_quiz_stats` report once the answer is recorded (the percentage
        already rounded and written out); the counters come from `db`. */
    method CheckQuestion(u: UserId, text: string, q: Question, streak: int, percent: string)
      returns (ok: bool)
      modifies db, bot
      ensures ok <==> Classify(text, q.correct) != Invalid
      ensures db.lastQuestion == old(db.lastQuestion)
      ensures db.stats == if ok then old(db.stats)[u := Record(old(db.StatsOf(u)), Classify(text, q.correct))]
                          else old(db.stats)
      ensures bot.trace == old(bot.trace) +
        [if ok then Message(Response(Classify(text, q.correct), q.correct, streak, percent, db.StatsOf(u)), true)
         else Message(InvalidNotice, false)]
    {
      var answer: int;
      var parsed := ParseInt(text);
      if parsed.Some? {
        answer := parsed.value;
      } else if text == SkipButton {
        answer := 0;
      } else {
        bot.SendMessage(InvalidNotice, false);
        return false;
      }

      ghost var reply := Classify(text, q.correct);
      assert "" + SkippedText == SkippedText && "" + CorrectText == CorrectText && "" + WrongText == WrongText;
      var response := "";
      if answer == 0 {
        assert reply == Skip;
        db.AddNotAnswered(u);
        response := response + SkippedText + IntToString(1 + q.correct) + "\n";
        assert response == Verdict(Skip, q.correct, streak);
      } else if q.correct == answer - 1 {
        assert reply == Correct;
        db.AddCorrectAnswer(u);
        response := response + CorrectText + IntToString(streak) + "</code>\n";
        assert response == Verdict(Correct, q.correct, streak);
      } else {
        assert reply == Wrong;
        db.AddWrongAnswer(u);
        response := response + WrongText + IntToString(1 + q.correct) + "\n";
        assert response == Verdict(Wrong, q.correct, streak);
      }
      ghost var verdict := response;
      assert verdict == Verdict(reply, q.correct, streak);
      assert db.stats == old(db.stats)[u := Record(old(db.StatsOf(u)), reply)];

      var s := db.StatsOf(u);
      var total := s.correct + s.wrong + s.notAnswered;
      response := response + (AccuracyText + percent +
        "% (" + NatToString(s.correct) + " / " + NatToString(total) + ")</code>");
      assert response == verdict + Summary(percent, s);
      assert response == Response(reply, q.correct, streak, percent, s);

      bot.SendMessage(response, true);
      return true;
    }
  }
}
