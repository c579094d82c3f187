/**
 * What `send_question` sends, as a trace of chat events: the chunking of long
 * texts (`send_multipart_message`), photos with or without their caption
 * (`decode_and_send_image`), and the per-type layout of a question followed
 * by its answer keyboard.
 */
module Rendering {
  import opened Wrappers
  import opened Text
  import opened Questions

  /** Line 168: the length at which a text is split into several messages. */
  const MaxLength: nat := 3000
  /** Line 169: the caption limit used for the photo of an answer. */
  const MaxLengthImage: nat := 715
  /** Line 202: the text sent along with the answer keyboard. */
  const KeyboardPrompt: string := "Scegli la risposta"
  /** Line 200: the label of the button that skips the question. */
  const SkipButton: string := "Passa"

  /** One call into the chat transport: `send_message` (with `parse_mode='html'`
      or not), `send_photo` (with or without a caption; line 141 passes no
      parse mode), or the `send_message` that carries the reply keyboard. */
  datatype Event =
    | Message(body: string, html: bool)
    | Photo(image: Image, caption: Option<string>)
    | Keyboard(prompt: string, buttons: seq<string>)

  // ---------------------------------------------------------------------------
  // send_multipart_message
  // ---------------------------------------------------------------------------

  /** The slices `buffer[i:i + n]` for `i` in `range(0, len(buffer), n)`. */
  function Chunks(s: string, n: nat): seq<string>
    requires n > 0
    decreases |s|
  {
    if |s| == 0 then []
    else
      var k := if |s| < n then |s| else n;
      [s[..k]] + Chunks(s[k..], n)
  }

  function Min(a: int, b: int): int {
    if a < b then a else b
  }

  function Concat(parts: seq<string>): string
    decreases |parts|
  {
    if |parts| == 0 then "" else parts[0] + Concat(parts[1..])
  }

  /** The chunks, joined in order, give back the buffer. */
  lemma {:induction false} ChunksReassemble(s: string, n: nat)
    requires n > 0
    ensures Concat(Chunks(s, n)) == s
    decreases |s|
  {
    if |s| > 0 {
      var k := if |s| < n then |s| else n;
      ChunksReassemble(s[k..], n);
      assert ([s[..k]] + Chunks(s[k..], n))[1..] == Chunks(s[k..], n);
      assert s[..k] + s[k..] == s;
    }
  }

  /** Every chunk is non-empty and at most `n` long; all but the last are exactly `n` long. */
  lemma {:induction false} ChunksSizes(s: string, n: nat)
    requires n > 0
    ensures forall i :: 0 <= i < |Chunks(s, n)| ==> 0 < |Chunks(s, n)[i]| <= n
    ensures forall i :: 0 <= i < |Chunks(s, n)| - 1 ==> |Chunks(s, n)[i]| == n
    decreases |s|
  {
    if |s| > 0 {
      var k := if |s| < n then |s| else n;
      ChunksSizes(s[k..], n);
      var cs := Chunks(s, n);
      assert cs == [s[..k]] + Chunks(s[k..], n);
      assert forall i :: 1 <= i < |cs| ==> cs[i] == Chunks(s[k..], n)[i - 1];
    }
  }

  /** `ceil(len(buffer) / n)` messages: the fewest `n`-long pieces that cover
      the buffer, and none for an empty buffer. */
  lemma {:induction false} ChunksCount(s: string, n: nat)
    requires n > 0
    ensures |Chunks(s, n)| * n >= |s|
    ensures |s| > 0 ==> (|Chunks(s, n)| - 1) * n < |s|
    ensures |Chunks(s, n)| == 0 <==> |s| == 0
    decreases |s|
  {
    if |s| > n {
      var c := |Chunks(s[n..], n)|;
      ChunksCount(s[n..], n);
      assert |Chunks(s, n)| == c + 1;
      assert (c + 1) * n == c * n + n;
    }
  }

  /** One html-formatted message per chunk. */
  function Messages(parts: seq<string>): seq<Event> {
    seq(|parts|, i requires 0 <= i < |parts| => Message(parts[i], true))
  }

  /** The trace of `send_multipart_message(message, s, n)`. */
  function MultipartEvents(s: string, n: nat): seq<Event>
    requires n > 0
  {
    Messages(Chunks(s, n))
  }

  /** One turn of the loop of line 144: the first slice goes out, the rest follows. */
  lemma MultipartStep(s: string, i: nat, n: nat)
    requires n > 0
    requires i < |s|
    ensures MultipartEvents(s[i..], n) ==
      [Message(s[i..Min(i + n, |s|)], true)] + MultipartEvents(s[Min(i + n, |s|)..], n)
  {
    var t := s[i..];
    var k := if |t| < n then |t| else n;
    assert t[..k] == s[i..Min(i + n, |s|)];
    assert t[k..] == s[Min(i + n, |s|)..];
    assert Chunks(t, n) == [t[..k]] + Chunks(t[k..], n);
    assert Messages(Chunks(t, n)) == [Message(t[..k], true)] + Messages(Chunks(t[k..], n));
  }

  // ---------------------------------------------------------------------------
  // What is sent
  // ---------------------------------------------------------------------------

  /** The text an event carries: a message's body or a photo's caption. */
  function Shown(e: Event): string {
    match e
    case Message(body, _) => body
    case Photo(_, caption) => if caption.Some? then caption.value else ""
    case Keyboard(_, _) => ""
  }

  /** The text of a trace, in the order it is sent; the keyboard prompt is not counted. */
  function Transcript(es: seq<Event>): string
    decreases |es|
  {
    if |es| == 0 then "" else Shown(es[0]) + Transcript(es[1..])
  }

  /** The images of a trace, in the order their photos are sent. */
  function Photos(es: seq<Event>): seq<Image>
    decreases |es|
  {
    if |es| == 0 then []
    else (if es[0].Photo? then [es[0].image] else []) + Photos(es[1..])
  }

  /** A message is non-empty and at most `n` long, a caption at most `n` long. */
  predicate EventWithin(e: Event, n: nat) {
    && (e.Message? ==> 0 < |e.body| <= n)
    && (e.Photo? && e.caption.Some? ==> |e.caption.value| <= n)
  }

  predicate Within(es: seq<Event>, n: nat) {
    forall i :: 0 <= i < |es| ==> EventWithin(es[i], n)
  }

  predicate NoKeyboard(es: seq<Event>) {
    forall i :: 0 <= i < |es| ==> !es[i].Keyboard?
  }

  /** Photo captions are at most `n` long. */
  predicate CaptionsWithin(es: seq<Event>, n: nat) {
    forall i :: 0 <= i < |es| ==> (es[i].Photo? ==> EventWithin(es[i], n))
  }

  lemma {:induction false} TranscriptAppend(a: seq<Event>, b: seq<Event>)
    ensures Transcript(a + b) == Transcript(a) + Transcript(b)
    ensures Photos(a + b) == Photos(a) + Photos(b)
  {
    TranscriptOfAppend(a, b);
    PhotosOfAppend(a, b);
  }

  lemma {:induction false} TranscriptOfAppend(a: seq<Event>, b: seq<Event>)
    ensures Transcript(a + b) == Transcript(a) + Transcript(b)
    decreases |a|
  {
    if |a| == 0 {
      assert a + b == b;
    } else {
      TranscriptOfAppend(a[1..], b);
      assert (a + b)[1..] == a[1..] + b;
      assert Transcript(a + b) == Shown(a[0]) + Transcript(a[1..] + b);
    }
  }

  lemma {:induction false} PhotosOfAppend(a: seq<Event>, b: seq<Event>)
    ensures Photos(a + b) == Photos(a) + Photos(b)
    decreases |a|
  {
    if |a| == 0 {
      assert a + b == b;
    } else {
      PhotosOfAppend(a[1..], b);
      assert (a + b)[1..] == a[1..] + b;
      assert (a + b)[0] == a[0];
    }
  }

  /** The per-event properties of two traces carry over to the trace that sends one after the other. */
  lemma AppendKeeps(a: seq<Event>, b: seq<Event>, n: nat, m: nat)
    ensures Within(a, n) && Within(b, n) ==> Within(a + b, n)
    ensures CaptionsWithin(a, m) && CaptionsWithin(b, m) ==> CaptionsWithin(a + b, m)
    ensures NoKeyboard(a) && NoKeyboard(b) ==> NoKeyboard(a + b)
  {
    assert forall k :: 0 <= k < |a| ==> (a + b)[k] == a[k];
    assert forall k :: |a| <= k < |a + b| ==> (a + b)[k] == b[k - |a|];
  }

  /** The messages sent for the slices carry the slices joined, in order, and no photo. */
  lemma {:induction false} MessagesTranscript(parts: seq<string>)
    ensures Transcript(Messages(parts)) == Concat(parts)
    ensures Photos(Messages(parts)) == []
    decreases |parts|
  {
    if |parts| > 0 {
      MessagesTranscript(parts[1..]);
      assert Messages(parts)[1..] == Messages(parts[1..]);
    }
  }

  /** `send_multipart_message` delivers exactly the buffer, in messages that
      respect the limit, and sends no photo and no keyboard. */
  lemma MultipartDelivers(s: string, n: nat)
    requires n > 0
    ensures Transcript(MultipartEvents(s, n)) == s
    ensures Photos(MultipartEvents(s, n)) == []
    ensures Within(MultipartEvents(s, n), n)
    ensures NoKeyboard(MultipartEvents(s, n))
  {
    MessagesTranscript(Chunks(s, n));
    ChunksReassemble(s, n);
    ChunksSizes(s, n);
  }

  // ---------------------------------------------------------------------------
  // decode_and_send_image
  // ---------------------------------------------------------------------------

  /** The trace of `decode_and_send_image(message, image, caption, n)`: a caption
      longer than `n` goes out as a separate multi-part text after a photo
      without caption. */
  function ImageEvents(image: Image, caption: string, n: nat): seq<Event>
    requires n > 0
  {
    if |caption| > n then [Photo(image, None)] + MultipartEvents(caption, n)
    else [Photo(image, Some(caption))]
  }

  /** Either way the image is sent once, as the first event, the whole caption
      is sent (with the photo, or after it as HTML messages), and no message or
      caption exceeds `n`. */
  lemma ImageDelivers(image: Image, caption: string, n: nat)
    requires n > 0
    ensures ImageEvents(image, caption, n)[0].Photo?
    ensures Photos(ImageEvents(image, caption, n)) == [image]
    ensures Transcript(ImageEvents(image, caption, n)) == caption
    ensures Within(ImageEvents(image, caption, n), n)
    ensures NoKeyboard(ImageEvents(image, caption, n))
    ensures |caption| > n <==> ImageEvents(image, caption, n)[0].caption.None?
    ensures |caption| <= n ==>
      && |ImageEvents(image, caption, n)| == 1
      && ImageEvents(image, caption, n)[0].caption == Some(caption)
    ensures |caption| > n ==> ImageEvents(image, caption, n)[1..] == MultipartEvents(caption, n)
  {
    var es := ImageEvents(image, caption, n);
    if |caption| > n {
      MultipartDelivers(caption, n);
      TranscriptAppend([Photo(image, None)], MultipartEvents(caption, n));
    } else {
      assert Transcript(es) == caption + Transcript([]);
    }
  }

  // ---------------------------------------------------------------------------
  // send_question
  // ---------------------------------------------------------------------------

  /** Line 154: answer `i` appended to the body of the types without answer images. */
  function InlineLine(i: nat, a: Answer): string {
    "\n\n" + NatToString(i + 1) + ". " + a.text
  }

  /** The lines for answers `i` onwards. */
  function InlineLines(answers: seq<Answer>, i: nat): string
    decreases |answers| - i
  {
    if i >= |answers| then "" else InlineLine(i, answers[i]) + InlineLines(answers, i + 1)
  }

  /** Lines 151-154: the unescaped body of types 0 and 1. */
  function InlineBody(q: Question): string {
    q.quest + InlineLines(q.answers, 0)
  }

  /** The caption of the photo of answer `i` (line 193). */
  function AnswerLabel(i: nat): string {
    NatToString(i + 1) + ")"
  }

  /** Lines 190-193: an answer without image as multi-part text, one with an
      image as a photo captioned with its number. */
  function AnswerEvents(a: Answer, i: nat): seq<Event> {
    if a.image == "" then MultipartEvents(NatToString(i + 1) + ") " + a.text, MaxLength)
    else ImageEvents(a.image, AnswerLabel(i), MaxLengthImage)
  }

  /** The loop of lines 189-193 from answer `i` onwards. */
  function AnswersEvents(answers: seq<Answer>, i: nat): seq<Event>
    decreases |answers| - i
  {
    if i >= |answers| then [] else AnswerEvents(answers[i], i) + AnswersEvents(answers, i + 1)
  }

  /** What the loop of lines 189-193 has sent once it has handled the first `i` answers. */
  function AnswersUpTo(answers: seq<Answer>, i: nat): seq<Event>
    requires i <= |answers|
    decreases i
  {
    if i == 0 then [] else AnswersUpTo(answers, i - 1) + AnswerEvents(answers[i - 1], i - 1)
  }

  /** The answers handled so far followed by the rest are all the answers. */
  lemma {:induction false} AnswersUpToThenRest(answers: seq<Answer>, i: nat)
    requires i <= |answers|
    ensures AnswersUpTo(answers, i) + AnswersEvents(answers, i) == AnswersEvents(answers, 0)
    decreases i
  {
    if i > 0 {
      AnswersUpToThenRest(answers, i - 1);
      assert AnswersEvents(answers, i - 1) == AnswerEvents(answers[i - 1], i - 1) + AnswersEvents(answers, i);
    }
  }

  /** Lines 173-193: everything sent before the keyboard. */
  function ContentEvents(q: Question): seq<Event> {
    match AnalyzeQuestion(q)
    case TextOnly => MultipartEvents(SanitizeHtml(InlineBody(q)), MaxLength)
    case ImageInQuestion => ImageEvents(q.image, SanitizeHtml(InlineBody(q)), MaxLength)
    case ImageInAnswer =>
      MultipartEvents(SanitizeHtml(q.quest), MaxLength) + AnswersEvents(q.answers, 0)
    case ImageInQuestionAndAnswer =>
      ImageEvents(q.image, SanitizeHtml(q.quest), MaxLength) + AnswersEvents(q.answers, 0)
  }

  /** Lines 197-198: one button per answer, numbered from 1, from answer `i` onwards. */
  function ButtonLabels(i: nat, count: nat): seq<string>
    decreases count - i
  {
    if i >= count then [] else [NatToString(i + 1)] + ButtonLabels(i + 1, count)
  }

  /** Lines 197-200: the answer buttons followed by the skip button. */
  function Buttons(count: nat): seq<string> {
    ButtonLabels(0, count) + [SkipButton]
  }

  /** The whole trace of `send_question(message, question)`. */
  function QuestionEvents(q: Question): seq<Event> {
    ContentEvents(q) + [Keyboard(KeyboardPrompt, Buttons(|q.answers|))]
  }

  // ---------------------------------------------------------------------------
  // Properties of send_question
  // ---------------------------------------------------------------------------

  /** The images of the answers from `i` onwards that carry one, in order. */
  function AnswerImages(answers: seq<Answer>, i: nat): seq<Image>
    decreases |answers| - i
  {
    if i >= |answers| then []
    else (if answers[i].image != "" then [answers[i].image] else []) + AnswerImages(answers, i + 1)
  }

  /** The text sent for the answers from `i` onwards when they are sent one by one. */
  function AnswerTexts(answers: seq<Answer>, i: nat): string
    decreases |answers| - i
  {
    if i >= |answers| then ""
    else
      (if answers[i].image == "" then NatToString(i + 1) + ") " + answers[i].text else AnswerLabel(i))
      + AnswerTexts(answers, i + 1)
  }

  lemma {:induction false} ButtonLabelsAt(i: nat, count: nat)
    ensures |ButtonLabels(i, count)| == if i >= count then 0 else count - i
    ensures forall k :: 0 <= k < |ButtonLabels(i, count)| ==> ButtonLabels(i, count)[k] == NatToString(i + k + 1)
    decreases count - i
  {
    if i < count {
      ButtonLabelsAt(i + 1, count);
    }
  }

  /** The keyboard holds the buttons `"1"` to `"N"`, in order, followed by `"Passa"`. */
  lemma ButtonsAre(count: nat)
    ensures |Buttons(count)| == count + 1
    ensures forall k :: 0 <= k < count ==> Buttons(count)[k] == NatToString(k + 1)
    ensures Buttons(count)[count] == SkipButton
  {
    ButtonLabelsAt(0, count);
  }

  lemma {:induction false} AnswerImagesEmpty(answers: seq<Answer>, i: nat)
    requires forall j :: 0 <= j < |answers| ==> answers[j].image == ""
    ensures AnswerImages(answers, i) == []
    decreases |answers| - i
  {
    if i < |answers| {
      AnswerImagesEmpty(answers, i + 1);
    }
  }

  /** One answer sent on its own (lines 190-193): its number, and its text when
      it has no image, are sent; its image, if any, is sent once with a
      caption of at most 715 characters. */
  lemma AnswerDelivers(a: Answer, i: nat)
    ensures Transcript(AnswerEvents(a, i)) ==
      (if a.image == "" then NatToString(i + 1) + ") " + a.text else AnswerLabel(i))
    ensures Photos(AnswerEvents(a, i)) == (if a.image != "" then [a.image] else [])
    ensures Within(AnswerEvents(a, i), MaxLength)
    ensures CaptionsWithin(AnswerEvents(a, i), MaxLengthImage)
    ensures NoKeyboard(AnswerEvents(a, i))
    ensures a.image == "" ==> AnswerEvents(a, i) == MultipartEvents(NatToString(i + 1) + ") " + a.text, MaxLength)
    ensures a.image != "" && |AnswerLabel(i)| <= MaxLengthImage ==>
      AnswerEvents(a, i) == [Photo(a.image, Some(AnswerLabel(i)))]
  {
    var es := AnswerEvents(a, i);
    if a.image == "" {
      MultipartDelivers(NatToString(i + 1) + ") " + a.text, MaxLength);
      assert forall k :: 0 <= k < |es| ==> es[k].Message?;
    } else {
      ImageDelivers(a.image, AnswerLabel(i), MaxLengthImage);
      assert forall k :: 0 <= k < |es| ==> EventWithin(es[k], MaxLengthImage);
    }
  }

  /** Sending the answers from `i` onwards one by one shows each answer's
      number (and its text when it has no image), sends each answer image once,
      in order, keeps every message within 3000 characters and every caption
      within 715, and sends no keyboard. */
  lemma {:induction false} AnswersDeliver(answers: seq<Answer>, i: nat)
    ensures Transcript(AnswersEvents(answers, i)) == AnswerTexts(answers, i)
    ensures Photos(AnswersEvents(answers, i)) == AnswerImages(answers, i)
    ensures Within(AnswersEvents(answers, i), MaxLength)
    ensures CaptionsWithin(AnswersEvents(answers, i), MaxLengthImage)
    ensures NoKeyboard(AnswersEvents(answers, i))
    decreases |answers| - i
  {
    if i < |answers| {
      var head := AnswerEvents(answers[i], i);
      var tail := AnswersEvents(answers, i + 1);
      AnswersDeliver(answers, i + 1);
      AnswerDelivers(answers[i], i);
      TranscriptAppend(head, tail);
      AppendKeeps(head, tail, MaxLength, MaxLengthImage);
    }
  }

  /** The content of types 2 and 3: the question part, then the answers one by one. */
  lemma SeparateContentDelivers(q: Question, head: seq<Event>)
    requires NoKeyboard(head) && Within(head, MaxLength)
    ensures Transcript(head + AnswersEvents(q.answers, 0)) == Transcript(head) + AnswerTexts(q.answers, 0)
    ensures Photos(head + AnswersEvents(q.answers, 0)) == Photos(head) + AnswerImages(q.answers, 0)
    ensures Within(head + AnswersEvents(q.answers, 0), MaxLength)
    ensures NoKeyboard(head + AnswersEvents(q.answers, 0))
  {
    AnswersDeliver(q.answers, 0);
    TranscriptAppend(head, AnswersEvents(q.answers, 0));
    AppendKeeps(head, AnswersEvents(q.answers, 0), MaxLength, MaxLengthImage);
  }

  /** The properties of everything sent before the keyboard, type by type. */
  lemma ContentDelivers(q: Question)
    ensures Photos(ContentEvents(q)) == (if q.image != "" then [q.image] else []) + AnswerImages(q.answers, 0)
    ensures !AnalyzeQuestion(q).ImageInAnswer? && !AnalyzeQuestion(q).ImageInQuestionAndAnswer? ==>
      Transcript(ContentEvents(q)) == SanitizeHtml(InlineBody(q))
    ensures AnalyzeQuestion(q).ImageInAnswer? || AnalyzeQuestion(q).ImageInQuestionAndAnswer? ==>
      Transcript(ContentEvents(q)) == SanitizeHtml(q.quest) + AnswerTexts(q.answers, 0)
    ensures Within(ContentEvents(q), MaxLength)
    ensures NoKeyboard(ContentEvents(q))
  {
    match AnalyzeQuestion(q)
    case TextOnly =>
      MultipartDelivers(SanitizeHtml(InlineBody(q)), MaxLength);
      AnswerImagesEmpty(q.answers, 0);
    case ImageInQuestion =>
      ImageDelivers(q.image, SanitizeHtml(InlineBody(q)), MaxLength);
      AnswerImagesEmpty(q.answers, 0);
    case ImageInAnswer =>
      MultipartDelivers(SanitizeHtml(q.quest), MaxLength);
      SeparateContentDelivers(q, MultipartEvents(SanitizeHtml(q.quest), MaxLength));
    case ImageInQuestionAndAnswer =>
      ImageDelivers(q.image, SanitizeHtml(q.quest), MaxLength);
      SeparateContentDelivers(q, ImageEvents(q.image, SanitizeHtml(q.quest), MaxLength));
  }

  /** The last event of `send_question` is the keyboard with buttons `"1"` to
      `"N"` followed by `"Passa"`, and no earlier event is a keyboard. */
  lemma KeyboardComesLast(q: Question)
    ensures |QuestionEvents(q)| > 0
    ensures QuestionEvents(q)[|QuestionEvents(q)| - 1] == Keyboard(KeyboardPrompt, Buttons(|q.answers|))
    ensures NoKeyboard(QuestionEvents(q)[..|QuestionEvents(q)| - 1])
  {
    var es := QuestionEvents(q);
    assert es[..|es| - 1] == ContentEvents(q);
    ContentDelivers(q);
  }

  /** Every image of the question is sent exactly once, the question's own
      image first and then the answers' images in order. */
  lemma QuestionPhotos(q: Question)
    ensures Photos(QuestionEvents(q)) ==
      (if q.image != "" then [q.image] else []) + AnswerImages(q.answers, 0)
  {
    ContentDelivers(q);
    TranscriptAppend(ContentEvents(q), [Keyboard(KeyboardPrompt, Buttons(|q.answers|))]);
  }

  /** Types 0 and 1 show the escaped body with its numbered answer lines;
      types 2 and 3 show the escaped question text followed by the answers,
      which are not escaped. */
  lemma QuestionTranscript(q: Question)
    ensures !AnalyzeQuestion(q).ImageInAnswer? && !AnalyzeQuestion(q).ImageInQuestionAndAnswer? ==>
      Transcript(QuestionEvents(q)) == SanitizeHtml(InlineBody(q))
    ensures AnalyzeQuestion(q).ImageInAnswer? || AnalyzeQuestion(q).ImageInQuestionAndAnswer? ==>
      Transcript(QuestionEvents(q)) == SanitizeHtml(q.quest) + AnswerTexts(q.answers, 0)
  {
    ContentDelivers(q);
    TranscriptAppend(ContentEvents(q), [Keyboard(KeyboardPrompt, Buttons(|q.answers|))]);
  }

  /** No message sent for a question is empty or longer than 3000 characters,
      and no caption is longer than 3000 characters. */
  lemma QuestionWithinLimits(q: Question)
    ensures Within(QuestionEvents(q), MaxLength)
  {
    ContentDelivers(q);
    AppendKeeps(ContentEvents(q), [Keyboard(KeyboardPrompt, Buttons(|q.answers|))], MaxLength, MaxLength);
  }
}
