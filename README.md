# Quiz handler of pIm-a-bot, modelled in Dafny

pIm-a-bot is a Telegram bot that runs quizzes. Its quiz handler
(`controller/quizHandler.py`) loads a topic file of multiple-choice questions,
picks a question the user has not seen yet, renders it as a series of chat
messages and photos, and judges the user's reply against the stored correct
answer, updating the user's counters. This project models that handler:

- `wrappers.dfy` — `Option` and `Result`, and the associativity of joining sequences.
- `text.dfy` — Python's `str.replace`; `sanitize_html` (escape `<` and `>`,
  then restore six whitelisted tags); `sanitize_filename` (the first maximal run
  of the character class `[a-zA-z1-9]`, with its quirks); the decimal `str()` of
  an integer and the `int()` parse of a reply.
- `questions.dfy` — question and answer records and the classifier
  `has_answer_image` / `analyze_question` as a four-case datatype.
- `rendering.dfy` — every `bot.send_*` call as an `Event` appended to a trace;
  the traces `send_multipart_message`, `decode_and_send_image` and
  `send_question` produce, as functions, with lemmas about the text sent,
  which images are sent, message sizes and the keyboard. The slices of
  `send_multipart_message` are sent with `parse_mode='html'` (line 145); line
  141 passes no parse mode for a caption that travels with its photo.
- `picking.dfy` — the no-repeat picker as a specification over one user's
  history of served indices, with the cycle property of repeated draws.
- `evaluation.dfy` — the reply classifier of `check_question`, the per-user
  counters, and the response text.
- `handler.dfy` — the stateful part: `QuizHandler` as a class whose field
  `dicPick` is the per-user history, with the store (`db`) and the transport
  (`bot`) as classes whose fields the handler's methods change. Each method is
  proved against the functions of the modules above.

The chat transport is reduced to the order and content of what is sent: the
recipient (always the sender of the message being handled) is not recorded, and
keyboard objects become the list of their button labels. A topic file is a
`seq<Question>` looked up by the sanitized topic name in a map that stands for
the `data/questions/` directory.

Four behaviours of the code worth knowing, all modelled as written: an
explicit question index is not added to the user's history (lines 103-107),
the restored tags include `<pre>` and `</pre>` (lines 20-22), the reply `0`
skips the question just as the skip button does (line 216), and the caption of
a question's own photo is split at 3000 characters (lines 178 and 187 pass
`max_length`), not at the 715 used for the photos of answers (line 193).

## Model

| member | source | states |
|---|---|---|
| Text.Replace | controller/quizHandler.py:16-24 | definition of Python's `str.replace` (non-overlapping occurrences, left to right); properties stated by `ReplaceNoMatch`, `ReplaceAbsent` and `ReplaceCharConcat` |
| Text.ReplaceNoMatch | controller/quizHandler.py:16-24 | `str.replace` leaves a string unchanged when the pattern's first character never occurs in it |
| Text.ReplaceAbsent | controller/quizHandler.py:16-17 | a character the replacement does not contain is gone after replacing it, and stays absent if it was; so no `<` or `>` survives lines 16-17 |
| Text.ReplaceCharConcat | controller/quizHandler.py:16-17 | replacing one character distributes over the joining of two strings |
| Text.EscapeAngles | controller/quizHandler.py:16-17 | definition of the two escaping replacements; properties stated by `EscapeAnglesConcat`, `EscapeAnglesPlain` and `EscapeAnglesBrackets` |
| Text.EscapeAnglesConcat | controller/quizHandler.py:16-17 | escaping a joined string escapes each piece |
| Text.EscapeAnglesBrackets | controller/quizHandler.py:16-17 | `<` becomes `&lt;` and `>` becomes `&gt;` |
| Text.EscapeAroundTag | controller/quizHandler.py:16-17 | an allowed tag between plain texts is escaped to its `&lt;…&gt;` form and the texts stay as they are |
| Text.RestoreTags | controller/quizHandler.py:18-24 | definition of the seven restoring replacements, in order; properties stated by `RestoreStepKeepsSafe`, `RestoreStepAroundTag` and `RestoreStepStray` |
| Text.EscapedTagLiterals | controller/quizHandler.py:18-24 | the seven patterns are the escaped forms of the six allowed tags |
| Text.EscapedTagsDiffer | controller/quizHandler.py:18-24 | the escaped form of one allowed tag never starts with the escaped form of another, whatever plain text follows |
| Text.RestoreStepAroundTag | controller/quizHandler.py:18-24 | a restoring step turns the escaped tag it looks for back into the tag, and leaves any other escaped or restored tag between plain texts unchanged |
| Text.RestoreStepStray | controller/quizHandler.py:18-24 | a restoring step leaves an escaped stray `&lt;` or `&gt;` between plain texts unchanged |
| Text.RestoreStepKeepsSafe | controller/quizHandler.py:18-24 | turning an escaped whitelisted tag back into the tag keeps every `<` and `>` inside a whitelisted tag |
| Text.SanitizeHtml | controller/quizHandler.py:15-24 | definition: escape, then restore; properties stated by `SanitizeHtmlIsSafe`, `SanitizeHtmlPlain`, `SanitizeHtmlKeepsTag` and `SanitizeHtmlEscapesStray` |
| Text.SanitizeHtmlIsSafe | controller/quizHandler.py:15-24 | in the output of `sanitize_html`, every `<` opens one of `<code>`, `</code>`, `<pre>`, `</pre>`, `<b>`, `</b>` and no `>` occurs outside one of them, for every input |
| Text.SanitizeHtmlPlain | controller/quizHandler.py:15-24 | text without `<`, `>` and `&` is returned unchanged |
| Text.SanitizeHtmlKeepsTag | controller/quizHandler.py:15-24 | each of `<code>`, `</code>`, `<pre>`, `</pre>`, `<b>`, `</b>` between plain texts comes out of `sanitize_html` unchanged |
| Text.SanitizeHtmlEscapesStray | controller/quizHandler.py:15-24 | a `<` or `>` between plain texts that forms no allowed tag comes out as `&lt;` or `&gt;` |
| Text.IsNameChar | controller/quizHandler.py:30 | definition of the class `[a-zA-z1-9]` as the regex engine reads it (`A-z` spans 65-122, no `0`); used by the `SanitizeFilename` contract |
| Text.MatchStart | controller/quizHandler.py:30-31 | the first match begins after the longest prefix of characters outside `[a-zA-z1-9]` |
| Text.RunLength | controller/quizHandler.py:30-31 | the match is greedy: it runs over name characters up to the end or the first other character |
| Text.SanitizeFilename | controller/quizHandler.py:27-31 | `None` exactly for a non-string; the `IndexError` case exactly when no character is in `[a-zA-z1-9]` (which admits `` [\]^_` `` and not `0`); otherwise the first maximal run of such characters |
| Text.FirstMatchUnique | controller/quizHandler.py:30-31 | there is only one first maximal match, so the contract of `SanitizeFilename` fixes its result |
| Text.SanitizeFilenameIdempotent | controller/quizHandler.py:84 | sanitizing an already sanitized name returns it unchanged |
| Text.NatToString | controller/quizHandler.py:154 | `str(n)` of a natural number is a non-empty string of decimal digits with no leading zero (only `0` itself starts with `0`), one digit exactly below 10; with `DigitsValueOfNatToString`, the canonical decimal of `n` |
| Text.IntToString | controller/quizHandler.py:154 | definition of `str(n)` for any integer (a `-` for negatives); properties stated by `ParseIntOfIntToString` |
| Text.DigitsValue | controller/quizHandler.py:206 | definition of the number a digit string denotes; properties stated by `DigitsValueOfNatToString` and `ParseIntOfIntToString` |
| Text.IsIntLiteral | controller/quizHandler.py:206 | definition of the text `int()` accepts here: an optional sign and one or more ASCII digits; the `ParseInt` contract succeeds exactly on it |
| Text.ParseInt | controller/quizHandler.py:206 | `int(s)` succeeds exactly on an optionally signed, non-empty run of decimal digits |
| Text.DigitsValueOfNatToString | controller/quizHandler.py:206 | the digits written for `n` read back as `n` |
| Text.ParseIntOfIntToString | controller/quizHandler.py:206 | `int(str(n)) == n` for every integer `n` |
| Questions.QuestionType.Code | controller/quizHandler.py:7-12 | the enum values are 0 to 3 |
| Questions.HasAnswerImage | controller/quizHandler.py:34-38 | true exactly when some answer has a non-empty image |
| Questions.AnalyzeQuestion | controller/quizHandler.py:41-64 | the code is 1 for a question image plus 2 for some answer image; type 0 iff no image anywhere, 1 iff only the question's, 2 iff only answers', 3 iff both |
| Rendering.Chunks | controller/quizHandler.py:143-145 | definition of the slices `buffer[i:i + n]`; properties stated by `ChunksReassemble`, `ChunksSizes` and `ChunksCount` |
| Rendering.ChunksReassemble | controller/quizHandler.py:143-145 | the slices, concatenated in order, are the buffer |
| Rendering.ChunksSizes | controller/quizHandler.py:143-145 | every slice is non-empty and at most `max_length` long; all but the last are exactly `max_length` long |
| Rendering.ChunksCount | controller/quizHandler.py:143-145 | there are `ceil(len / max_length)` slices, none for an empty buffer |
| Rendering.MessagesTranscript | controller/quizHandler.py:145 | the HTML messages sent for the slices read, in order, as the slices joined, and carry no photo |
| Rendering.Messages | controller/quizHandler.py:145 | definition of one HTML message per slice; properties stated by `MessagesTranscript` |
| Rendering.MultipartEvents | controller/quizHandler.py:143-145 | definition of the trace of `send_multipart_message`; properties stated by `MultipartStep` and `MultipartDelivers` |
| Rendering.MultipartStep | controller/quizHandler.py:144-145 | one turn of the loop sends the next slice and leaves the rest of the buffer to the following turns |
| Rendering.MultipartDelivers | controller/quizHandler.py:143-145 | the messages sent read, in order, as the buffer; no photo and no keyboard is sent; every message is non-empty and within the limit |
| Rendering.ImageEvents | controller/quizHandler.py:135-141 | definition of the trace of `decode_and_send_image`; properties stated by `ImageDelivers` |
| Rendering.ImageDelivers | controller/quizHandler.py:135-141 | the image is sent first, exactly once; a caption longer than the limit is sent caption-less and followed by the caption in HTML slices, otherwise the trace is exactly one photo carrying the whole caption; after a caption-less photo, the rest of the trace is exactly `MultipartEvents(caption, n)`; the whole caption is sent either way |
| Rendering.InlineLine | controller/quizHandler.py:154 | definition of the line `"\n\n{i+1}. text"` appended for answer `i`; used by `BuildBuffer` |
| Rendering.InlineLines | controller/quizHandler.py:153-154 | definition of the lines for answers `i` onwards, in order; `BuildBuffer`'s loop invariant is stated with it |
| Rendering.InlineBody | controller/quizHandler.py:151-154 | definition of the buffer of types 0 and 1; `BuildBuffer` is proved to build it, and `ContentDelivers` and `QuestionTranscript` state what is sent of it |
| Rendering.AnswerLabel | controller/quizHandler.py:193 | definition of the caption `"{i+1})"` of an answer's photo; properties stated by `AnswerDelivers` |
| Rendering.AnswerEvents | controller/quizHandler.py:190-193 | definition of what one turn of the answer loop sends; properties stated by `AnswerDelivers` |
| Rendering.AnswersEvents | controller/quizHandler.py:189-193 | definition of what the answer loop sends from answer `i` on; properties stated by `AnswersDeliver` and `AnswersUpToThenRest` |
| Rendering.AnswersUpToThenRest | controller/quizHandler.py:189-193 | what the answer loop has sent after `i` answers, followed by the rest, is what it sends for all answers |
| Rendering.ButtonLabelsAt | controller/quizHandler.py:197-198 | the buttons from answer `i` on are labelled `i+1`, `i+2`, … in order |
| Rendering.ButtonLabels | controller/quizHandler.py:197-198 | definition of the numbered buttons from answer `i` on; properties stated by `ButtonLabelsAt` |
| Rendering.Buttons | controller/quizHandler.py:196-200 | definition of the keyboard's labels; properties stated by `ButtonsAre` |
| Rendering.ButtonsAre | controller/quizHandler.py:196-200 | the keyboard holds `"1"` to `"N"` for `N` answers, then `"Passa"` |
| Rendering.AnswerImagesEmpty | controller/quizHandler.py:189-193 | answers without images contribute no photo |
| Rendering.AnswerDelivers | controller/quizHandler.py:190-193 | an answer without image is sent as exactly the HTML slices of `"{i+1}) text"`, unescaped, within 3000 characters; an answer with image (whose label fits the 715 limit) is exactly one photo captioned `"{i+1})"` |
| Rendering.AnswersDeliver | controller/quizHandler.py:189-193 | the answers are delivered in order, their images in order, no keyboard, all within the limits |
| Rendering.SeparateContentDelivers | controller/quizHandler.py:180-193 | the question part followed by the answers reads as the two in order and keeps the limits |
| Rendering.ContentEvents | controller/quizHandler.py:171-193 | definition of what `send_question` sends before the keyboard, by question type; properties stated by `ContentDelivers` |
| Rendering.ContentDelivers | controller/quizHandler.py:171-193 | before the keyboard: the images sent are the question's then the answers'; types 0 and 1 read as the escaped body with numbered answer lines, types 2 and 3 as the escaped question followed by the answers; every message within 3000 characters |
| Rendering.KeyboardComesLast | controller/quizHandler.py:195-202 | the last event of a question is the keyboard with prompt `"Scegli la risposta"` and buttons `"1".."N"`, `"Passa"`; no keyboard comes before it |
| Rendering.QuestionEvents | controller/quizHandler.py:147-202 | definition of the whole trace of `send_question`; properties stated by `KeyboardComesLast`, `QuestionPhotos`, `QuestionTranscript` and `QuestionWithinLimits` |
| Rendering.QuestionPhotos | controller/quizHandler.py:147-202 | every image of a question is sent exactly once, the question's own first, then the answers' in order |
| Rendering.QuestionTranscript | controller/quizHandler.py:150-158 | for types 0 and 1 the text sent is `sanitize_html(quest + "\n\n1. " + …)`; for types 2 and 3 `sanitize_html(quest)` then each answer |
| Rendering.QuestionWithinLimits | controller/quizHandler.py:168-193 | no message sent for a question is empty or longer than 3000 characters, and no caption is longer than 3000 |
| Picking.Base | controller/quizHandler.py:93-94 | definition of the reset of a full history; properties stated by `HistoryBounded` and `FullHistoryRestarts` |
| Picking.Step | controller/quizHandler.py:93-101 | definition of one unforced pick's effect on the history; properties stated by `StepKeepsValid` |
| Picking.Run | controller/quizHandler.py:91-101 | definition of the history after several unforced picks; properties stated by `RunSplit`, `RunWithinCycle`, `FirstCycle` and `EveryCycle` |
| Picking.Unused | controller/quizHandler.py:97-99 | definition of the draw the retry loop accepts: within `randint(0, length - 1)` and not in the history after the reset; properties stated by `UnusedExists` and `StepKeepsValid`, and used by the `OpenFileAndGetQuestion` contract |
| Picking.Normalize | controller/quizHandler.py:103-104 | an explicit index lands in `[0, length)`, equals `quest_id % length` even for negative input, and an in-range index is unchanged |
| Picking.StepKeepsValid | controller/quizHandler.py:93-101 | an accepted draw keeps the history duplicate-free and in range, and adds exactly the drawn index |
| Picking.HistoryBounded | controller/quizHandler.py:93-94 | a valid history is never longer than the topic, and a full one holds every index |
| Picking.UnusedExists | controller/quizHandler.py:96-101 | the retry loop always has an index it can accept |
| Picking.RunSplit | controller/quizHandler.py:96-101 | draws made one after the other compose |
| Picking.RunWithinCycle | controller/quizHandler.py:96-101 | until the topic is exhausted, the history is the draws appended in order and stays valid |
| Picking.FirstCycle | controller/quizHandler.py:91-101 | from an empty history, `length` draws serve every index exactly once |
| Picking.FullHistoryRestarts | controller/quizHandler.py:91-94 | once every index has been served, the picker behaves as if nothing had been |
| Picking.EveryCycle | controller/quizHandler.py:91-101 | every block of `length` consecutive draws serves each index once, and no index repeats before the topic is exhausted |
| Evaluation.Classify | controller/quizHandler.py:205-224 | invalid iff `int()` fails and the text is not `"Passa"`; skip iff it is `"Passa"` or the integer 0; correct iff the integer minus 1 is the correct index; wrong for any other integer |
| Evaluation.Record | controller/quizHandler.py:216-224 | definition of the counter each kind of reply increments (none for an invalid one); properties stated by `TallyCounts` |
| Evaluation.CountSplit | controller/quizHandler.py:216-224 | every reply falls in exactly one of the four kinds |
| Evaluation.TallyCounts | controller/quizHandler.py:215-227 | over a series of replies each counter grows by the replies of its kind, invalid replies change nothing, and the total grows by the replies that were recorded |
| Evaluation.ButtonsClassify | controller/quizHandler.py:196-224 | pressing keyboard button `k` is never rejected: it is correct exactly when `k` is the correct index, and the last button skips |
| Evaluation.NumberIsNeverInvalid | controller/quizHandler.py:206-216 | a reply that is a written integer is never rejected, and it skips only when it is 0 |
| Evaluation.Verdict | controller/quizHandler.py:215-224 | definition of the first line of the response; stated by the `CheckQuestion` contract, which sends it |
| Evaluation.Summary | controller/quizHandler.py:226-230 | definition of the accuracy line; properties stated by `SummaryReadsBack` |
| Evaluation.Response | controller/quizHandler.py:215-232 | definition of the whole response, verdict then accuracy line; stated by the `CheckQuestion` contract |
| Evaluation.SummaryReadsBack | controller/quizHandler.py:226-230 | the accuracy line carries the correct count and a total that reads back as correct + wrong + not answered |
| Evaluation.ImageAnswerExample | controller/quizHandler.py:41-64 | a question with one image answer whose second answer is right is type 2, and the replies `"2"`, `"1"`, `"Passa"`, `"due"` are correct, wrong, skip and invalid |
| Handler.LoadTopic | controller/quizHandler.py:84-87 | a name with no name character fails, a name with no topic fails, otherwise the topic stored under the sanitized name |
| Handler.ResetIfComplete | controller/quizHandler.py:93-94 | definition of the reset of a user's full history; stated by the `OpenFileAndGetQuestion` contract for an explicit index |
| Handler.Store.constructor | controller/quizHandler.py:73-75 | a fresh store has no last question and no counters for anyone |
| Handler.Store.SetLastQuestion | controller/quizHandler.py:107 | the user's last question becomes the index; the counters are untouched |
| Handler.Store.AddNotAnswered | controller/quizHandler.py:217 | only the user's not-answered counter grows, by one |
| Handler.Store.AddCorrectAnswer | controller/quizHandler.py:220 | only the user's correct counter grows, by one |
| Handler.Store.AddWrongAnswer | controller/quizHandler.py:223 | only the user's wrong counter grows, by one |
| Handler.Bot.constructor | controller/quizHandler.py:73-75 | a fresh transport has sent nothing |
| Handler.Bot.SendMessage | controller/quizHandler.py:145 | the message is appended to the trace |
| Handler.Bot.SendPhoto | controller/quizHandler.py:138-141 | the photo, with or without caption, is appended to the trace |
| Handler.Bot.SendKeyboard | controller/quizHandler.py:202 | the prompt and its buttons are appended to the trace |
| Handler.QuizHandler.constructor | controller/quizHandler.py:68-75 | a handler starts with an empty history and keeps the store and transport it is given |
| Handler.QuizHandler.AddEntryToDicPick | controller/quizHandler.py:77-81 | the index is appended to the user's history, which is created when missing; no other user's history changes |
| Handler.QuizHandler.OpenFileAndGetQuestion | controller/quizHandler.py:83-108 | loading errors and an empty topic change nothing; otherwise the question at the served index is returned and the index recorded as the last question; without an explicit index the index was not yet served (after the reset of a full history) and is appended; an explicit index is reduced modulo the length and not recorded in the history |
| Handler.QuizHandler.DecodeAndSendImage | controller/quizHandler.py:135-141 | the trace grows by exactly the events of `ImageEvents` |
| Handler.QuizHandler.SendMultipartMessage | controller/quizHandler.py:143-145 | the loop appends exactly one HTML message per slice, in order |
| Handler.QuizHandler.BuildBuffer | controller/quizHandler.py:150-158 | types 0 and 1 build the question followed by `"\n\n{i+1}. text"` for each answer in order; types 2 and 3 the question alone |
| Handler.QuizHandler.SendAnswer | controller/quizHandler.py:190-193 | one answer is sent as its text in slices or as its photo |
| Handler.QuizHandler.SendAnswers | controller/quizHandler.py:189-193 | the answers are sent one after the other, in order |
| Handler.QuizHandler.BuildKeyboard | controller/quizHandler.py:196-200 | the buttons are `"1".."N"` followed by `"Passa"` |
| Handler.QuizHandler.SendQuestion | controller/quizHandler.py:147-202 | the trace grows by exactly `QuestionEvents(q)`, whose content, images, limits and final keyboard the `Rendering` lemmas state |
| Handler.QuizHandler.CheckQuestion | controller/quizHandler.py:204-233 | returns false exactly for an invalid reply, which only sends "Risposta non valida"; otherwise exactly the counter of the reply's kind grows and one HTML response is sent whose verdict names the correct answer (or the streak) and whose summary carries the updated counters |

## Left out

- File input and JSON decoding (lines 86-87): topics are a map from sanitized names to question lists; a missing file is the `TopicNotFound` error.
- `base64.b64decode` (line 136): images are opaque strings carried into the photo events.
- The telebot keyboard objects and their layout options (lines 196-202): only the prompt and the button labels are kept. The recipient of each send is not recorded.
- `handle_question` (lines 110-133): it is glue around the modelled methods, with exception printing and the "404"/"500" notices.
- The "500 - Internal Error" branch of `send_question` (lines 160-162): a question type outside the four cannot arise in the model.
- `random.randint` and the retry loop (lines 96-101): the draw is a choice among the indices not yet served, which is the only way the loop can end.
- Handler.QuizHandler.OpenFileAndGetQuestion: without an explicit index it requires the user's history to be duplicate-free and within the topic, because the history is keyed by user only and a topic switch can leave indices the retry loop then waits on forever.
- Handler.QuizHandler.CheckQuestion: a reply without text (`message.text` is `None`) makes `int()` on line 206 raise `TypeError`, which `except ValueError` does not catch, so the source raises before any counter or send (and `handle_question` answers "404 - File not found"); the reply is a `string` here, so that path is not modelled.
- Handler.QuizHandler.CheckQuestion: the streak and the rounded percentage come from the store's own computation (lines 221, 226-228), which involves floating point; they are parameters, the counters are modelled.
- Text.ParseInt: accepts an optional sign and ASCII digits only; `int()`'s surrounding whitespace, underscores and non-ASCII digits are not modelled.
- Text.SanitizeFilename: Python values other than strings are all one case, `None`.
- `dic_pick` is a class attribute shared by all handler instances (line 68); it is an instance field here.
- The store's persistence and the per-user `get_quiz` lookup are not part of this model.
