/**
 * Question records as a topic file holds them, and the classifier that picks
 * a rendering strategy for each (`has_answer_image`, `analyze_question`).
 */
module Questions {

  /** An embedded image as the topic file stores it (base64 text); `""` means none. */
  type Image = string

  datatype Answer = Answer(text: string, image: Image)

  /** `correct` is the zero-based index of the right answer. */
  datatype Question = Question(quest: string, image: Image, answers: seq<Answer>, correct: int)

  /** The four presentation types of `question_type_enum`. */
  datatype QuestionType = TextOnly | ImageInQuestion | ImageInAnswer | ImageInQuestionAndAnswer
  {
    /** The integer the enum assigns to the type (lines 7-12). */
    function Code(): (c: nat)
      ensures c <= 3
    {
      match this
      case TextOnly => 0
      case ImageInQuestion => 1
      case ImageInAnswer => 2
      case ImageInQuestionAndAnswer => 3
    }
  }

  /** `has_answer_image(answers)`: the loop returns at the first answer with an image. */
  function HasAnswerImage(answers: seq<Answer>): (b: bool)
    ensures b <==> exists i :: 0 <= i < |answers| && answers[i].image != ""
    decreases |answers|
  {
    if |answers| == 0 then false
    else if answers[0].image != "" then true
    else HasAnswerImage(answers[1..])
  }

  /** `analyze_question(question)`: the code starts at 0, gains 1 for an image
      on the question and 2 for an image on some answer. */
  function AnalyzeQuestion(q: Question): (t: QuestionType)
    ensures t.Code() ==
      (if q.image != "" then 1 else 0) +
      (if exists i :: 0 <= i < |q.answers| && q.answers[i].image != "" then 2 else 0)
    ensures t == TextOnly <==>
      q.image == "" && forall i :: 0 <= i < |q.answers| ==> q.answers[i].image == ""
    ensures t == ImageInQuestion <==>
      q.image != "" && forall i :: 0 <= i < |q.answers| ==> q.answers[i].image == ""
    ensures t == ImageInAnswer <==>
      q.image == "" && exists i :: 0 <= i < |q.answers| && q.answers[i].image != ""
    ensures t == ImageInQuestionAndAnswer <==>
      q.image != "" && exists i :: 0 <= i < |q.answers| && q.answers[i].image != ""
  {
    var inQuestion := q.image != "";
    var inAnswer := HasAnswerImage(q.answers);
    if inQuestion && inAnswer then ImageInQuestionAndAnswer
    else if inQuestion then ImageInQuestion
    else if inAnswer then ImageInAnswer
    else TextOnly
  }
}
