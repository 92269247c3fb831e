/** The answers object of a live attempt: question id to the chosen or typed answer. */
module Answers {
  import opened Wrappers

  type AnswerMap = map<string, string>

  /** `answers[id]`: the recorded answer, or `undefined`. */
  function Lookup(answers: AnswerMap, id: string): Option<string> {
    if id in answers then Some(answers[id]) else None
  }

  /** `{ ...answers, [id]: value }`: records `value` for `id`, overwriting any earlier
      answer, and leaves every other question's answer as it was. */
  function Record(answers: AnswerMap, id: string, value: string): (r: AnswerMap)
    ensures Lookup(r, id) == Some(value)
    ensures forall k :: k != id ==> Lookup(r, k) == Lookup(answers, k)
    ensures r.Keys == answers.Keys + {id}
  {
    answers[id := value]
  }

  /** Only the last answer given to a question counts, and answers to different
      questions do not interfere. */
  lemma RecordLaws(answers: AnswerMap, id: string, other: string, a: string, b: string)
    ensures Record(Record(answers, id, a), id, b) == Record(answers, id, b)
    ensures other != id ==>
              Record(Record(answers, id, a), other, b) == Record(Record(answers, other, b), id, a)
  {
  }
}
