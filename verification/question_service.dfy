/** The question mock service: CRUD over the stored question array plus the type
    filter. The random latency is not modelled. */
module QuestionService {
  import opened Wrappers
  import opened Records
  import Seqs
  import Text
  import Store

  const NotFound := "Question not found"
  const IdPrefix := "question_"
  const DefaultPoints := 1

  function IdOf(q: Question): string { q.id }

  /** The object a caller passes to `create` or `update`; `options` and
      `correctAnswer` may be undefined. */
  datatype QuestionData = QuestionData(
    content: string,
    qtype: string,
    category: string,
    difficulty: string,
    points: int,
    options: Option<seq<string>>,
    correctAnswer: Option<string>)

  /** The data object used as an update: every key it carries is present, even
      when its value is `undefined`. */
  function DataAsPatch(d: QuestionData): QuestionPatch {
    QuestionPatch(None, Some(d.content), Some(d.qtype), Some(d.category), Some(d.difficulty),
                  Some(d.points), Some(d.options), Some(d.correctAnswer))
  }

  /** `getAll`: a copy of every record, in stored order. */
  function GetAll(data: seq<Question>): (r: seq<Question>)
    ensures |r| == |data| && forall i :: 0 <= i < |r| ==> r[i] == data[i]
  {
    data
  }

  /** `getById`: the first record with the id, or `null`. */
  function GetById(data: seq<Question>, id: string): (r: Option<Question>)
    ensures r.Some? ==> r.value.id == id && r.value in data
    ensures r.None? <==> forall j :: 0 <= j < |data| ==> data[j].id != id
    ensures forall i :: Store.IsFirst(data, IdOf, id, i) ==> r == Some(data[i])
  {
    Store.Find(data, IdOf, id)
  }

  /** The record `create` stores: falsy points (0) become 1; everything else is
      copied from the data. */
  function NewRecord(d: QuestionData, now: nat): (q: Question)
    ensures q.id == IdPrefix + Text.NatToString(now)
    ensures q.points == (if d.points == 0 then DefaultPoints else d.points)
    ensures q.content == d.content && q.qtype == d.qtype && q.category == d.category
    ensures q.difficulty == d.difficulty && q.options == d.options && q.correctAnswer == d.correctAnswer
  {
    Question(IdPrefix + Text.NatToString(now), d.content, d.qtype, d.category, d.difficulty,
             if d.points == 0 then DefaultPoints else d.points, d.options, d.correctAnswer)
  }

  /** `create`: appends exactly one record and returns it. */
  function Create(data: seq<Question>, d: QuestionData, now: nat): (r: Store.Reply<Question, Question>)
    ensures r.result.Ok? && r.result.value == NewRecord(d, now)
    ensures |r.data| == |data| + 1 && r.data[..|data|] == data && r.data[|data|] == r.result.value
  {
    Store.Create(data, NewRecord(d, now))
  }

  /** `update`: `{ ...stored, ...patch }` at the first record with the id, the others
      untouched; an unknown id throws "Question not found" and changes nothing. */
  function Update(data: seq<Question>, id: string, patch: QuestionPatch): (r: Store.Reply<Question, Question>)
    ensures r.result.Err? <==> forall j :: 0 <= j < |data| ==> data[j].id != id
    ensures r.result.Err? ==> r.data == data && r.result.message == NotFound
    ensures |r.data| == |data|
    ensures forall i :: Store.IsFirst(data, IdOf, id, i) ==>
              r.result == Ok(MergeQuestion(data[i], patch))
              && r.data[i] == MergeQuestion(data[i], patch)
              && forall j :: 0 <= j < |data| && j != i ==> r.data[j] == data[j]
  {
    Store.Update(data, IdOf, id, q => MergeQuestion(q, patch), NotFound)
  }

  /** `delete`: removes and returns the first record with the id; an unknown id
      throws "Question not found" and changes nothing. */
  function Delete(data: seq<Question>, id: string): (r: Store.Reply<Question, Question>)
    ensures r.result.Err? <==> forall j :: 0 <= j < |data| ==> data[j].id != id
    ensures r.result.Err? ==> r.data == data && r.result.message == NotFound
    ensures r.result.Ok? ==> |r.data| == |data| - 1 && r.result.value.id == id
    ensures forall i :: Store.IsFirst(data, IdOf, id, i) ==>
              r.data == data[..i] + data[i + 1..] && r.result == Ok(data[i])
  {
    Store.Delete(data, IdOf, id, NotFound)
  }

  /** `getByType`: the records of exactly that type, in stored order. */
  function GetByType(data: seq<Question>, qtype: string): (r: seq<Question>)
    ensures |r| <= |data|
    ensures forall i :: 0 <= i < |r| ==> r[i].qtype == qtype && r[i] in data
    ensures forall i :: 0 <= i < |data| && data[i].qtype == qtype ==> data[i] in r
  {
    Seqs.Filter(data, (q: Question) => q.qtype == qtype)
  }

  /** The type filter keeps stored order: filtering two stretches of the array and
      joining the results is filtering the joined array. */
  lemma GetByTypeKeepsOrder(a: seq<Question>, b: seq<Question>, qtype: string)
    ensures GetByType(a + b, qtype) == GetByType(a, qtype) + GetByType(b, qtype)
  {
    Seqs.FilterConcat(a, b, (q: Question) => q.qtype == qtype);
  }

  /** Deleting an id that is not stored fails and leaves the length unchanged. */
  lemma DeleteMissingKeepsLength(data: seq<Question>, id: string)
    requires forall j :: 0 <= j < |data| ==> data[j].id != id
    ensures var r := Delete(data, id); r.result == Err(NotFound) && |r.data| == |data|
  {
  }
}
