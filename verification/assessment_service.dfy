/** The assessment mock service: CRUD over the stored assessment array plus the
    type and status filters. The random latency is not modelled. */
module AssessmentService {
  import opened Wrappers
  import opened Records
  import Seqs
  import Text
  import Store

  const NotFound := "Assessment not found"
  const IdPrefix := "assessment_"
  const DefaultStatus := "draft"

  function IdOf(a: Assessment): string { a.id }

  /** The fields a caller passes to `create`; `status` may be absent. */
  datatype AssessmentDraft = AssessmentDraft(
    title: string,
    atype: string,
    status: Option<string>,
    scheduledDate: string,
    duration: int,
    questions: seq<Question>)

  /** `getAll`: a copy of every record, in stored order. */
  function GetAll(data: seq<Assessment>): (r: seq<Assessment>)
    ensures |r| == |data| && forall i :: 0 <= i < |r| ==> r[i] == data[i]
  {
    data
  }

  /** `getById`: the first record with the id, or `null`. */
  function GetById(data: seq<Assessment>, id: string): (r: Option<Assessment>)
    ensures r.Some? ==> r.value.id == id && r.value in data
    ensures r.None? <==> forall j :: 0 <= j < |data| ==> data[j].id != id
    ensures forall i :: Store.IsFirst(data, IdOf, id, i) ==> r == Some(data[i])
  {
    Store.Find(data, IdOf, id)
  }

  /** The record `create` stores: a falsy status becomes "draft". */
  function NewRecord(draft: AssessmentDraft, now: nat): (a: Assessment)
    ensures a.id == IdPrefix + Text.NatToString(now)
    ensures a.status == (if draft.status.Some? && draft.status.value != "" then draft.status.value else DefaultStatus)
    ensures a.title == draft.title && a.atype == draft.atype && a.scheduledDate == draft.scheduledDate
    ensures a.duration == draft.duration && a.questions == draft.questions
  {
    Assessment(
      IdPrefix + Text.NatToString(now),
      draft.title,
      draft.atype,
      if draft.status.None? || draft.status.value == "" then DefaultStatus else draft.status.value,
      draft.scheduledDate,
      draft.duration,
      draft.questions)
  }

  /** `create`: appends exactly one record and returns it. */
  function Create(data: seq<Assessment>, draft: AssessmentDraft, now: nat): (r: Store.Reply<Assessment, Assessment>)
    ensures r.result.Ok? && r.result.value == NewRecord(draft, now)
    ensures |r.data| == |data| + 1 && r.data[..|data|] == data && r.data[|data|] == r.result.value
  {
    Store.Create(data, NewRecord(draft, now))
  }

  /** `update`: `{ ...stored, ...patch }` at the first record with the id, the others
      untouched; an unknown id throws "Assessment not found" and changes nothing. */
  function Update(data: seq<Assessment>, id: string, patch: AssessmentPatch): (r: Store.Reply<Assessment, Assessment>)
    ensures r.result.Err? <==> forall j :: 0 <= j < |data| ==> data[j].id != id
    ensures r.result.Err? ==> r.data == data && r.result.message == NotFound
    ensures |r.data| == |data|
    ensures forall i :: Store.IsFirst(data, IdOf, id, i) ==>
              r.result == Ok(MergeAssessment(data[i], patch))
              && r.data[i] == MergeAssessment(data[i], patch)
              && forall j :: 0 <= j < |data| && j != i ==> r.data[j] == data[j]
  {
    Store.Update(data, IdOf, id, a => MergeAssessment(a, patch), NotFound)
  }

  /** `delete`: removes and returns the first record with the id; an unknown id
      throws "Assessment not found" and changes nothing. */
  function Delete(data: seq<Assessment>, id: string): (r: Store.Reply<Assessment, Assessment>)
    ensures r.result.Err? <==> forall j :: 0 <= j < |data| ==> data[j].id != id
    ensures r.result.Err? ==> r.data == data && r.result.message == NotFound
    ensures r.result.Ok? ==> |r.data| == |data| - 1 && r.result.value.id == id
    ensures forall i :: Store.IsFirst(data, IdOf, id, i) ==>
              r.data == data[..i] + data[i + 1..] && r.result == Ok(data[i])
  {
    Store.Delete(data, IdOf, id, NotFound)
  }

  /** `getByType`: the records of exactly that type, in stored order. */
  function GetByType(data: seq<Assessment>, atype: string): (r: seq<Assessment>)
    ensures |r| <= |data|
    ensures forall i :: 0 <= i < |r| ==> r[i].atype == atype && r[i] in data
    ensures forall i :: 0 <= i < |data| && data[i].atype == atype ==> data[i] in r
  {
    Seqs.Filter(data, (a: Assessment) => a.atype == atype)
  }

  /** `getByStatus`: the records of exactly that status, in stored order. */
  function GetByStatus(data: seq<Assessment>, status: string): (r: seq<Assessment>)
    ensures |r| <= |data|
    ensures forall i :: 0 <= i < |r| ==> r[i].status == status && r[i] in data
    ensures forall i :: 0 <= i < |data| && data[i].status == status ==> data[i] in r
  {
    Seqs.Filter(data, (a: Assessment) => a.status == status)
  }

  /** The filters keep stored order: filtering two stretches of the array and joining
      the results is filtering the joined array. */
  lemma FiltersKeepOrder(a: seq<Assessment>, b: seq<Assessment>, atype: string, status: string)
    ensures GetByType(a + b, atype) == GetByType(a, atype) + GetByType(b, atype)
    ensures GetByStatus(a + b, status) == GetByStatus(a, status) + GetByStatus(b, status)
  {
    Seqs.FilterConcat(a, b, (x: Assessment) => x.atype == atype);
    Seqs.FilterConcat(a, b, (x: Assessment) => x.status == status);
  }
}
