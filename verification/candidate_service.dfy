/** The candidate mock service: CRUD over the stored candidate array plus the
    status filter and the name search. The random latency is not modelled. */
module CandidateService {
  import opened Wrappers
  import opened Records
  import Seqs
  import Text
  import Store

  const NotFound := "Candidate not found"
  const IdPrefix := "candidate_"
  const DefaultStatus := "invited"

  function IdOf(c: Candidate): string { c.id }

  /** The fields a caller passes to `create`; `None` marks an absent key. */
  datatype CandidateDraft = CandidateDraft(
    name: string,
    email: string,
    status: Option<string>,
    score: Option<Number>,
    assessments: Option<seq<AssessmentRef>>)

  /** `getAll`: a copy of every record, in stored order. */
  function GetAll(data: seq<Candidate>): (r: seq<Candidate>)
    ensures |r| == |data| && forall i :: 0 <= i < |r| ==> r[i] == data[i]
  {
    data
  }

  /** `getById`: the first record with the id, or `null`. */
  function GetById(data: seq<Candidate>, id: string): (r: Option<Candidate>)
    ensures r.Some? ==> r.value.id == id && r.value in data
    ensures r.None? <==> forall j :: 0 <= j < |data| ==> data[j].id != id
    ensures forall i :: Store.IsFirst(data, IdOf, id, i) ==> r == Some(data[i])
  {
    Store.Find(data, IdOf, id)
  }

  /** The record `create` stores: the id is built from the caller-supplied clock
      value; a falsy status becomes "invited", a falsy score (0 and `NaN` included)
      becomes `null`, and missing assessments become the empty list. */
  function NewRecord(draft: CandidateDraft, now: nat): (c: Candidate)
    ensures c.id == IdPrefix + Text.NatToString(now)
    ensures c.name == draft.name && c.email == draft.email
    ensures c.status == (if draft.status.Some? && draft.status.value != "" then draft.status.value else DefaultStatus)
    ensures c.score.Some? <==> draft.score.Some? && Truthy(draft.score.value)
    ensures c.score.Some? ==> c.score == draft.score
    ensures draft.assessments.None? ==> c.assessments == []
    ensures draft.assessments.Some? ==> c.assessments == draft.assessments.value
  {
    Candidate(
      IdPrefix + Text.NatToString(now),
      draft.name,
      draft.email,
      if draft.status.None? || draft.status.value == "" then DefaultStatus else draft.status.value,
      if draft.score.None? || !Truthy(draft.score.value) then None else draft.score,
      draft.assessments.GetOr([]))
  }

  /** `create`: appends exactly one record and returns it. */
  function Create(data: seq<Candidate>, draft: CandidateDraft, now: nat): (r: Store.Reply<Candidate, Candidate>)
    ensures r.result.Ok? && r.result.value == NewRecord(draft, now)
    ensures |r.data| == |data| + 1 && r.data[..|data|] == data && r.data[|data|] == r.result.value
  {
    Store.Create(data, NewRecord(draft, now))
  }

  /** `update`: `{ ...stored, ...patch }` at the index of the first record with the
      id, every other record untouched; an unknown id throws "Candidate not found"
      and leaves the array as it was. */
  function Update(data: seq<Candidate>, id: string, patch: CandidatePatch): (r: Store.Reply<Candidate, Candidate>)
    ensures r.result.Err? <==> forall j :: 0 <= j < |data| ==> data[j].id != id
    ensures r.result.Err? ==> r.data == data && r.result.message == NotFound
    ensures |r.data| == |data|
    ensures forall i :: Store.IsFirst(data, IdOf, id, i) ==>
              r.result == Ok(MergeCandidate(data[i], patch))
              && r.data[i] == MergeCandidate(data[i], patch)
              && forall j :: 0 <= j < |data| && j != i ==> r.data[j] == data[j]
  {
    Store.Update(data, IdOf, id, c => MergeCandidate(c, patch), NotFound)
  }

  /** `delete`: removes and returns the first record with the id, keeping the rest
      in order; an unknown id throws "Candidate not found" and changes nothing. */
  function Delete(data: seq<Candidate>, id: string): (r: Store.Reply<Candidate, Candidate>)
    ensures r.result.Err? <==> forall j :: 0 <= j < |data| ==> data[j].id != id
    ensures r.result.Err? ==> r.data == data && r.result.message == NotFound
    ensures r.result.Ok? ==> |r.data| == |data| - 1 && r.result.value.id == id
    ensures forall i :: Store.IsFirst(data, IdOf, id, i) ==>
              r.data == data[..i] + data[i + 1..] && r.result == Ok(data[i])
  {
    Store.Delete(data, IdOf, id, NotFound)
  }

  /** `getByStatus`: the records whose status equals the argument, in stored order. */
  function GetByStatus(data: seq<Candidate>, status: string): (r: seq<Candidate>)
    ensures |r| <= |data|
    ensures forall i :: 0 <= i < |r| ==> r[i].status == status && r[i] in data
    ensures forall i :: 0 <= i < |data| && data[i].status == status ==> data[i] in r
  {
    Seqs.Filter(data, (c: Candidate) => c.status == status)
  }

  /** `searchByName`: the records whose lower-cased name contains the lower-cased
      query, in stored order. */
  function SearchByName(data: seq<Candidate>, name: string): (r: seq<Candidate>)
    ensures |r| <= |data|
    ensures forall i :: 0 <= i < |r| ==> r[i] in data && Text.Contains(Text.Lower(r[i].name), Text.Lower(name))
    ensures forall i :: 0 <= i < |data| && Text.Contains(Text.Lower(data[i].name), Text.Lower(name)) ==> data[i] in r
  {
    Seqs.Filter(data, (c: Candidate) => Text.Contains(Text.Lower(c.name), Text.Lower(name)))
  }

  /** Both queries keep stored order: querying two stretches of the array and joining
      the results is querying the joined array. With the bound on the length and the
      membership clauses this fixes each result exactly. */
  lemma FiltersKeepOrder(a: seq<Candidate>, b: seq<Candidate>, status: string, name: string)
    ensures GetByStatus(a + b, status) == GetByStatus(a, status) + GetByStatus(b, status)
    ensures SearchByName(a + b, name) == SearchByName(a, name) + SearchByName(b, name)
  {
    Seqs.FilterConcat(a, b, (c: Candidate) => c.status == status);
    Seqs.FilterConcat(a, b, (c: Candidate) => Text.Contains(Text.Lower(c.name), Text.Lower(name)));
  }

  /** An empty query matches every candidate: the search returns the whole array. */
  lemma SearchEmptyReturnsAll(data: seq<Candidate>)
    ensures SearchByName(data, "") == data
  {
    forall c: Candidate {
      Text.ContainsEmpty(Text.Lower(c.name));
    }
    Seqs.FilterKeepsAll(data, (c: Candidate) => Text.Contains(Text.Lower(c.name), Text.Lower("")));
  }

  /** Deleting a record that was just created with a fresh id restores the array. */
  lemma CreateThenDelete(data: seq<Candidate>, draft: CandidateDraft, now: nat)
    requires forall j :: 0 <= j < |data| ==> data[j].id != IdPrefix + Text.NatToString(now)
    ensures Delete(Create(data, draft, now).data, IdPrefix + Text.NatToString(now)).data == data
  {
    var d := Create(data, draft, now).data;
    assert Store.IsFirst(d, IdOf, IdPrefix + Text.NatToString(now), |data|);
    assert d[..|data|] == data;
  }

  /** After an update that keeps the id, `getById` returns the merged record. */
  lemma UpdateThenGet(data: seq<Candidate>, id: string, patch: CandidatePatch)
    requires patch.id.None? || patch.id == Some(id)
    requires exists j :: 0 <= j < |data| && data[j].id == id
    ensures var r := Update(data, id, patch);
            r.result.Ok? && GetById(r.data, id) == Some(r.result.value)
  {
    var i := Store.IndexOf(data, IdOf, id).value;
    var r := Update(data, id, patch);
    assert Store.IsFirst(r.data, IdOf, id, i) by {
      assert r.data[i] == MergeCandidate(data[i], patch);
    }
  }
}
