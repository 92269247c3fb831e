/** The older dashboard feature that holds its own copies of the assessment and
    candidate lists and runs a live test inline. Its service calls go to the
    candidate and assessment stores, carried here as the `Backend`. */
module MainFeature {
  import opened Wrappers
  import opened Records
  import Answers
  import Navigation
  import Scoring
  import Timer
  import Store
  import CandidateService
  import AssessmentService

  datatype State = State(
    assessments: seq<Assessment>,
    candidates: seq<Candidate>,
    selected: Option<Assessment>,
    current: int,
    timeRemaining: int,
    isLiveTest: bool,
    answers: Answers.AnswerMap,
    showResults: bool)

  /** The arrays held by the candidate and assessment services. */
  datatype Backend = Backend(candidates: seq<Candidate>, assessments: seq<Assessment>)

  datatype World = World(state: State, backend: Backend)

  /** `startAssessment`: selects the assessment and resets the attempt. */
  function StartAssessment(st: State, a: Assessment): (r: State)
    ensures r.selected == Some(a) && r.isLiveTest && !r.showResults
    ensures r.current == 0 && r.answers == map[] && r.timeRemaining == a.duration * 60
    ensures r.assessments == st.assessments && r.candidates == st.candidates
  {
    st.(selected := Some(a), current := 0, answers := map[], timeRemaining := a.duration * 60,
        isLiveTest := true, showResults := false)
  }

  /** The interval runs only during a live test with time left. */
  predicate TimerRunning(st: State) {
    st.isLiveTest && st.timeRemaining > 0
  }

  /** `handleAnswerChange`: overwrites one question's answer, nothing else. */
  function AnswerChange(st: State, questionId: string, answer: string): (r: State)
    ensures Answers.Lookup(r.answers, questionId) == Some(answer)
    ensures forall k :: k != questionId ==> Answers.Lookup(r.answers, k) == Answers.Lookup(st.answers, k)
    ensures r == st.(answers := r.answers)
  {
    st.(answers := Answers.Record(st.answers, questionId, answer))
  }

  /** `navigateQuestion`: the same saturating moves as the panel. */
  function NavigateQuestion(st: State, dir: Navigation.Direction): (r: State)
    requires st.selected.Some?
    ensures Navigation.InRange(st.current, |st.selected.value.questions|) ==>
              Navigation.InRange(r.current, |st.selected.value.questions|)
    ensures r.current == st.current + 1 <==> dir == Navigation.Next && st.current < |st.selected.value.questions| - 1
    ensures r.current == st.current - 1 <==> dir == Navigation.Prev && st.current > 0
    ensures r == st.(current := r.current)
  {
    st.(current := Navigation.Navigate(st.current, |st.selected.value.questions|, dir))
  }

  /** The first candidate linked to the selected assessment, completed with the score. */
  function CompletedCandidate(st: State): (r: Option<Candidate>)
    requires st.selected.Some?
    ensures r.None? <==> forall j :: 0 <= j < |st.candidates| ==> !Links(st.candidates[j], st.selected.value.id)
    ensures r.Some? ==> r.value.score == Some(Scoring.Score(st.selected.value.questions, st.answers))
    ensures r.Some? ==> r.value.status == "completed"
    ensures forall i :: 0 <= i < |st.candidates| && Links(st.candidates[i], st.selected.value.id)
                        && (forall j :: 0 <= j < i ==> !Links(st.candidates[j], st.selected.value.id)) ==>
              r == Some(st.candidates[i].(score := r.value.score, status := "completed"))
  {
    var a := st.selected.value;
    match Scoring.LinkedCandidate(st.candidates, a.id)
    case None => None
    case Some(i) => Some(Scoring.Completed(st.candidates[i], Scoring.Score(a.questions, st.answers)))
  }

  /** `prev.map(c => c.id === id ? updated : c)` on the local candidate list. */
  function ReplaceCandidate(cs: seq<Candidate>, updated: Candidate): (r: seq<Candidate>)
    ensures |r| == |cs|
    ensures forall i :: 0 <= i < |cs| ==> r[i] == (if cs[i].id == updated.id then updated else cs[i])
  {
    Store.MapWhere(cs, CandidateService.IdOf, updated.id, _ => updated)
  }

  /** `handleTestSubmit`. The live test ends first, so the timer stops whatever
      follows. Without a selected assessment the handler throws and only that happens.
      Otherwise the linked candidate, completed with the score, is written to the
      candidate service; when that throws, nothing else changes and the results stay
      hidden; when it succeeds, or no candidate is linked, the local list takes the
      completed record and the `showResults` flag is set. Nothing renders that flag:
      the results panel sits inside the live view, which has already closed. */
  function Submit(w: World): (r: World)
    ensures !r.state.isLiveTest && !TimerRunning(r.state)
    ensures r.state.selected == w.state.selected && r.state.answers == w.state.answers
    ensures r.state.current == w.state.current && r.state.timeRemaining == w.state.timeRemaining
    ensures r.state.assessments == w.state.assessments && r.backend.assessments == w.backend.assessments
    ensures w.state.selected.None? ==> r == World(w.state.(isLiveTest := false), w.backend)
    ensures w.state.selected.Some? && CompletedCandidate(w.state).None? ==>
              r == World(w.state.(isLiveTest := false, showResults := true), w.backend)
    ensures w.state.selected.Some? && CompletedCandidate(w.state).Some? ==>
              var c := CompletedCandidate(w.state).value;
              var reply := CandidateService.Update(w.backend.candidates, c.id, CandidateAsPatch(c));
              if reply.result.Err? then r == World(w.state.(isLiveTest := false), w.backend)
              else r.state.showResults && r.backend.candidates == reply.data
                   && r.state.candidates == ReplaceCandidate(w.state.candidates, c)
  {
    var st := w.state.(isLiveTest := false);
    if st.selected.None? then World(st, w.backend)
    else match CompletedCandidate(w.state)
      case None => World(st.(showResults := true), w.backend)
      case Some(c) =>
        var reply := CandidateService.Update(w.backend.candidates, c.id, CandidateAsPatch(c));
        if reply.result.Err? then World(st, w.backend)
        else World(st.(candidates := ReplaceCandidate(st.candidates, c), showResults := true),
                   w.backend.(candidates := reply.data))
  }

  /** One second of the interval: no effect unless the timer runs; from one second or
      less it submits and leaves 0; otherwise it takes one second off. */
  function Tick(w: World): (r: World)
    ensures !TimerRunning(w.state) ==> r == w
    ensures w.state.timeRemaining >= 0 ==> r.state.timeRemaining >= 0
    ensures TimerRunning(w.state) && w.state.timeRemaining <= 1 ==>
              r == Submit(w).(state := Submit(w).state.(timeRemaining := 0)) && !TimerRunning(r.state)
    ensures TimerRunning(w.state) && w.state.timeRemaining > 1 ==>
              r == w.(state := w.state.(timeRemaining := w.state.timeRemaining - 1))
  {
    if !TimerRunning(w.state) then w
    else
      var t := Timer.Step(w.state.timeRemaining);
      if t.submits then
        var s := Submit(w);
        s.(state := s.state.(timeRemaining := t.next))
      else w.(state := w.state.(timeRemaining := t.next))
  }

  /** The world after `k` ticks. */
  function RunTicks(w: World, k: nat): (r: World)
    ensures r.state.selected == w.state.selected
    decreases k
  {
    if k == 0 then w else RunTicks(Tick(w), k - 1)
  }

  /** Submission ends the live test, so afterwards the timer never fires again. */
  lemma {:induction false} SubmitStopsTimer(w: World, k: nat)
    ensures RunTicks(Submit(w), k) == Submit(w)
    decreases k
  {
    if k > 0 {
      SubmitStopsTimer(w, k - 1);
    }
  }

  /** A live test with `t` seconds left runs `t - 1` plain ticks and is submitted by
      the `t`-th; from then on ticks do nothing. */
  lemma {:induction false} CountdownSubmits(w: World, k: nat)
    requires TimerRunning(w.state)
    ensures k < w.state.timeRemaining ==>
              RunTicks(w, k) == w.(state := w.state.(timeRemaining := w.state.timeRemaining - k))
    ensures k >= w.state.timeRemaining ==>
              var s := Submit(w.(state := w.state.(timeRemaining := 1)));
              RunTicks(w, k) == s.(state := s.state.(timeRemaining := 0))
    decreases k
  {
    if k > 0 {
      var t := w.state.timeRemaining;
      if t > 1 {
        var w' := w.(state := w.state.(timeRemaining := t - 1));
        assert Tick(w) == w';
        CountdownSubmits(w', k - 1);
        assert w'.(state := w'.state.(timeRemaining := 1)) == w.(state := w.state.(timeRemaining := 1));
        assert w'.(state := w'.state.(timeRemaining := t - 1 - (k - 1)))
               == w.(state := w.state.(timeRemaining := t - k));
      } else {
        assert w == w.(state := w.state.(timeRemaining := 1));
        var s := Submit(w);
        var s0 := s.(state := s.state.(timeRemaining := 0));
        assert Tick(w) == s0;
        assert !TimerRunning(s0.state);
        StoppedStaysStopped(s0, k - 1);
      }
    }
  }

  /** Without a running timer ticks do nothing. */
  lemma {:induction false} StoppedStaysStopped(w: World, k: nat)
    requires !TimerRunning(w.state)
    ensures RunTicks(w, k) == w
    decreases k
  {
    if k > 0 {
      StoppedStaysStopped(w, k - 1);
    }
  }

  /** `rescheduleAssessment`: the first local assessment with the id gets the new date
      and status "scheduled", which is written to the assessment service and then to
      every local copy with that id. An id missing from the local list, or a service
      call that throws, changes nothing. */
  function Reschedule(w: World, assessmentId: string, newDate: string): (r: World)
    ensures r.state == w.state.(assessments := r.state.assessments)
    ensures r.backend.candidates == w.backend.candidates
    ensures |r.state.assessments| == |w.state.assessments|
    ensures (forall j :: 0 <= j < |w.state.assessments| ==> w.state.assessments[j].id != assessmentId) ==> r == w
    ensures forall i :: Store.IsFirst(w.state.assessments, AssessmentService.IdOf, assessmentId, i) ==>
              var updated := w.state.assessments[i].(scheduledDate := newDate, status := "scheduled");
              var reply := AssessmentService.Update(w.backend.assessments, assessmentId, AssessmentAsPatch(updated));
              if reply.result.Err? then r == w
              else r.backend.assessments == reply.data
                   && forall j :: 0 <= j < |w.state.assessments| ==>
                        r.state.assessments[j] == (if w.state.assessments[j].id == assessmentId then updated else w.state.assessments[j])
  {
    match Store.Find(w.state.assessments, AssessmentService.IdOf, assessmentId)
    case None => w
    case Some(a) =>
      var updated := a.(scheduledDate := newDate, status := "scheduled");
      var reply := AssessmentService.Update(w.backend.assessments, assessmentId, AssessmentAsPatch(updated));
      if reply.result.Err? then w
      else World(w.state.(assessments := Store.MapWhere(w.state.assessments, AssessmentService.IdOf, assessmentId, _ => updated)),
                 w.backend.(assessments := reply.data))
  }

  /** When the local list mirrors the service and holds the id at most once, a
      reschedule keeps the two equal. */
  lemma RescheduleKeepsSync(w: World, assessmentId: string, newDate: string)
    requires w.state.assessments == w.backend.assessments
    requires Store.AtMostOne(w.state.assessments, AssessmentService.IdOf, assessmentId)
    ensures var r := Reschedule(w, assessmentId, newDate); r.state.assessments == r.backend.assessments
  {
    var data := w.state.assessments;
    match Store.Find(data, AssessmentService.IdOf, assessmentId)
    case None =>
    case Some(a) =>
      var updated := a.(scheduledDate := newDate, status := "scheduled");
      var merge := x => MergeAssessment(x, AssessmentAsPatch(updated));
      Store.MapMirrorsUpdate(data, AssessmentService.IdOf, assessmentId, merge, AssessmentService.NotFound);
      var m1 := Store.MapWhere(data, AssessmentService.IdOf, assessmentId, _ => updated);
      var m2 := Store.MapWhere(data, AssessmentService.IdOf, assessmentId, merge);
      assert m1 == m2 by {
        forall j | 0 <= j < |data| ensures m1[j] == m2[j] {
          MergeLaws(Candidate("", "", "", "", None, []), Candidate("", "", "", "", None, []), data[j], updated,
                    CandidatePatch(None, None, None, None, None, None));
        }
      }
  }

  /** Replacing a candidate by a whole record is spreading that record over it. */
  lemma ReplaceIsMerge(data: seq<Candidate>, c: Candidate)
    ensures ReplaceCandidate(data, c)
            == Store.MapWhere(data, CandidateService.IdOf, c.id, x => MergeCandidate(x, CandidateAsPatch(c)))
  {
    var m1 := ReplaceCandidate(data, c);
    var m2 := Store.MapWhere(data, CandidateService.IdOf, c.id, x => MergeCandidate(x, CandidateAsPatch(c)));
    forall j | 0 <= j < |data| ensures m1[j] == m2[j] {
      MergeLaws(data[j], c, Assessment("", "", "", "", "", 0, []), Assessment("", "", "", "", "", 0, []),
                CandidatePatch(None, None, None, None, None, None));
    }
  }

  /** Distinct ids: no id is held twice. */
  ghost predicate DistinctIds(cs: seq<Candidate>) {
    forall i, j :: 0 <= i < j < |cs| ==> cs[i].id != cs[j].id
  }

  lemma DistinctAtMostOne(cs: seq<Candidate>, id: string)
    requires DistinctIds(cs)
    ensures Store.AtMostOne(cs, CandidateService.IdOf, id)
  {
  }

  /** When the local candidate list mirrors the service and its ids are distinct, a
      submission keeps the two equal. */
  lemma SubmitKeepsSync(w: World)
    requires w.state.candidates == w.backend.candidates
    requires DistinctIds(w.state.candidates)
    ensures var r := Submit(w); r.state.candidates == r.backend.candidates
  {
    if w.state.selected.Some? && CompletedCandidate(w.state).Some? {
      var data := w.state.candidates;
      var c := CompletedCandidate(w.state).value;
      DistinctAtMostOne(data, c.id);
      ReplaceIsMerge(data, c);
      Store.MapMirrorsUpdate(data, CandidateService.IdOf, c.id, x => MergeCandidate(x, CandidateAsPatch(c)), CandidateService.NotFound);
    }
  }
}
