/** The live-assessment panel of the dashboard: one timed attempt at an assessment.
    Its state is the question index, the remaining seconds, the answers and
    whether the results are shown; the assessment and the candidate list are
    inputs. The outcome of the `onCandidateUpdate` callback is a parameter. */
module LiveAssessment {
  import opened Wrappers
  import opened Records
  import Answers
  import Navigation
  import Scoring
  import Timer

  datatype Session = Session(
    current: int,
    timeRemaining: int,
    answers: Answers.AnswerMap,
    showResults: bool)

  /** A submission: the score, and the completed candidate handed to
      `onCandidateUpdate` when one is linked to the assessment. */
  datatype Submission = Submission(score: Number, update: Option<Candidate>)

  /** A transition: the next session and the submission it made, if any. */
  datatype Step = Step(session: Session, submitted: Option<Submission>)

  /** The session is consistent with its assessment: the index is a valid position and
      the countdown is not negative. */
  predicate Valid(a: Assessment, s: Session) {
    Navigation.InRange(s.current, |a.questions|) && s.timeRemaining >= 0
  }

  /** The panel's initial state: first question, `duration * 60` seconds, no answers,
      results hidden. */
  function Start(a: Assessment): (s: Session)
    ensures a.duration >= 0 ==> Valid(a, s)
    ensures s.current == 0 && s.answers == map[] && !s.showResults
    ensures s.timeRemaining == a.duration * 60
  {
    Session(0, a.duration * 60, map[], false)
  }

  /** The interval is installed only while time remains and the results are hidden. */
  predicate TimerRunning(s: Session) {
    s.timeRemaining > 0 && !s.showResults
  }

  /** `handleAnswerChange`: records the answer for one question, nothing else changes. */
  function AnswerChange(a: Assessment, s: Session, questionId: string, answer: string): (r: Session)
    ensures Valid(a, s) ==> Valid(a, r)
    ensures Answers.Lookup(r.answers, questionId) == Some(answer)
    ensures forall k :: k != questionId ==> Answers.Lookup(r.answers, k) == Answers.Lookup(s.answers, k)
    ensures r.current == s.current && r.timeRemaining == s.timeRemaining && r.showResults == s.showResults
  {
    s.(answers := Answers.Record(s.answers, questionId, answer))
  }

  /** `navigateQuestion`: saturating moves within the question list. */
  function NavigateQuestion(a: Assessment, s: Session, dir: Navigation.Direction): (r: Session)
    ensures Valid(a, s) ==> Valid(a, r)
    ensures r.current == s.current + 1 <==> dir == Navigation.Next && s.current < |a.questions| - 1
    ensures r.current == s.current - 1 <==> dir == Navigation.Prev && s.current > 0
    ensures r.current == s.current || r.current == s.current + 1 || r.current == s.current - 1
    ensures r.answers == s.answers && r.timeRemaining == s.timeRemaining && r.showResults == s.showResults
  {
    s.(current := Navigation.Navigate(s.current, |a.questions|, dir))
  }

  /** `handleTestSubmit`: scores the answers and, when a candidate is linked to the
      assessment, hands the first such candidate, completed with the score, to the
      callback. The results are shown once that succeeds (or when there is no
      candidate); a failed callback leaves them as they were. */
  function Submit(a: Assessment, s: Session, candidates: seq<Candidate>, callbackSucceeds: bool): (r: Step)
    ensures r.submitted.Some?
    ensures r.submitted.value.score == Scoring.Score(a.questions, s.answers)
    ensures r.submitted.value.update.None? <==> forall j :: 0 <= j < |candidates| ==> !Links(candidates[j], a.id)
    ensures forall i :: 0 <= i < |candidates| && Links(candidates[i], a.id)
                        && (forall j :: 0 <= j < i ==> !Links(candidates[j], a.id)) ==>
              r.submitted.value.update == Some(Scoring.Completed(candidates[i], r.submitted.value.score))
    ensures r.session.showResults <==> r.submitted.value.update.None? || callbackSucceeds || s.showResults
    ensures r.session == s.(showResults := r.session.showResults)
  {
    var score := Scoring.Score(a.questions, s.answers);
    var update := match Scoring.LinkedCandidate(candidates, a.id)
      case None => None
      case Some(i) => Some(Scoring.Completed(candidates[i], score));
    var shown := if update.Some? && !callbackSucceeds then s.showResults else true;
    Step(s.(showResults := shown), Some(Submission(score, update)))
  }

  /** The submit button stays in the header once the results are shown, so a second
      click scores the unchanged answers again and hands the same completed candidate
      to the callback a second time: submission is not idempotent. */
  lemma ResubmitRepeatsSubmission(a: Assessment, s: Session, candidates: seq<Candidate>, ok: bool)
    ensures var first := Submit(a, s, candidates, ok);
            var second := Submit(a, first.session, candidates, ok);
            && second.submitted.Some?
            && second.submitted == first.submitted
            && second.session == first.session
  {
  }

  /** One second of the interval. Nothing happens while the timer is not running; a
      tick from one second or less submits and sets the time to 0; any other tick
      takes exactly one second off. */
  function Tick(a: Assessment, s: Session, candidates: seq<Candidate>, callbackSucceeds: bool): (r: Step)
    ensures !TimerRunning(s) ==> r == Step(s, None)
    ensures Valid(a, s) ==> Valid(a, r.session)
    ensures r.submitted.Some? <==> TimerRunning(s) && s.timeRemaining <= 1
    ensures r.submitted.Some? ==> r == Submit(a, s, candidates, callbackSucceeds).(session := r.session)
    ensures r.submitted.Some? ==> r.session == Submit(a, s, candidates, callbackSucceeds).session.(timeRemaining := 0)
    ensures TimerRunning(s) && s.timeRemaining > 1 ==> r == Step(s.(timeRemaining := s.timeRemaining - 1), None)
  {
    if !TimerRunning(s) then Step(s, None)
    else
      var t := Timer.Step(s.timeRemaining);
      if t.submits then
        var sub := Submit(a, s, candidates, callbackSucceeds);
        sub.(session := sub.session.(timeRemaining := t.next))
      else Step(s.(timeRemaining := t.next), None)
  }

  /** Percentage of the way through the questions shown by the progress bar. */
  function Progress(a: Assessment, s: Session): (r: Navigation.Ratio)
    requires Navigation.InRange(s.current, |a.questions|)
    ensures r.Infinity? <==> |a.questions| == 0
    ensures r.Share? ==> 0.0 < r.percent <= 100.0
    ensures r.Share? ==> (r.percent == 100.0 <==> s.current == |a.questions| - 1)
  {
    Navigation.Progress(s.current, |a.questions|)
  }

  /** An assessment without questions still runs: its progress is `Infinity`, and a
      submission scores `NaN` and writes that score onto the linked candidate. */
  lemma EmptyAssessment(a: Assessment, s: Session, candidates: seq<Candidate>, ok: bool)
    requires |a.questions| == 0 && Valid(a, s)
    ensures Progress(a, s) == Navigation.Infinity
    ensures var step := Submit(a, s, candidates, ok);
            && step.submitted.value.score == NaN
            && (step.submitted.value.update.Some? ==> step.submitted.value.update.value.score == Some(NaN))
  {
  }

  /** The session after `k` ticks, and how many of them submitted. */
  function RunTicks(a: Assessment, s: Session, candidates: seq<Candidate>, callbackSucceeds: bool, k: nat): (r: (Session, nat))
    ensures !TimerRunning(s) ==> r == (s, 0)
    ensures r.1 <= 1
    decreases k
  {
    if k == 0 then (s, 0)
    else
      var step := Tick(a, s, candidates, callbackSucceeds);
      var rest := RunTicks(a, step.session, candidates, callbackSucceeds, k - 1);
      (rest.0, rest.1 + if step.submitted.Some? then 1 else 0)
  }

  /** Once the time is up no tick does anything. */
  lemma {:induction false} StoppedStaysStopped(a: Assessment, s: Session, candidates: seq<Candidate>, ok: bool, k: nat)
    requires s.timeRemaining <= 0
    ensures RunTicks(a, s, candidates, ok, k) == (s, 0)
  {
    if k > 0 {
      StoppedStaysStopped(a, s, candidates, ok, k - 1);
    }
  }

  /** Counting down from `t` seconds: the first `t - 1` ticks each take one second off
      and submit nothing; the `t`-th submits exactly once and leaves 0; later ticks do
      nothing, so the time never goes negative and submission is never repeated. */
  lemma {:induction false} CountdownSubmitsOnce(a: Assessment, s: Session, candidates: seq<Candidate>, ok: bool, k: nat)
    requires s.timeRemaining > 0 && !s.showResults
    ensures k < s.timeRemaining ==>
              RunTicks(a, s, candidates, ok, k) == (s.(timeRemaining := s.timeRemaining - k), 0)
    ensures k >= s.timeRemaining ==>
              RunTicks(a, s, candidates, ok, k).0.timeRemaining == 0 && RunTicks(a, s, candidates, ok, k).1 == 1
    decreases k
  {
    if k > 0 {
      if s.timeRemaining > 1 {
        var s' := s.(timeRemaining := s.timeRemaining - 1);
        QuietTick(a, s, candidates, ok, k);
        CountdownSubmitsOnce(a, s', candidates, ok, k - 1);
        assert s'.(timeRemaining := s'.timeRemaining - (k - 1)) == s.(timeRemaining := s.timeRemaining - k);
      } else {
        FinalTick(a, s, candidates, ok, k);
      }
    }
  }

  /** With more than one second left, a tick takes one second off and submits nothing. */
  lemma QuietTick(a: Assessment, s: Session, candidates: seq<Candidate>, ok: bool, k: nat)
    requires s.timeRemaining > 1 && !s.showResults && k > 0
    ensures RunTicks(a, s, candidates, ok, k)
            == RunTicks(a, s.(timeRemaining := s.timeRemaining - 1), candidates, ok, k - 1)
  {
    assert Tick(a, s, candidates, ok) == Step(s.(timeRemaining := s.timeRemaining - 1), None);
  }

  /** With one second left, a tick submits and every later tick does nothing. */
  lemma FinalTick(a: Assessment, s: Session, candidates: seq<Candidate>, ok: bool, k: nat)
    requires s.timeRemaining == 1 && !s.showResults && k > 0
    ensures RunTicks(a, s, candidates, ok, k).0.timeRemaining == 0
    ensures RunTicks(a, s, candidates, ok, k).1 == 1
  {
    var step := Tick(a, s, candidates, ok);
    assert step.submitted.Some? && step.session.timeRemaining == 0;
    StoppedStaysStopped(a, step.session, candidates, ok, k - 1);
  }

  /** A fresh attempt at an assessment of `d > 0` minutes is force-submitted exactly
      once, by its `60 d`-th tick; with duration 0 the timer never runs. */
  lemma StartedCountdown(a: Assessment, candidates: seq<Candidate>, ok: bool)
    ensures a.duration > 0 ==> RunTicks(a, Start(a), candidates, ok, a.duration * 60).1 == 1
    ensures a.duration > 0 ==> RunTicks(a, Start(a), candidates, ok, a.duration * 60 - 1).1 == 0
    ensures a.duration <= 0 ==> forall k: nat :: RunTicks(a, Start(a), candidates, ok, k) == (Start(a), 0)
  {
    if a.duration > 0 {
      CountdownSubmitsOnce(a, Start(a), candidates, ok, a.duration * 60);
      CountdownSubmitsOnce(a, Start(a), candidates, ok, a.duration * 60 - 1);
    } else {
      forall k: nat ensures RunTicks(a, Start(a), candidates, ok, k) == (Start(a), 0) {
        StoppedStaysStopped(a, Start(a), candidates, ok, k);
      }
    }
  }
}
