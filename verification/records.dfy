/** The three record shapes the mock services store, and the object spread
    `{ ...record, ...patch }` the services and pages use to change them. */
module Records {
  import opened Wrappers

  /** An entry of a candidate's `assessments` list, linking it to an assessment by id. */
  datatype AssessmentRef = AssessmentRef(assessmentId: string)

  /** A number a score can hold: an integer, or `NaN`, which
      `Math.round(0 / 0 * 100)` gives for an assessment without questions. */
  datatype Number = Finite(value: int) | NaN

  /** `Boolean(n)`: every number but 0 and `NaN` is truthy. */
  predicate Truthy(n: Number) {
    n.Finite? && n.value != 0
  }

  /** A person being assessed. `score` is `null` until an assessment is scored. */
  datatype Candidate = Candidate(
    id: string,
    name: string,
    email: string,
    status: string,
    score: Option<Number>,
    assessments: seq<AssessmentRef>)

  /** A question. `options` is `undefined` for all but multiple-choice questions;
      `correctAnswer` may be missing. */
  datatype Question = Question(
    id: string,
    content: string,
    qtype: string,
    category: string,
    difficulty: string,
    points: int,
    options: Option<seq<string>>,
    correctAnswer: Option<string>)

  /** A scheduled test or interview; `duration` is in minutes. */
  datatype Assessment = Assessment(
    id: string,
    title: string,
    atype: string,
    status: string,
    scheduledDate: string,
    duration: int,
    questions: seq<Question>)

  /** The keys an update object carries: `Some` for a key that is present. A key whose
      value may itself be `null`/`undefined` is an `Option<Option<_>>`. */
  datatype CandidatePatch = CandidatePatch(
    id: Option<string>,
    name: Option<string>,
    email: Option<string>,
    status: Option<string>,
    score: Option<Option<Number>>,
    assessments: Option<seq<AssessmentRef>>)

  datatype QuestionPatch = QuestionPatch(
    id: Option<string>,
    content: Option<string>,
    qtype: Option<string>,
    category: Option<string>,
    difficulty: Option<string>,
    points: Option<int>,
    options: Option<Option<seq<string>>>,
    correctAnswer: Option<Option<string>>)

  datatype AssessmentPatch = AssessmentPatch(
    id: Option<string>,
    title: Option<string>,
    atype: Option<string>,
    status: Option<string>,
    scheduledDate: Option<string>,
    duration: Option<int>,
    questions: Option<seq<Question>>)

  /** One key of a spread: the patch's value when the key is present, else the old one. */
  function Over<T>(stored: T, patch: Option<T>): T {
    patch.GetOr(stored)
  }

  /** `{ ...c, ...p }` */
  function MergeCandidate(c: Candidate, p: CandidatePatch): Candidate {
    Candidate(Over(c.id, p.id), Over(c.name, p.name), Over(c.email, p.email),
              Over(c.status, p.status), Over(c.score, p.score), Over(c.assessments, p.assessments))
  }

  /** `{ ...q, ...p }` */
  function MergeQuestion(q: Question, p: QuestionPatch): Question {
    Question(Over(q.id, p.id), Over(q.content, p.content), Over(q.qtype, p.qtype),
             Over(q.category, p.category), Over(q.difficulty, p.difficulty),
             Over(q.points, p.points), Over(q.options, p.options),
             Over(q.correctAnswer, p.correctAnswer))
  }

  /** `{ ...a, ...p }` */
  function MergeAssessment(a: Assessment, p: AssessmentPatch): Assessment {
    Assessment(Over(a.id, p.id), Over(a.title, p.title), Over(a.atype, p.atype),
               Over(a.status, p.status), Over(a.scheduledDate, p.scheduledDate),
               Over(a.duration, p.duration), Over(a.questions, p.questions))
  }

  /** A whole record used as an update object: every key is present. */
  function CandidateAsPatch(c: Candidate): CandidatePatch {
    CandidatePatch(Some(c.id), Some(c.name), Some(c.email), Some(c.status), Some(c.score),
                   Some(c.assessments))
  }

  function AssessmentAsPatch(a: Assessment): AssessmentPatch {
    AssessmentPatch(Some(a.id), Some(a.title), Some(a.atype), Some(a.status),
                    Some(a.scheduledDate), Some(a.duration), Some(a.questions))
  }

  /** Spreading a whole record over another yields exactly that record, and keys
      absent from a patch keep their stored values. */
  lemma MergeLaws(c: Candidate, d: Candidate, a: Assessment, b: Assessment, p: CandidatePatch)
    ensures MergeCandidate(c, CandidateAsPatch(d)) == d
    ensures MergeAssessment(a, AssessmentAsPatch(b)) == b
    ensures MergeCandidate(c, CandidatePatch(None, None, None, None, None, None)) == c
    ensures MergeCandidate(MergeCandidate(c, p), p) == MergeCandidate(c, p)
    ensures p.id.None? ==> MergeCandidate(c, p).id == c.id
  {
  }

  /** The candidate is linked to the assessment with id `assessmentId`
      (`c.assessments.some(a => a.assessmentId === id)`). */
  predicate Links(c: Candidate, assessmentId: string) {
    exists k :: 0 <= k < |c.assessments| && c.assessments[k].assessmentId == assessmentId
  }
}
