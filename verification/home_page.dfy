/** The dashboard page that hosts the live assessment: its tab, theme and
    selection state, the candidate-update callback it hands to the live view, and
    the condition under which that view is shown. */
module HomePage {
  import opened Wrappers
  import opened Records
  import Store
  import CandidateService
  import LiveAssessment

  const DashboardTab := "dashboard"

  datatype Page = Page(
    assessments: seq<Assessment>,
    candidates: seq<Candidate>,
    activeTab: string,
    darkMode: bool,
    selected: Option<Assessment>)

  /** The page and the candidate service's array behind it. */
  datatype World = World(page: Page, store: seq<Candidate>)

  /** `handleToggleDarkMode`: flips the theme and nothing else. */
  function ToggleDarkMode(p: Page): (r: Page)
    ensures r.darkMode != p.darkMode
    ensures r == p.(darkMode := r.darkMode)
  {
    p.(darkMode := !p.darkMode)
  }

  /** `handleTabChange`: shows the tab and drops the selected assessment. */
  function TabChange(p: Page, tab: string): (r: Page)
    ensures r.activeTab == tab && r.selected.None?
    ensures r == p.(activeTab := r.activeTab, selected := r.selected)
  {
    p.(activeTab := tab, selected := None)
  }

  /** `handleStartAssessment` */
  function StartAssessment(p: Page, a: Assessment): (r: Page)
    ensures r.selected == Some(a)
    ensures r == p.(selected := r.selected)
  {
    p.(selected := Some(a))
  }

  /** `handleAssessmentComplete`: leaves the live view. */
  function AssessmentComplete(p: Page): (r: Page)
    ensures r.selected.None?
    ensures r == p.(selected := r.selected)
  {
    p.(selected := None)
  }

  /** The live assessment replaces the dashboard's overview exactly when the
      dashboard tab is open and an assessment is selected. */
  predicate ShowsLive(p: Page) {
    p.activeTab == DashboardTab && p.selected.Some?
  }

  /** How the handlers move in and out of the live view: a tab change or a
      completion always leaves it, starting enters it exactly on the dashboard tab,
      the theme toggle never affects it and two toggles cancel out. */
  lemma ViewTransitions(p: Page, a: Assessment, tab: string)
    ensures !ShowsLive(TabChange(p, tab)) && !ShowsLive(AssessmentComplete(p))
    ensures ShowsLive(StartAssessment(p, a)) <==> p.activeTab == DashboardTab
    ensures ShowsLive(ToggleDarkMode(p)) == ShowsLive(p)
    ensures ToggleDarkMode(ToggleDarkMode(p)) == p
    ensures p.selected.None? ==> AssessmentComplete(StartAssessment(p, a)) == p
  {
  }

  /** The local list with every record holding the id replaced by `updated`. */
  function ReplaceLocal(cs: seq<Candidate>, id: string, updated: Candidate): (r: seq<Candidate>)
    ensures |r| == |cs|
    ensures forall i :: 0 <= i < |cs| ==> r[i] == (if cs[i].id == id then updated else cs[i])
  {
    Store.MapWhere(cs, CandidateService.IdOf, id, _ => updated)
  }

  /** `handleCandidateUpdate`: writes the whole record through the service and, when
      that succeeds, replaces the record with the id in the local list. A service
      error is swallowed: nothing changes and the callback still resolves. */
  function CandidateUpdate(w: World, id: string, updated: Candidate): (r: World)
    ensures (forall j :: 0 <= j < |w.store| ==> w.store[j].id != id) ==> r == w
    ensures (exists j :: 0 <= j < |w.store| && w.store[j].id == id) ==>
              r.page == w.page.(candidates := ReplaceLocal(w.page.candidates, id, updated))
              && r.store == CandidateService.Update(w.store, id, CandidateAsPatch(updated)).data
    ensures forall i :: Store.IsFirst(w.store, CandidateService.IdOf, id, i) ==> r.store[i] == updated
  {
    var reply := CandidateService.Update(w.store, id, CandidateAsPatch(updated));
    if reply.result.Err? then w
    else
      assert forall i :: Store.IsFirst(w.store, CandidateService.IdOf, id, i) ==> reply.data[i] == updated by {
        forall i | Store.IsFirst(w.store, CandidateService.IdOf, id, i) ensures reply.data[i] == updated {
          MergeLaws(w.store[i], updated, Assessment("", "", "", "", "", 0, []), Assessment("", "", "", "", "", 0, []),
                    CandidatePatch(None, None, None, None, None, None));
        }
      }
      World(w.page.(candidates := ReplaceLocal(w.page.candidates, id, updated)), reply.data)
  }

  /** Replacing locally is the service's full-record merge. */
  lemma ReplaceIsMerge(cs: seq<Candidate>, id: string, updated: Candidate)
    ensures ReplaceLocal(cs, id, updated)
            == Store.MapWhere(cs, CandidateService.IdOf, id, x => MergeCandidate(x, CandidateAsPatch(updated)))
  {
    var m1 := ReplaceLocal(cs, id, updated);
    var m2 := Store.MapWhere(cs, CandidateService.IdOf, id, x => MergeCandidate(x, CandidateAsPatch(updated)));
    forall j | 0 <= j < |cs| ensures m1[j] == m2[j] {
      MergeLaws(cs[j], updated, Assessment("", "", "", "", "", 0, []), Assessment("", "", "", "", "", 0, []),
                CandidatePatch(None, None, None, None, None, None));
    }
  }

  /** When the local list mirrors the service and holds the id at most once, an
      update keeps the two equal. */
  lemma CandidateUpdateKeepsSync(w: World, id: string, updated: Candidate)
    requires w.page.candidates == w.store
    requires Store.AtMostOne(w.store, CandidateService.IdOf, id)
    ensures var r := CandidateUpdate(w, id, updated); r.page.candidates == r.store
  {
    ReplaceIsMerge(w.store, id, updated);
    Store.MapMirrorsUpdate(w.store, CandidateService.IdOf, id,
                           x => MergeCandidate(x, CandidateAsPatch(updated)), CandidateService.NotFound);
  }

  /** The live view's submission on this page: the callback is `CandidateUpdate`,
      which never rejects, so it is called with a succeeding callback. */
  function LiveSubmit(w: World, s: LiveAssessment.Session): (r: (LiveAssessment.Step, World))
    requires ShowsLive(w.page)
    ensures r.0 == LiveAssessment.Submit(w.page.selected.value, s, w.page.candidates, true)
    ensures r.0.session.showResults
    ensures r.0.submitted.value.update.None? ==> r.1 == w
    ensures r.0.submitted.value.update.Some? ==>
              var c := r.0.submitted.value.update.value;
              r.1 == CandidateUpdate(w, c.id, c)
  {
    var step := LiveAssessment.Submit(w.page.selected.value, s, w.page.candidates, true);
    match step.submitted.value.update
    case None => (step, w)
    case Some(c) => (step, CandidateUpdate(w, c.id, c))
  }

  /** A submission on the dashboard always shows the results, and when the linked
      candidate is known to the service it is stored completed with the score. */
  lemma LiveSubmitStoresResult(w: World, s: LiveAssessment.Session, i: nat)
    requires ShowsLive(w.page)
    requires w.page.candidates == w.store
    requires i < |w.store| && Links(w.store[i], w.page.selected.value.id)
    requires forall j :: 0 <= j < i ==> !Links(w.store[j], w.page.selected.value.id)
    requires Store.AtMostOne(w.store, CandidateService.IdOf, w.store[i].id)
    ensures var (step, r) := LiveSubmit(w, s);
            && step.session.showResults
            && r.store[i].status == "completed"
            && r.store[i].score == Some(step.submitted.value.score)
            && r.page.candidates == r.store
  {
    var (step, r) := LiveSubmit(w, s);
    var c := step.submitted.value.update.value;
    assert c.id == w.store[i].id;
    assert Store.IsFirst(w.store, CandidateService.IdOf, c.id, i);
    ReplaceIsMerge(w.store, c.id, c);
    assert r.page.candidates == r.store by {
      Store.MapMirrorsUpdate(w.store, CandidateService.IdOf, c.id,
                             x => MergeCandidate(x, CandidateAsPatch(c)), CandidateService.NotFound);
    }
  }
}
