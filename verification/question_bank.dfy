/** The question-bank page: the authoring form's validation, the data it saves,
    the page's local copy of the question list, and the type labels of the
    type filter. */
module QuestionBank {
  import opened Wrappers
  import opened Records
  import Seqs
  import Text
  import Store
  import QuestionService

  const MultipleChoice := "multiple-choice"
  const BlankOptions := ["", "", "", ""]

  /** The form's fields. */
  datatype Draft = Draft(
    content: string,
    qtype: string,
    category: string,
    difficulty: string,
    points: int,
    options: seq<string>,
    correctAnswer: string)

  /** The keys of the error object. */
  datatype Field = ContentField | CategoryField | PointsField | OptionsField | CorrectAnswerField

  const ContentRequired := "Question content is required"
  const CategoryRequired := "Category is required"
  const PointsTooLow := "Points must be at least 1"
  const TooFewOptions := "At least 2 options are required"
  const AnswerRequired := "Correct answer is required"
  const AnswerNotAnOption := "Correct answer must match one of the options"

  /** The options that are not blank once trimmed, in their original order. */
  function NonBlank(options: seq<string>): (r: seq<string>)
    ensures |r| <= |options|
    ensures forall i :: 0 <= i < |r| ==> !Text.IsBlank(r[i]) && r[i] in options
    ensures forall i :: 0 <= i < |options| && !Text.IsBlank(options[i]) ==> options[i] in r
  {
    Seqs.Filter(options, o => !Text.IsBlank(o))
  }

  /** Dropping blank options keeps the order of the rest: pruning two stretches of the
      list and joining them is pruning the joined list. */
  lemma NonBlankKeepsOrder(a: seq<string>, b: seq<string>)
    ensures NonBlank(a + b) == NonBlank(a) + NonBlank(b)
  {
    Seqs.FilterConcat(a, b, o => !Text.IsBlank(o));
  }

  /** `validateForm`: one entry per broken rule. Content and category must not be
      blank and points must be at least 1; a multiple-choice draft also needs two
      non-blank options, and a correct answer that is non-blank and, verbatim, one
      of the options. The two options rules are judged independently. */
  function Validate(d: Draft): (errors: map<Field, string>)
    ensures ContentField in errors <==> Text.IsBlank(d.content)
    ensures CategoryField in errors <==> Text.IsBlank(d.category)
    ensures PointsField in errors <==> d.points < 1
    ensures OptionsField in errors <==> d.qtype == MultipleChoice && |NonBlank(d.options)| < 2
    ensures CorrectAnswerField in errors <==>
              d.qtype == MultipleChoice && (Text.IsBlank(d.correctAnswer) || d.correctAnswer !in d.options)
    ensures ContentField in errors ==> errors[ContentField] == ContentRequired
    ensures CategoryField in errors ==> errors[CategoryField] == CategoryRequired
    ensures PointsField in errors ==> errors[PointsField] == PointsTooLow
    ensures OptionsField in errors ==> errors[OptionsField] == TooFewOptions
    ensures CorrectAnswerField in errors ==>
              errors[CorrectAnswerField] == (if Text.IsBlank(d.correctAnswer) then AnswerRequired else AnswerNotAnOption)
  {
    Errors(Text.IsBlank(d.content), Text.IsBlank(d.category), d.points < 1, d.qtype == MultipleChoice,
           |NonBlank(d.options)| < 2, Text.IsBlank(d.correctAnswer), d.correctAnswer !in d.options)
  }

  /** The error object built from the outcome of each check, in `validateForm`'s order. */
  function Errors(blankContent: bool, blankCategory: bool, lowPoints: bool, multipleChoice: bool,
                  fewOptions: bool, blankAnswer: bool, foreignAnswer: bool): (errors: map<Field, string>)
    ensures ContentField in errors <==> blankContent
    ensures CategoryField in errors <==> blankCategory
    ensures PointsField in errors <==> lowPoints
    ensures OptionsField in errors <==> multipleChoice && fewOptions
    ensures CorrectAnswerField in errors <==> multipleChoice && (blankAnswer || foreignAnswer)
    ensures ContentField in errors ==> errors[ContentField] == ContentRequired
    ensures CategoryField in errors ==> errors[CategoryField] == CategoryRequired
    ensures PointsField in errors ==> errors[PointsField] == PointsTooLow
    ensures OptionsField in errors ==> errors[OptionsField] == TooFewOptions
    ensures CorrectAnswerField in errors ==>
              errors[CorrectAnswerField] == (if blankAnswer then AnswerRequired else AnswerNotAnOption)
  {
    var e1 := if blankContent then map[ContentField := ContentRequired] else map[];
    var e2 := if blankCategory then e1[CategoryField := CategoryRequired] else e1;
    var e3 := if lowPoints then e2[PointsField := PointsTooLow] else e2;
    if multipleChoice then
      var e4 := if fewOptions then e3[OptionsField := TooFewOptions] else e3;
      if blankAnswer then e4[CorrectAnswerField := AnswerRequired]
      else if foreignAnswer then e4[CorrectAnswerField := AnswerNotAnOption]
      else e4
    else e3
  }

  /** `Object.keys(errors).length === 0` */
  predicate IsValid(d: Draft) {
    |Validate(d)| == 0
  }

  /** The form is accepted exactly when every rule holds. */
  lemma ValidIff(d: Draft)
    ensures IsValid(d) <==>
              !Text.IsBlank(d.content) && !Text.IsBlank(d.category) && d.points >= 1
              && (d.qtype == MultipleChoice ==>
                    |NonBlank(d.options)| >= 2 && !Text.IsBlank(d.correctAnswer) && d.correctAnswer in d.options)
  {
    var e := Validate(d);
    if !IsValid(d) {
      var f :| f in e;
      assert f in e.Keys;
    } else {
      assert e.Keys == {};
    }
  }

  /** Whether the options rule fires does not depend on the correct answer. */
  lemma OptionsRuleIgnoresAnswer(d: Draft, answer: string)
    ensures OptionsField in Validate(d) <==> OptionsField in Validate(d.(correctAnswer := answer))
  {
  }

  /** A draft with one non-blank option among blanks is refused for its options even
      though its correct answer matches that option. */
  lemma OneRealOptionIsRefused()
    ensures var d := Draft("Q", MultipleChoice, "C", "Easy", 1, ["", "X", "", ""], "X");
            OptionsField in Validate(d) && CorrectAnswerField !in Validate(d)
  {
    OneRealOption();
    assert !Text.IsBlank("X") by {
      Text.BlankIffAllWhitespace("X");
    }
  }

  /** Of the options "", "X", "", "" only "X" survives the blank filter. */
  lemma OneRealOption()
    ensures NonBlank(["", "X", "", ""]) == ["X"]
  {
    var opts := ["", "X", "", ""];
    assert !Text.IsBlank("X") by {
      Text.BlankIffAllWhitespace("X");
    }
    assert Text.IsBlank("") by {
      Text.BlankIffAllWhitespace("");
    }
    assert opts[1..] == ["X", "", ""] && opts[1..][1..] == ["", ""] && opts[1..][1..][1..] == [""];
    assert NonBlank([""]) == [];
    assert NonBlank(["", ""]) == [];
    assert NonBlank(["X", "", ""]) == ["X"];
  }

  /** The data `handleSubmit` saves: multiple-choice options without the blank ones,
      no options at all for other types. */
  function SaveData(d: Draft): (r: QuestionService.QuestionData)
    ensures d.qtype == MultipleChoice ==> r.options == Some(NonBlank(d.options))
    ensures d.qtype != MultipleChoice ==> r.options.None?
    ensures r.content == d.content && r.qtype == d.qtype && r.category == d.category
    ensures r.difficulty == d.difficulty && r.points == d.points && r.correctAnswer == Some(d.correctAnswer)
  {
    QuestionService.QuestionData(d.content, d.qtype, d.category, d.difficulty, d.points,
                                 if d.qtype == MultipleChoice then Some(NonBlank(d.options)) else None,
                                 Some(d.correctAnswer))
  }

  /** A valid multiple-choice draft is saved with at least two options, none of them
      blank, and a correct answer that is one of them. */
  lemma SavedMultipleChoiceIsWellFormed(d: Draft)
    requires IsValid(d) && d.qtype == MultipleChoice
    ensures var r := SaveData(d);
            && r.options.Some? && |r.options.value| >= 2
            && (forall i :: 0 <= i < |r.options.value| ==> !Text.IsBlank(r.options.value[i]))
            && r.correctAnswer.Some? && r.correctAnswer.value in r.options.value
  {
    ValidIff(d);
    var k :| 0 <= k < |d.options| && d.options[k] == d.correctAnswer;
    assert d.options[k] in NonBlank(d.options);
  }

  /** `handleEdit`: the form filled from a stored question; missing options become
      four blanks and a missing correct answer the empty string. */
  function EditDraft(q: Question): (d: Draft)
    ensures q.options.None? ==> d.options == BlankOptions
    ensures q.options.Some? ==> d.options == q.options.value
    ensures d.correctAnswer == (if q.correctAnswer.Some? then q.correctAnswer.value else "")
    ensures d.content == q.content && d.qtype == q.qtype && d.category == q.category
    ensures d.difficulty == q.difficulty && d.points == q.points
  {
    Draft(q.content, q.qtype, q.category, q.difficulty, q.points,
          q.options.GetOr(BlankOptions), q.correctAnswer.GetOr(""))
  }

  /** Reopening a question created from a valid draft shows a valid form with the
      saved options. */
  lemma EditOfSavedIsValid(d: Draft, now: nat)
    requires IsValid(d)
    ensures var q := QuestionService.NewRecord(SaveData(d), now);
            IsValid(EditDraft(q))
            && (d.qtype == MultipleChoice ==> EditDraft(q).options == NonBlank(d.options))
  {
    ValidIff(d);
    var q := QuestionService.NewRecord(SaveData(d), now);
    var e := EditDraft(q);
    if d.qtype == MultipleChoice {
      SavedMultipleChoiceIsWellFormed(d);
      var o := NonBlank(d.options);
      Seqs.FilterKeepsAll(o, x => !Text.IsBlank(x));
      assert NonBlank(o) == o;
    }
    ValidIff(e);
  }

  /** `handleOptionChange`: the option at `index` takes the new value. */
  function OptionChange(d: Draft, index: nat, value: string): (r: Draft)
    requires index < |d.options|
    ensures |r.options| == |d.options| && r.options[index] == value
    ensures forall i :: 0 <= i < |d.options| && i != index ==> r.options[i] == d.options[i]
    ensures r == d.(options := r.options)
  {
    d.(options := d.options[index := value])
  }

  /** The local list after an edit: every question with the id gets the saved data
      spread over it; the others are untouched. */
  function EditLocal(questions: seq<Question>, id: string, data: QuestionService.QuestionData): (r: seq<Question>)
    ensures |r| == |questions|
    ensures forall i :: 0 <= i < |questions| && questions[i].id != id ==> r[i] == questions[i]
    ensures forall i :: 0 <= i < |questions| && questions[i].id == id ==>
              r[i] == MergeQuestion(questions[i], QuestionService.DataAsPatch(data))
  {
    Store.MapWhere(questions, QuestionService.IdOf, id, q => MergeQuestion(q, QuestionService.DataAsPatch(data)))
  }

  /** The local list after a delete: the questions with other ids, in order. */
  function DeleteLocal(questions: seq<Question>, id: string): (r: seq<Question>)
    ensures |r| <= |questions|
    ensures forall i :: 0 <= i < |r| ==> r[i].id != id && r[i] in questions
    ensures forall i :: 0 <= i < |questions| && questions[i].id != id ==> questions[i] in r
  {
    Store.RemoveWhere(questions, QuestionService.IdOf, id)
  }

  /** The local delete keeps the order of the remaining questions: deleting from two
      stretches of the list and joining them is deleting from the joined list. */
  lemma DeleteLocalKeepsOrder(a: seq<Question>, b: seq<Question>, id: string)
    ensures DeleteLocal(a + b, id) == DeleteLocal(a, id) + DeleteLocal(b, id)
  {
    Store.RemoveWhereConcat(a, b, QuestionService.IdOf, id);
  }

  /** The form's initial and reset state: an empty multiple-choice draft. */
  const EmptyDraft := Draft("", MultipleChoice, "", "Easy", 1, BlankOptions, "")

  /** The form: the draft, the errors of the last validation, the question being
      edited (none when creating) and whether the form is open. */
  datatype Form = Form(draft: Draft, errors: map<Field, string>, editing: Option<Question>, open: bool)

  /** `resetForm` */
  const ClosedForm := Form(EmptyDraft, map[], None, false)

  /** The page's list, the service's array, and the form. */
  datatype Page = Page(questions: seq<Question>, store: seq<Question>, form: Form)

  /** `handleEdit`: opens the form on the question; the old errors stay. */
  function Edit(p: Page, q: Question): (r: Page)
    ensures r.form.draft == EditDraft(q) && r.form.editing == Some(q) && r.form.open
    ensures r == p.(form := r.form) && r.form.errors == p.form.errors
  {
    p.(form := p.form.(draft := EditDraft(q), editing := Some(q), open := true))
  }

  /** `handleSubmit`: an invalid form only records its errors. A valid one is saved
      through the service (an update when editing, a create otherwise), the same
      change is applied to the local list and the form is reset; when the service
      throws, only the cleared errors remain. */
  function SubmitForm(p: Page, now: nat): (r: Page)
    ensures r.form.errors == (if IsValid(p.form.draft) then map[] else Validate(p.form.draft))
    ensures !IsValid(p.form.draft) ==> r == p.(form := p.form.(errors := Validate(p.form.draft)))
    ensures IsValid(p.form.draft) && p.form.editing.None? ==>
              var created := QuestionService.NewRecord(SaveData(p.form.draft), now);
              r == Page(p.questions + [created], p.store + [created], ClosedForm)
    ensures IsValid(p.form.draft) && p.form.editing.Some? ==>
              var id := p.form.editing.value.id;
              var reply := QuestionService.Update(p.store, id, QuestionService.DataAsPatch(SaveData(p.form.draft)));
              if reply.result.Err? then r == p.(form := p.form.(errors := map[]))
              else r == Page(EditLocal(p.questions, id, SaveData(p.form.draft)), reply.data, ClosedForm)
  {
    var d := p.form.draft;
    if !IsValid(d) then p.(form := p.form.(errors := Validate(d)))
    else
      var checked := p.(form := p.form.(errors := map[]));
      var data := SaveData(d);
      match p.form.editing
      case Some(q) =>
        var reply := QuestionService.Update(p.store, q.id, QuestionService.DataAsPatch(data));
        if reply.result.Err? then checked else Page(EditLocal(p.questions, q.id, data), reply.data, ClosedForm)
      case None =>
        var reply := QuestionService.Create(p.store, data, now);
        Page(p.questions + [reply.result.value], reply.data, ClosedForm)
  }

  /** `handleDelete` once confirmed: deletes through the service, then locally; a
      service error changes nothing. */
  function DeleteQuestion(p: Page, id: string): (r: Page)
    ensures (forall j :: 0 <= j < |p.store| ==> p.store[j].id != id) ==> r == p
    ensures (exists j :: 0 <= j < |p.store| && p.store[j].id == id) ==>
              && r.questions == DeleteLocal(p.questions, id)
              && |r.store| == |p.store| - 1
              && r.form == p.form
    ensures forall i :: 0 <= i < |r.store| ==> r.store[i] in p.store
    ensures forall i :: Store.IsFirst(p.store, QuestionService.IdOf, id, i) ==>
              r.store == p.store[..i] + p.store[i + 1..]
  {
    var reply := QuestionService.Delete(p.store, id);
    if reply.result.Err? then p else Page(DeleteLocal(p.questions, id), reply.data, p.form)
  }

  /** When the page's list mirrors the service and holds the id at most once,
      saving and deleting keep the two equal. */
  lemma PageStaysInSync(p: Page, id: string, now: nat)
    requires p.questions == p.store
    requires p.form.editing.Some? ==> Store.AtMostOne(p.store, QuestionService.IdOf, p.form.editing.value.id)
    requires Store.AtMostOne(p.store, QuestionService.IdOf, id)
    ensures var r := SubmitForm(p, now); r.questions == r.store
    ensures var r := DeleteQuestion(p, id); r.questions == r.store
  {
    if IsValid(p.form.draft) && p.form.editing.Some? {
      var data := SaveData(p.form.draft);
      Store.MapMirrorsUpdate(p.store, QuestionService.IdOf, p.form.editing.value.id,
                             q => MergeQuestion(q, QuestionService.DataAsPatch(data)), QuestionService.NotFound);
    }
    Store.FilterMirrorsDelete(p.store, QuestionService.IdOf, id, QuestionService.NotFound);
  }

  /** The radio button of an option: makes that option the correct answer. */
  function ChooseAnswer(d: Draft, index: nat): (r: Draft)
    requires index < |d.options|
    ensures r.correctAnswer == d.options[index] && r == d.(correctAnswer := r.correctAnswer)
  {
    d.(correctAnswer := d.options[index])
  }

  /** Choosing a non-blank option as the answer satisfies the answer rule, and
      leaves every other rule as it was. */
  lemma ChooseAnswerSatisfiesRule(d: Draft, index: nat)
    requires index < |d.options| && !Text.IsBlank(d.options[index])
    ensures CorrectAnswerField !in Validate(ChooseAnswer(d, index))
    ensures forall f :: f != CorrectAnswerField ==> (f in Validate(d) <==> f in Validate(ChooseAnswer(d, index)))
  {
  }

  /** The points field: `parseInt(value) || 1`, with `None` for a value that does
      not parse. The field never holds 0. */
  function PointsInput(parsed: Option<int>): (r: int)
    ensures r != 0
    ensures parsed.Some? && parsed.value != 0 ==> r == parsed.value
    ensures parsed.None? || parsed.value == 0 ==> r == 1
    ensures r >= 1 <==> parsed.None? || parsed.value >= 0
  {
    match parsed
    case Some(n) => if n == 0 then 1 else n
    case None => 1
  }

  /** `str.split('-')` */
  function Split(s: string): (r: seq<string>)
    ensures |r| >= 1
  {
    if |s| == 0 then [""]
    else
      var rest := Split(s[1..]);
      if s[0] == '-' then [""] + rest else [[s[0]] + rest[0]] + rest[1..]
  }

  /** `word.charAt(0).toUpperCase() + word.slice(1)` */
  function Capitalize(w: string): string {
    if |w| == 0 then "" else [Text.UpperChar(w[0])] + w[1..]
  }

  /** `words.map(capitalize)` */
  function CapitalizeAll(words: seq<string>): (r: seq<string>)
    ensures |r| == |words|
    ensures forall i :: 0 <= i < |words| ==> r[i] == Capitalize(words[i])
  {
    if |words| == 0 then [] else [Capitalize(words[0])] + CapitalizeAll(words[1..])
  }

  /** `words.join(' ')` */
  function Join(words: seq<string>): string {
    if |words| == 0 then ""
    else if |words| == 1 then words[0]
    else words[0] + " " + Join(words[1..])
  }

  /** The type filter's label: `type.split('-').map(capitalize).join(' ')`. It has the
      length of the type, and each character is the one `LabelChar` describes:
      `multiple-choice` becomes `Multiple Choice`. */
  function TypeLabel(t: string): (r: string)
    ensures |r| == |t|
    ensures forall i :: 0 <= i < |t| ==> r[i] == LabelChar(t, i)
  {
    var w := Split(t);
    SplitJoinIsLabelFrom(t, true);
    assert CapitalizeAll(w) == [Capitalize(w[0])] + CapitalizeAll(w[1..]);
    assert forall i :: 0 <= i < |t| ==> LabelFrom(t, true)[i] == LabelChar(t, i) by {
      forall i | 0 <= i < |t| ensures LabelFrom(t, true)[i] == LabelChar(t, i) {
        LabelFromChars(t, true, i);
      }
    }
    Join(CapitalizeAll(w))
  }

  /** The label character by character: a hyphen becomes a space, the first character
      and every character after a hyphen are upper-cased, the rest are kept. */
  function LabelChar(t: string, i: nat): char
    requires i < |t|
  {
    if t[i] == '-' then ' '
    else if i == 0 || t[i - 1] == '-' then Text.UpperChar(t[i])
    else t[i]
  }

  /** The same label built one character at a time; `atStart` says whether the first
      character begins a word. */
  function LabelFrom(s: string, atStart: bool): (r: string)
    ensures |r| == |s|
  {
    if |s| == 0 then ""
    else if s[0] == '-' then " " + LabelFrom(s[1..], true)
    else [if atStart then Text.UpperChar(s[0]) else s[0]] + LabelFrom(s[1..], false)
  }

  lemma JoinConsHead(a: char, w: string, rest: seq<string>)
    ensures Join([[a] + w] + rest) == [a] + Join([w] + rest)
  {
    if |rest| > 0 {
      assert ([[a] + w] + rest)[1..] == rest;
      assert ([w] + rest)[1..] == rest;
    }
  }

  /** Splitting and joining agree with the character-at-a-time label, with the first
      word capitalised only when `atStart`. */
  lemma {:induction false} SplitJoinIsLabelFrom(s: string, atStart: bool)
    ensures var w := Split(s);
            LabelFrom(s, atStart)
            == Join([if atStart then Capitalize(w[0]) else w[0]] + CapitalizeAll(w[1..]))
  {
    if |s| > 0 {
      var tail := s[1..];
      var w' := Split(tail);
      if s[0] == '-' {
        SplitJoinIsLabelFrom(tail, true);
        var w := Split(s);
        assert w == [""] + w';
        assert w[1..] == w';
        assert CapitalizeAll(w') == [Capitalize(w'[0])] + CapitalizeAll(w'[1..]);
        assert ([""] + CapitalizeAll(w'))[1..] == CapitalizeAll(w');
      } else {
        SplitJoinIsLabelFrom(tail, false);
        var w := Split(s);
        assert w == [[s[0]] + w'[0]] + w'[1..];
        assert w[0] == [s[0]] + w'[0] && w[1..] == w'[1..];
        var c := if atStart then Text.UpperChar(s[0]) else s[0];
        assert (if atStart then Capitalize(w[0]) else w[0]) == [c] + w'[0];
        JoinConsHead(c, w'[0], CapitalizeAll(w'[1..]));
      }
    }
  }

  lemma {:induction false} LabelFromChars(s: string, atStart: bool, i: nat)
    requires i < |s|
    ensures LabelFrom(s, atStart)[i] ==
              if s[i] == '-' then ' '
              else if (i == 0 && atStart) || (i > 0 && s[i - 1] == '-') then Text.UpperChar(s[i])
              else s[i]
  {
    if i > 0 {
      LabelFromChars(s[1..], s[0] == '-', i - 1);
    }
  }
}
