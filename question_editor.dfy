/** The question editor: the edits a staged question goes through before it
    is saved (type switch, title, description, required flag, line and
    selection limits, choice-map edits), and the move buttons beside a saved
    question. */
module QuestionEditor {
  import opened Wrappers
  import opened JsObject
  import Utils
  import opened FormModel
  import opened ChoiceEditor

  /** The title a question gets when it has none and its type is switched. */
  const DefaultTitle := "问题标题"

  /** The default option map has three distinct labels, all offered. */
  lemma DefaultChoicesOffered()
    ensures DistinctKeys(DefaultChoices)
    ensures Labels(DefaultChoices) == ["选项1", "选项2", "选项3"]
  {
    PresentOfDefined(DefaultChoices);
  }

  /** Switching the type keeps every other field of the question; a choice
      question gets three fresh options, a department-choice question one
      option per department; the title is filled in when missing. */
  function SwitchType(q: Question, kind: QuestionType, departs: seq<Department>): (r: Question)
    ensures r.id == q.id && r.kind == kind
    ensures r.desc == q.desc && r.optional == q.optional && r.maxLine == q.maxLine
    ensures r.title.Some? && (q.title.Some? ==> r.title == q.title)
    ensures q.title.None? ==> r.title == Some(DefaultTitle)
    ensures kind == Text ==> r.choices == q.choices && r.maxSelection == q.maxSelection
    ensures kind == Choice ==> r.choices == DefaultChoices && r.maxSelection == Some(3)
    ensures kind == Choice ==> Labels(r.choices) == ["选项1", "选项2", "选项3"]
    ensures kind == ChoiceDepart ==> r.maxSelection == Some(Utils.Min(3, |departs|))
    ensures kind == ChoiceDepart ==> forall k :: Get(r.choices, k) == if k in DepartKeys(departs) then Null else Absent
    ensures kind != Text ==> r.maxSelection.Some? && 0 <= r.maxSelection.value <= 3
    ensures DistinctKeys(q.choices) ==> DistinctKeys(r.choices)
  {
    DefaultChoicesOffered();
    var title := Some(if q.title.Some? then q.title.value else DefaultTitle);
    match kind
    case Text => q.(kind := Text, title := title)
    case Choice => q.(kind := Choice, title := title, choices := DefaultChoices, maxSelection := Some(3))
    case ChoiceDepart =>
      q.(kind := ChoiceDepart, title := title, choices := DepartChoices(departs),
         maxSelection := Some(Utils.Min(3, |departs|)))
  }

  /** Right after a switch to a choice type the selection limit does not
      exceed the number of offered options. */
  lemma SwitchedSelectionFits(q: Question, kind: QuestionType, departs: seq<Department>)
    requires kind != Text && DistinctDeparts(departs)
    ensures SwitchType(q, kind, departs).maxSelection.value <= |Labels(SwitchType(q, kind, departs).choices)|
  {
    if kind == ChoiceDepart {
      var c := DepartChoices(departs);
      PresentOfDefined(c);
      DepartChoicesInOrder(departs);
      assert |Labels(c)| == |departs|;
    }
  }

  /** One edit of the staged question. */
  datatype QuestionEdit =
    | SwitchTo(kind: QuestionType, departs: seq<Department>)
    | SetTitle(title: string)
    | SetDesc(desc: string)
    | SetRequired(required: bool)
    | SetMaxLine(maxLine: Option<int>)
    | SetMaxSelection(maxSelection: Option<int>)
    | SetDepartReveal(depart: Id, target: Reveal)
    | AddChoice
    | RenameChoice(index: nat, newLabel: string)
    | DeleteChoice(index: nat)
    | SetChoiceReveal(choiceLabel: string, target: Reveal)

  /** An option edit names an offered option. */
  predicate Applicable(q: Question, e: QuestionEdit) {
    match e
    case RenameChoice(index, _) => index < |Present(q.choices)|
    case DeleteChoice(index) => index < |Present(q.choices)|
    case _ => true
  }

  /** `v ?? 1`: a cleared number input stands for 1. */
  function OrOne(v: Option<int>): int {
    if v.Some? then v.value else 1
  }

  /** The staged question after one edit. A cleared number input stores 1; a
      refused rename or delete leaves the question as it was. */
  function ApplyEdit(q: Question, e: QuestionEdit): (r: Question)
    requires Applicable(q, e)
    ensures r.id == q.id
    ensures e.RenameChoice? && e.newLabel in Labels(q.choices) ==> r == q
    ensures e.DeleteChoice? && |Present(q.choices)| <= 1 ==> r == q
    ensures e.SetChoiceReveal? ==> Get(r.choices, e.choiceLabel) == e.target
    ensures e.SetChoiceReveal? ==> forall k :: k != e.choiceLabel ==> Get(r.choices, k) == Get(q.choices, k)
    ensures e.SetDepartReveal? ==> Get(r.choices, Utils.IntToString(e.depart)) == e.target
    ensures e.SetDepartReveal? ==> forall k :: k != Utils.IntToString(e.depart) ==> Get(r.choices, k) == Get(q.choices, k)
    ensures e.SetMaxLine? ==> r.maxLine == if e.maxLine.Some? then e.maxLine else Some(1)
    ensures e.SetMaxSelection? ==> r.maxSelection == if e.maxSelection.Some? then e.maxSelection else Some(1)
    ensures e.SetTitle? ==> r == q.(title := Some(e.title))
    ensures e.SetDesc? ==> r == q.(desc := Some(e.desc))
    ensures e.SetRequired? ==> r == q.(optional := !e.required)
    ensures e.SetMaxLine? ==> r.(maxLine := q.maxLine) == q
    ensures e.SetMaxSelection? ==> r.(maxSelection := q.maxSelection) == q
    ensures (e.SetChoiceReveal? || e.SetDepartReveal? || e.AddChoice? || e.RenameChoice? || e.DeleteChoice?) ==>
      r.(choices := q.choices) == q
    ensures e.AddChoice? ==> r.choices == AddOption(q.choices)
    ensures e.RenameChoice? && Renamed(q.choices, e.index, e.newLabel).Success? ==>
      r.choices == Renamed(q.choices, e.index, e.newLabel).value
    ensures e.DeleteChoice? && Deleted(q.choices, e.index).Success? ==>
      r.choices == Deleted(q.choices, e.index).value
  {
    match e
    case SwitchTo(kind, departs) => SwitchType(q, kind, departs)
    case SetTitle(title) => q.(title := Some(title))
    case SetDesc(desc) => q.(desc := Some(desc))
    case SetRequired(required) => q.(optional := !required)
    case SetMaxLine(v) => q.(maxLine := Some(OrOne(v)))
    case SetMaxSelection(v) => q.(maxSelection := Some(OrOne(v)))
    case SetDepartReveal(depart, target) => q.(choices := SetReveal(q.choices, Utils.IntToString(depart), target))
    case AddChoice => q.(choices := AddOption(q.choices))
    case RenameChoice(index, newLabel) =>
      var renamed := Renamed(q.choices, index, newLabel);
      if renamed.Failure? then q else q.(choices := renamed.value)
    case DeleteChoice(index) =>
      var deleted := Deleted(q.choices, index);
      if deleted.Failure? then q else q.(choices := deleted.value)
    case SetChoiceReveal(choiceLabel, target) => q.(choices := SetReveal(q.choices, choiceLabel, target))
  }

  /** Every edit keeps the option labels of a question distinct. */
  lemma EditKeepsDistinctLabels(q: Question, e: QuestionEdit)
    requires Applicable(q, e) && DistinctKeys(q.choices)
    ensures DistinctKeys(ApplyEdit(q, e).choices)
  {
    match e
    case RenameChoice(index, newLabel) =>
      if Renamed(q.choices, index, newLabel).Success? {
        RenamedWellFormed(q.choices, index, newLabel);
      }
    case DeleteChoice(index) =>
      if Deleted(q.choices, index).Success? {
        DeletedDropsOne(q.choices, index);
      }
    case _ =>
  }

  /** Edits applied one after another, each to the result of the previous ones. */
  predicate AllApplicable(q: Question, edits: seq<QuestionEdit>)
    decreases |edits|
  {
    edits == [] || (Applicable(q, edits[0]) && AllApplicable(ApplyEdit(q, edits[0]), edits[1..]))
  }

  /** The staged question after a sequence of edits, as "保存" hands it on. */
  function ApplyEdits(q: Question, edits: seq<QuestionEdit>): (r: Question)
    requires AllApplicable(q, edits)
    ensures r.id == q.id
    decreases |edits|
  {
    if edits == [] then q else ApplyEdits(ApplyEdit(q, edits[0]), edits[1..])
  }

  /** Any sequence of edits keeps the option labels distinct. */
  lemma {:induction false} EditsKeepDistinctLabels(q: Question, edits: seq<QuestionEdit>)
    requires AllApplicable(q, edits) && DistinctKeys(q.choices)
    ensures DistinctKeys(ApplyEdits(q, edits).choices)
    decreases |edits|
  {
    if edits != [] {
      EditKeepsDistinctLabels(q, edits[0]);
      EditsKeepDistinctLabels(ApplyEdit(q, edits[0]), edits[1..]);
    }
  }

  // ---------------------------------------------------------------------
  // Move buttons
  // ---------------------------------------------------------------------

  /** The up button is shown unless the question is the first one or the view is read-only. */
  predicate ShowsUp(quesIndex: int, count: nat, readOnly: bool)
    ensures ShowsUp(quesIndex, count, readOnly) && 0 <= quesIndex < count ==>
      Utils.MoveTarget(count, quesIndex, -1) == quesIndex - 1
  {
    quesIndex != 0 && !readOnly
  }

  /** The down button is shown unless the question is the last one or the view is read-only. */
  predicate ShowsDown(quesIndex: int, count: nat, readOnly: bool)
    ensures ShowsDown(quesIndex, count, readOnly) && 0 <= quesIndex < count ==>
      Utils.MoveTarget(count, quesIndex, 1) == quesIndex + 1
  {
    quesIndex != count - 1 && !readOnly
  }

  /** A shown move button moves the question by exactly one place: the clamp
      in the move never takes effect, and the question swaps places with its
      neighbour. */
  lemma ShownMovesSwapNeighbours<T>(items: seq<T>, quesIndex: nat, readOnly: bool)
    requires quesIndex < |items|
    ensures ShowsUp(quesIndex, |items|, readOnly) ==>
      && Utils.MoveTarget(|items|, quesIndex, -1) == quesIndex - 1
      && Utils.MoveSpec(items, quesIndex, -1) == items[quesIndex - 1 := items[quesIndex]][quesIndex := items[quesIndex - 1]]
    ensures ShowsDown(quesIndex, |items|, readOnly) ==>
      && Utils.MoveTarget(|items|, quesIndex, 1) == quesIndex + 1
      && Utils.MoveSpec(items, quesIndex, 1) == items[quesIndex + 1 := items[quesIndex]][quesIndex := items[quesIndex + 1]]
    ensures !ShowsUp(quesIndex, |items|, readOnly) && !ShowsDown(quesIndex, |items|, readOnly) ==>
      readOnly || |items| == 1
  {
    if ShowsUp(quesIndex, |items|, readOnly) {
      var r := Utils.MoveSpec(items, quesIndex, -1);
      Utils.MovedShape(items, quesIndex, quesIndex - 1);
      assert r == items[quesIndex - 1 := items[quesIndex]][quesIndex := items[quesIndex - 1]];
    }
    if ShowsDown(quesIndex, |items|, readOnly) {
      var r := Utils.MoveSpec(items, quesIndex, 1);
      Utils.MovedShape(items, quesIndex, quesIndex + 1);
      assert r == items[quesIndex + 1 := items[quesIndex]][quesIndex := items[quesIndex + 1]];
    }
  }
}
