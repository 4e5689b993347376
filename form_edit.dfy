/** The form editor: the title and description edits, adding, relabelling,
    re-pointing and deleting question groups, and adding, saving, deleting and
    moving the questions of a group. Each edit maps the old form to the new one
    the editor sends to the server; together they keep a form well formed. */
module FormEdit {
  import opened Wrappers
  import opened JsObject
  import Utils
  import opened FormModel
  import opened ChoiceEditor
  import opened QuestionEditor

  /** The label prefix of a new group and the title of a new question. */
  const GroupPrefix := "问题组"
  const NewQuestionTitle := "新问题"

  // ---------------------------------------------------------------------
  // Title and description
  // ---------------------------------------------------------------------

  /** The title edit: the form takes the new name and nothing else changes. */
  function WithName(f: Form, name: string): (r: Form)
    ensures r.name == name
    ensures r.(name := f.name) == f
  {
    f.(name := name)
  }

  /** The description edit: the form takes the new description and nothing else changes. */
  function WithDesc(f: Form, desc: string): (r: Form)
    ensures r.desc == desc
    ensures r.(desc := f.desc) == f
  {
    f.(desc := desc)
  }

  // ---------------------------------------------------------------------
  // The largest ids
  // ---------------------------------------------------------------------

  /** The `forEach` over the groups that keeps the largest group id seen, from 0. */
  method MaxGroupId(gs: seq<QuestionGroup>) returns (maxGroupId: int)
    ensures maxGroupId == Largest(GroupIds(gs))
  {
    ghost var ids := GroupIds(gs);
    maxGroupId := 0;
    var i := 0;
    while i < |gs|
      invariant 0 <= i <= |gs|
      invariant maxGroupId == Largest(ids[..i])
    {
      assert Largest(ids[..i + 1]) == Utils.Max(maxGroupId, gs[i].id) by {
        LargestPrefixStep(ids, i);
      }
      if gs[i].id > maxGroupId {
        maxGroupId := gs[i].id;
      }
      i := i + 1;
    }
    assert Largest(ids[..i]) == Largest(ids) by {
      assert ids[..i] == ids;
    }
  }

  /** The nested `forEach` over every question of every group that keeps the
      largest question id seen, from 0. */
  method MaxQuestionId(gs: seq<QuestionGroup>) returns (maxId: int)
    ensures maxId == Largest(AllQuestionIds(gs))
  {
    maxId := 0;
    var i := 0;
    while i < |gs|
      invariant 0 <= i <= |gs|
      invariant maxId == Largest(AllQuestionIds(gs[..i]))
    {
      maxId := ScanQuestions(AllQuestionIds(gs[..i]), gs[i].children, maxId);
      AllQuestionIdsStep(gs, i);
      i := i + 1;
    }
    assert Largest(AllQuestionIds(gs[..i])) == Largest(AllQuestionIds(gs)) by {
      assert gs[..i] == gs;
    }
  }

  /** The inner `forEach` over the questions of one group, continuing from
      the largest id of the ids `seen` so far. */
  method ScanQuestions(ghost seen: seq<Id>, qs: seq<Question>, start: int) returns (maxId: int)
    requires start == Largest(seen)
    ensures maxId == Largest(seen + QuestionIds(qs))
  {
    ghost var ids := QuestionIds(qs);
    maxId := start;
    var j := 0;
    assert Largest(seen + ids[..0]) == start by {
      assert seen + ids[..0] == seen;
    }
    while j < |qs|
      invariant 0 <= j <= |qs|
      invariant maxId == Largest(seen + ids[..j])
    {
      assert Largest(seen + ids[..j + 1]) == Utils.Max(maxId, qs[j].id) by {
        LargestStep(seen, ids, j);
      }
      if qs[j].id > maxId {
        maxId := qs[j].id;
      }
      j := j + 1;
    }
    assert Largest(seen + ids[..j]) == Largest(seen + ids) by {
      assert ids[..j] == ids;
    }
  }

  // ---------------------------------------------------------------------
  // New groups and questions
  // ---------------------------------------------------------------------

  /** The group "新增题目组" appends: an id above every group id (1 when
      there are no groups), a label no group has, no questions, no next group. */
  function NewGroup(gs: seq<QuestionGroup>): (g: QuestionGroup)
    ensures forall i :: 0 <= i < |gs| ==> gs[i].id < g.id
    ensures g.id !in GroupIds(gs)
    ensures gs == [] ==> g.id == 1
    ensures g.groupLabel !in GroupLabels(gs)
    ensures g.children == [] && g.next == None
  {
    LargestIsMaximum(GroupIds(gs));
    QuestionGroup(Largest(GroupIds(gs)) + 1, Utils.UniqueLabel(GroupLabels(gs), GroupPrefix), [], None)
  }

  /** "新增题目组": the largest group id, a unique label, then the new group appended. */
  method AddGroup(f: Form) returns (r: Form)
    ensures r == f.(children := f.children + [NewGroup(f.children)])
  {
    var maxGroupId := MaxGroupId(f.children);
    var uniqueLabel := Utils.NewUniqueLabel(GroupLabels(f.children), GroupPrefix);
    var newGroup := QuestionGroup(maxGroupId + 1, uniqueLabel, [], None);
    assert newGroup == NewGroup(f.children);
    r := f.(children := f.children + [newGroup]);
  }

  /** The question "新增问题" appends: a text question titled "新问题" whose id
      is above every question id of every group. */
  function NewQuestion(gs: seq<QuestionGroup>): (q: Question)
    ensures forall i :: 0 <= i < |AllQuestionIds(gs)| ==> AllQuestionIds(gs)[i] < q.id
    ensures q.id !in AllQuestionIds(gs)
    ensures q.kind == Text && q.title == Some(NewQuestionTitle) && q.choices == []
  {
    LargestIsMaximum(AllQuestionIds(gs));
    Question(Largest(AllQuestionIds(gs)) + 1, Text, Some(NewQuestionTitle), None, false, None, [], None)
  }

  // ---------------------------------------------------------------------
  // Group edits
  // ---------------------------------------------------------------------

  /** The group label edit. */
  function WithLabel(g: QuestionGroup, newLabel: string): (r: QuestionGroup)
    ensures r.groupLabel == newLabel && r.(groupLabel := g.groupLabel) == g
  {
    g.(groupLabel := newLabel)
  }

  /** The next-group edit: the picker's "none" (`null`, or nothing picked)
      clears `next`; a group stores its id. */
  function WithNext(g: QuestionGroup, choice: Reveal): (r: QuestionGroup)
    ensures r.next.Some? <==> choice.Group?
    ensures choice.Group? ==> r.next.value == choice.id
    ensures r.(next := g.next) == g
  {
    g.(next := if choice.Group? then Some(choice.id) else None)
  }

  /** Adding a question to a group appends it and keeps the group's id, label and next group. */
  function WithQuestion(g: QuestionGroup, q: Question): (r: QuestionGroup)
    ensures r.id == g.id && r.groupLabel == g.groupLabel && r.next == g.next
    ensures |r.children| == |g.children| + 1
    ensures r.children[..|g.children|] == g.children && r.children[|g.children|] == q
  {
    g.(children := g.children + [q])
  }

  /** Saving the question at `qIndex`: only that question changes. */
  function SaveQuestion(g: QuestionGroup, qIndex: nat, q: Question): (r: QuestionGroup)
    requires qIndex < |g.children|
    ensures r.id == g.id && r.groupLabel == g.groupLabel && r.next == g.next
    ensures |r.children| == |g.children| && r.children[qIndex] == q
    ensures forall j :: 0 <= j < |g.children| && j != qIndex ==> r.children[j] == g.children[j]
  {
    g.(children := g.children[qIndex := q])
  }

  /** Deleting the question at `qIndex`: the others stay, in order. */
  function DeleteQuestion(g: QuestionGroup, qIndex: nat): (r: QuestionGroup)
    requires qIndex < |g.children|
    ensures r.id == g.id && r.groupLabel == g.groupLabel && r.next == g.next
    ensures |r.children| == |g.children| - 1
    ensures forall j :: 0 <= j < qIndex ==> r.children[j] == g.children[j]
    ensures forall j :: qIndex < j < |g.children| ==> r.children[j - 1] == g.children[j]
  {
    g.(children := Utils.RemoveAt(g.children, qIndex))
  }

  /** Moving the question at `qIndex` by `delta`: the questions are permuted. */
  function MoveQuestion(g: QuestionGroup, qIndex: nat, delta: int): (r: QuestionGroup)
    requires qIndex < |g.children|
    ensures r.id == g.id && r.groupLabel == g.groupLabel && r.next == g.next
    ensures r.children == Utils.MoveSpec(g.children, qIndex, delta)
    ensures multiset(r.children) == multiset(g.children)
    ensures delta == 0 ==> r == g
  {
    if delta == 0 then g.(children := Utils.MoveSpec(g.children, qIndex, delta))
    else
      Utils.MovedPermutes(g.children, qIndex, Utils.MoveTarget(|g.children|, qIndex, delta));
      g.(children := Utils.MoveSpec(g.children, qIndex, delta))
  }

  // ---------------------------------------------------------------------
  // Form edits
  // ---------------------------------------------------------------------

  /** Replacing the group at `index`: only that group changes. */
  function ReplaceGroup(f: Form, index: nat, g: QuestionGroup): (r: Form)
    requires index < |f.children|
    ensures |r.children| == |f.children| && r.children[index] == g
    ensures forall j :: 0 <= j < |f.children| && j != index ==> r.children[j] == f.children[j]
    ensures r.(children := f.children) == f
  {
    f.(children := f.children[index := g])
  }

  /** Why a form edit is refused: the entry group's delete button is disabled. */
  datatype EditError = EntryGroupUndeletable

  /** Deleting the group at `index`: refused for the entry group; otherwise
      the other groups stay, in order. */
  function DeleteGroup(f: Form, index: nat): (r: Result<Form, EditError>)
    requires index < |f.children|
    ensures r.Failure? <==> f.children[index].id == EntryGroupId
    ensures r.Success? ==> |r.value.children| == |f.children| - 1
    ensures r.Success? ==> forall j :: 0 <= j < index ==> r.value.children[j] == f.children[j]
    ensures r.Success? ==> forall j :: index < j < |f.children| ==> r.value.children[j - 1] == f.children[j]
    ensures r.Success? ==> r.value.(children := f.children) == f
  {
    if f.children[index].id == EntryGroupId then Failure(EntryGroupUndeletable)
    else Success(f.(children := Utils.RemoveAt(f.children, index)))
  }

  /** One edit of the form. */
  datatype FormAction =
    | EditName(name: string)
    | EditDesc(desc: string)
    | AppendGroup
    | RemoveGroup(index: nat)
    | RelabelGroup(index: nat, newLabel: string)
    | PointNext(index: nat, choice: Reveal)
    | AppendQuestion(index: nat)
    | SaveQuestionEdits(index: nat, qIndex: nat, edits: seq<QuestionEdit>)
    | RemoveQuestion(index: nat, qIndex: nat)
    | ShiftQuestion(index: nat, qIndex: nat, delta: int)

  /** An edit names a group, and a question of it, that exist; the staged
      question's edits can be applied in turn. */
  predicate ActionApplicable(f: Form, a: FormAction) {
    match a
    case EditName(_) => true
    case EditDesc(_) => true
    case AppendGroup => true
    case RemoveGroup(index) => index < |f.children|
    case RelabelGroup(index, _) => index < |f.children|
    case PointNext(index, _) => index < |f.children|
    case AppendQuestion(index) => index < |f.children|
    case SaveQuestionEdits(index, qIndex, edits) =>
      index < |f.children| && qIndex < |f.children[index].children|
      && AllApplicable(f.children[index].children[qIndex], edits)
    case RemoveQuestion(index, qIndex) => index < |f.children| && qIndex < |f.children[index].children|
    case ShiftQuestion(index, qIndex, _) => index < |f.children| && qIndex < |f.children[index].children|
  }

  /** The form after one edit; a refused group delete leaves it as it was. */
  function ApplyAction(f: Form, a: FormAction): (r: Form)
    requires ActionApplicable(f, a)
    ensures r.id == f.id && r.startAt == f.startAt && r.endAt == f.endAt
    ensures !a.EditName? ==> r.name == f.name
    ensures !a.EditDesc? ==> r.desc == f.desc
    ensures a.RemoveGroup? && f.children[a.index].id == EntryGroupId ==> r == f
  {
    match a
    case EditName(name) => WithName(f, name)
    case EditDesc(desc) => WithDesc(f, desc)
    case AppendGroup => f.(children := f.children + [NewGroup(f.children)])
    case RemoveGroup(index) =>
      var deleted := DeleteGroup(f, index);
      if deleted.Failure? then f else deleted.value
    case RelabelGroup(index, newLabel) => ReplaceGroup(f, index, WithLabel(f.children[index], newLabel))
    case PointNext(index, choice) => ReplaceGroup(f, index, WithNext(f.children[index], choice))
    case AppendQuestion(index) =>
      ReplaceGroup(f, index, WithQuestion(f.children[index], NewQuestion(f.children)))
    case SaveQuestionEdits(index, qIndex, edits) =>
      var g := f.children[index];
      ReplaceGroup(f, index, SaveQuestion(g, qIndex, ApplyEdits(g.children[qIndex], edits)))
    case RemoveQuestion(index, qIndex) => ReplaceGroup(f, index, DeleteQuestion(f.children[index], qIndex))
    case ShiftQuestion(index, qIndex, delta) => ReplaceGroup(f, index, MoveQuestion(f.children[index], qIndex, delta))
  }

  /** "新增问题": the largest question id over all groups, then the new question appended to one group. */
  method AddQuestion(f: Form, index: nat) returns (r: Form)
    requires index < |f.children|
    ensures r == ApplyAction(f, AppendQuestion(index))
  {
    var maxId := MaxQuestionId(f.children);
    var q := Question(maxId + 1, Text, Some(NewQuestionTitle), None, false, None, [], None);
    var g := f.children[index];
    r := f.(children := f.children[index := g.(children := g.children + [q])]);
    var appended := ReplaceGroup(f, index, WithQuestion(g, NewQuestion(f.children)));
    assert r == appended by {
      assert q == NewQuestion(f.children);
    }
    assert ApplyAction(f, AppendQuestion(index)) == appended;
  }

  /** Edits applied one after another. */
  predicate AllActionsApplicable(f: Form, actions: seq<FormAction>)
    decreases |actions|
  {
    actions == [] || (ActionApplicable(f, actions[0]) && AllActionsApplicable(ApplyAction(f, actions[0]), actions[1..]))
  }

  function ApplyActions(f: Form, actions: seq<FormAction>): (r: Form)
    requires AllActionsApplicable(f, actions)
    ensures r.id == f.id
    decreases |actions|
  {
    if actions == [] then f else ApplyActions(ApplyAction(f, actions[0]), actions[1..])
  }

  // ---------------------------------------------------------------------
  // Well-formedness is kept
  // ---------------------------------------------------------------------

  /** Saving a question with the same id keeps the group's question ids. */
  lemma SaveQuestionIds(g: QuestionGroup, qIndex: nat, q: Question)
    requires qIndex < |g.children| && q.id == g.children[qIndex].id
    ensures QuestionIds(SaveQuestion(g, qIndex, q).children) == QuestionIds(g.children)
  {
  }

  /** Deleting a question keeps a subset of the group's question ids. */
  lemma DeleteQuestionIds(g: QuestionGroup, qIndex: nat)
    requires qIndex < |g.children|
    ensures multiset(QuestionIds(DeleteQuestion(g, qIndex).children)) <= multiset(QuestionIds(g.children))
  {
    var qs := g.children;
    var ids := QuestionIds(qs);
    var front, back := ids[..qIndex], ids[qIndex + 1..];
    assert QuestionIds(Utils.RemoveAt(qs, qIndex)) == front + back by {
      QuestionIdsConcat(qs[..qIndex], qs[qIndex + 1..]);
      QuestionIdsSlice(qs, 0, qIndex);
      QuestionIdsSlice(qs, qIndex + 1, |qs|);
    }
    assert ids == front + [ids[qIndex]] + back;
    assert multiset(ids) == multiset(front) + multiset{ids[qIndex]} + multiset(back);
    assert multiset(front + back) == multiset(front) + multiset(back);
  }

  /** Moving a question moves its id the same way. */
  lemma MovedQuestionIds(qs: seq<Question>, from: nat, to: nat)
    requires from < |qs| && to < |qs|
    ensures QuestionIds(Utils.Moved(qs, from, to)) == Utils.Moved(QuestionIds(qs), from, to)
  {
    var ids := QuestionIds(qs);
    var moved := Utils.Moved(qs, from, to);
    var r := QuestionIds(moved);
    Utils.MovedShape(qs, from, to);
    forall k | 0 <= k < |ids| && k != to
      ensures r[k] == Utils.Shifted(ids, from, to, k)
    {
      assert r[k] == moved[k].id;
    }
    Utils.MovedByPositions(ids, r, from, to);
  }

  /** Moving a question keeps the group's question ids, as a multiset. */
  lemma MoveQuestionIds(g: QuestionGroup, qIndex: nat, delta: int)
    requires qIndex < |g.children|
    ensures multiset(QuestionIds(MoveQuestion(g, qIndex, delta).children)) == multiset(QuestionIds(g.children))
  {
    if delta != 0 {
      var to := Utils.MoveTarget(|g.children|, qIndex, delta);
      MovedQuestionIds(g.children, qIndex, to);
      Utils.MovedPermutes(QuestionIds(g.children), qIndex, to);
    }
  }

  /** A group whose questions are all questions of a group with distinct
      option labels has distinct option labels too. */
  lemma ChoicesFromSubset(g: QuestionGroup, g': QuestionGroup)
    requires GroupChoicesDistinct(g)
    requires forall q :: q in g'.children ==> q in g.children
    ensures GroupChoicesDistinct(g')
  {
    forall j | 0 <= j < |g'.children| ensures DistinctKeys(g'.children[j].choices) {
      assert g'.children[j] in g.children;
    }
  }

  /** Saving a question whose option labels are distinct keeps the group's labels distinct. */
  lemma SaveQuestionChoices(g: QuestionGroup, qIndex: nat, q: Question)
    requires qIndex < |g.children| && GroupChoicesDistinct(g) && DistinctKeys(q.choices)
    ensures GroupChoicesDistinct(SaveQuestion(g, qIndex, q))
  {
  }

  /** Cancelling a common part of two multiset sums. */
  lemma CancelLe(a: multiset<Id>, b: multiset<Id>, c: multiset<Id>, d: multiset<Id>)
    requires a + c == b + d && d <= c
    ensures a <= b
  {
    forall x ensures a[x] <= b[x] {
      assert (a + c)[x] == (b + d)[x];
    }
  }

  /** Cancelling a common part of two multiset sums that differ by one element. */
  lemma CancelFresh(a: multiset<Id>, b: multiset<Id>, c: multiset<Id>, x: Id)
    requires a + c == b + (c + multiset{x})
    ensures a == b + multiset{x}
  {
    forall y ensures a[y] == (b + multiset{x})[y] {
      assert (a + c)[y] == (b + (c + multiset{x}))[y];
    }
  }

  /** Replacing a group by one with the same id keeps the group ids; replacing
      it by one with distinct option labels keeps every group's labels distinct. */
  lemma ReplaceKeepsGroups(gs: seq<QuestionGroup>, i: nat, g: QuestionGroup, gs': seq<QuestionGroup>)
    requires WellFormed(gs) && i < |gs| && g.id == gs[i].id && GroupChoicesDistinct(g)
    requires gs' == gs[i := g]
    ensures GroupIds(gs') == GroupIds(gs)
    ensures forall j :: 0 <= j < |gs'| ==> GroupChoicesDistinct(gs'[j])
  {
    forall j | 0 <= j < |gs| ensures GroupChoicesDistinct(gs'[j]) {
      if j != i {
        assert gs'[j] == gs[j];
      }
    }
  }

  /** Replacing a group by one with the same id, distinct option labels and a
      subset of its question ids keeps a form well formed. */
  lemma ReplaceKeepsWellFormed(gs: seq<QuestionGroup>, i: nat, g: QuestionGroup)
    requires WellFormed(gs) && i < |gs| && g.id == gs[i].id && GroupChoicesDistinct(g)
    requires multiset(QuestionIds(g.children)) <= multiset(QuestionIds(gs[i].children))
    ensures WellFormed(gs[i := g])
  {
    var gs' := gs[i := g];
    ReplaceKeepsGroups(gs, i, g, gs');
    assert Distinct(AllQuestionIds(gs')) by {
      ReplacedQuestionIds(gs, i, g);
      CancelLe(multiset(AllQuestionIds(gs')), multiset(AllQuestionIds(gs)),
               multiset(QuestionIds(gs[i].children)), multiset(QuestionIds(g.children)));
      DistinctSub(AllQuestionIds(gs'), AllQuestionIds(gs));
    }
  }

  /** Replacing a group by one with the same id, distinct option labels and
      one more question id, fresh in the form, keeps a form well formed. */
  lemma ReplaceWithFreshKeepsWellFormed(gs: seq<QuestionGroup>, i: nat, g: QuestionGroup, x: Id)
    requires WellFormed(gs) && i < |gs| && g.id == gs[i].id && GroupChoicesDistinct(g)
    requires multiset(QuestionIds(g.children)) == multiset(QuestionIds(gs[i].children)) + multiset{x}
    requires x !in AllQuestionIds(gs)
    ensures WellFormed(gs[i := g])
  {
    var gs' := gs[i := g];
    ReplaceKeepsGroups(gs, i, g, gs');
    assert Distinct(AllQuestionIds(gs')) by {
      ReplacedQuestionIds(gs, i, g);
      CancelFresh(multiset(AllQuestionIds(gs')), multiset(AllQuestionIds(gs)),
                  multiset(QuestionIds(gs[i].children)), x);
      DistinctAddFresh(AllQuestionIds(gs), AllQuestionIds(gs'), x);
    }
  }

  /** Adding a question keeps a form well formed. */
  lemma AppendQuestionKeepsWellFormed(gs: seq<QuestionGroup>, i: nat)
    requires WellFormed(gs) && i < |gs|
    ensures WellFormed(gs[i := WithQuestion(gs[i], NewQuestion(gs))])
  {
    var q := NewQuestion(gs);
    var g := gs[i];
    var g' := WithQuestion(g, q);
    QuestionIdsConcat(g.children, [q]);
    assert QuestionIds([q]) == [q.id];
    forall j | 0 <= j < |g'.children| ensures DistinctKeys(g'.children[j].choices) {
      if j < |g.children| {
        assert g'.children[j] == g.children[j];
      } else {
        assert g'.children[j] == q;
      }
    }
    ReplaceWithFreshKeepsWellFormed(gs, i, g', q.id);
  }

  /** Adding a group keeps a form well formed. */
  lemma AppendGroupKeepsWellFormed(gs: seq<QuestionGroup>)
    requires WellFormed(gs)
    ensures WellFormed(gs + [NewGroup(gs)])
  {
    var g := NewGroup(gs);
    var gs' := gs + [g];
    assert Distinct(GroupIds(gs')) && EntryGroupId in GroupIds(gs') by {
      assert GroupIds(gs') == GroupIds(gs) + [g.id];
      DistinctAddFresh(GroupIds(gs), GroupIds(gs'), g.id);
    }
    assert AllQuestionIds(gs') == AllQuestionIds(gs) by {
      assert gs'[..|gs|] == gs;
      assert AllQuestionIds(gs') == AllQuestionIds(gs) + [];
    }
    assert forall j :: 0 <= j < |gs'| ==> GroupChoicesDistinct(gs'[j]) by {
      forall j | 0 <= j < |gs'| ensures GroupChoicesDistinct(gs'[j]) {
        if j < |gs| {
          assert gs'[j] == gs[j];
        }
      }
    }
  }

  /** Deleting a group deletes its id and keeps the other ids in order. */
  lemma RemovedGroupIds(gs: seq<QuestionGroup>, i: nat)
    requires i < |gs|
    ensures GroupIds(Utils.RemoveAt(gs, i)) == Utils.RemoveAt(GroupIds(gs), i)
  {
    var ids, rest := GroupIds(gs), Utils.RemoveAt(gs, i);
    var r := Utils.RemoveAt(ids, i);
    assert |r| == |rest|;
    forall k | 0 <= k < |r| ensures r[k] == GroupIds(rest)[k] {
      assert rest[k] == gs[if k < i then k else k + 1];
      assert r[k] == ids[if k < i then k else k + 1];
    }
  }

  /** Deleting an id other than `x` from a list keeps `x`, and keeps a distinct list distinct. */
  lemma RemovedIdsKeep(ids: seq<Id>, i: nat, x: Id)
    requires i < |ids| && Distinct(ids) && x in ids && ids[i] != x
    ensures Distinct(Utils.RemoveAt(ids, i)) && x in Utils.RemoveAt(ids, i)
  {
    var rest := Utils.RemoveAt(ids, i);
    assert multiset(rest) <= multiset(ids) by {
      assert ids == ids[..i] + [ids[i]] + ids[i + 1..];
    }
    DistinctSub(rest, ids);
    var e :| 0 <= e < |ids| && ids[e] == x;
    assert rest[if e < i then e else e - 1] == x;
  }

  /** Deleting a group keeps the option labels of every other group distinct. */
  lemma RemovedGroupsChoices(gs: seq<QuestionGroup>, i: nat, gs': seq<QuestionGroup>)
    requires i < |gs| && gs' == Utils.RemoveAt(gs, i)
    requires forall j :: 0 <= j < |gs| ==> GroupChoicesDistinct(gs[j])
    ensures forall j :: 0 <= j < |gs'| ==> GroupChoicesDistinct(gs'[j])
  {
    forall j | 0 <= j < |gs'| ensures GroupChoicesDistinct(gs'[j]) {
      assert gs'[j] == gs[if j < i then j else j + 1];
    }
  }

  /** Deleting a group other than the entry group keeps a form well formed. */
  lemma RemoveGroupKeepsWellFormed(gs: seq<QuestionGroup>, i: nat)
    requires WellFormed(gs) && i < |gs| && gs[i].id != EntryGroupId
    ensures WellFormed(Utils.RemoveAt(gs, i))
  {
    var gs' := Utils.RemoveAt(gs, i);
    RemovedGroupIds(gs, i);
    RemovedIdsKeep(GroupIds(gs), i, EntryGroupId);
    RemovedGroupQuestionIds(gs, i);
    DistinctSub(AllQuestionIds(gs'), AllQuestionIds(gs));
    RemovedGroupsChoices(gs, i, gs');
  }

  /** Replacing a group trades its question ids for those of the new group. */
  lemma ReplacedQuestionIds(gs: seq<QuestionGroup>, i: nat, g: QuestionGroup)
    requires i < |gs|
    ensures multiset(AllQuestionIds(gs[i := g])) + multiset(QuestionIds(gs[i].children))
         == multiset(AllQuestionIds(gs)) + multiset(QuestionIds(g.children))
  {
    var gs' := gs[i := g];
    AllQuestionIdsAround(gs, i);
    AllQuestionIdsAround(gs', i);
    assert gs'[..i] == gs[..i];
    assert gs'[i + 1..] == gs[i + 1..];
  }

  /** Deleting a group keeps a subset of the question ids. */
  lemma RemovedGroupQuestionIds(gs: seq<QuestionGroup>, i: nat)
    requires i < |gs|
    ensures multiset(AllQuestionIds(Utils.RemoveAt(gs, i))) <= multiset(AllQuestionIds(gs))
  {
    AllQuestionIdsAround(gs, i);
    AllQuestionIdsConcat(gs[..i], gs[i + 1..]);
  }

  /** Every edit keeps a form well formed: distinct group ids, the entry
      group present, distinct question ids across the form, distinct option
      labels in every question. */
  lemma ActionKeepsWellFormed(f: Form, a: FormAction)
    requires ActionApplicable(f, a) && WellFormed(f.children)
    ensures WellFormed(ApplyAction(f, a).children)
  {
    var gs := f.children;
    match a
    case EditName(_) =>
    case EditDesc(_) =>
    case AppendGroup =>
      AppendGroupKeepsWellFormed(gs);
    case RemoveGroup(index) =>
      if gs[index].id != EntryGroupId {
        RemoveGroupKeepsWellFormed(gs, index);
      }
    case RelabelGroup(index, newLabel) =>
      ReplaceKeepsWellFormed(gs, index, WithLabel(gs[index], newLabel));
    case PointNext(index, choice) =>
      ReplaceKeepsWellFormed(gs, index, WithNext(gs[index], choice));
    case AppendQuestion(index) =>
      AppendQuestionKeepsWellFormed(gs, index);
    case SaveQuestionEdits(index, qIndex, edits) =>
      SaveQuestionKeepsWellFormed(gs, index, qIndex, edits);
    case RemoveQuestion(index, qIndex) =>
      var g := gs[index];
      DeleteQuestionIds(g, qIndex);
      ChoicesFromSubset(g, DeleteQuestion(g, qIndex));
      ReplaceKeepsWellFormed(gs, index, DeleteQuestion(g, qIndex));
    case ShiftQuestion(index, qIndex, delta) =>
      MoveQuestionKeepsWellFormed(gs, index, qIndex, delta);
  }

  /** Saving an edited question keeps a form well formed. */
  lemma SaveQuestionKeepsWellFormed(gs: seq<QuestionGroup>, index: nat, qIndex: nat, edits: seq<QuestionEdit>)
    requires WellFormed(gs) && index < |gs| && qIndex < |gs[index].children|
    requires AllApplicable(gs[index].children[qIndex], edits)
    ensures WellFormed(gs[index := SaveQuestion(gs[index], qIndex, ApplyEdits(gs[index].children[qIndex], edits))])
  {
    var g := gs[index];
    var q := ApplyEdits(g.children[qIndex], edits);
    EditsKeepDistinctLabels(g.children[qIndex], edits);
    SaveQuestionIds(g, qIndex, q);
    SaveQuestionChoices(g, qIndex, q);
    ReplaceKeepsWellFormed(gs, index, SaveQuestion(g, qIndex, q));
  }

  /** Moving a question keeps a form well formed. */
  lemma MoveQuestionKeepsWellFormed(gs: seq<QuestionGroup>, index: nat, qIndex: nat, delta: int)
    requires WellFormed(gs) && index < |gs| && qIndex < |gs[index].children|
    ensures WellFormed(gs[index := MoveQuestion(gs[index], qIndex, delta)])
  {
    var g := gs[index];
    var g' := MoveQuestion(g, qIndex, delta);
    MoveQuestionIds(g, qIndex, delta);
    forall q | q in g'.children ensures q in g.children {
      assert q in multiset(g'.children);
    }
    ChoicesFromSubset(g, g');
    ReplaceKeepsWellFormed(gs, index, g');
  }

  /** Any sequence of edits keeps a form well formed; in particular the entry
      group is never deleted. */
  lemma {:induction false} ActionsKeepWellFormed(f: Form, actions: seq<FormAction>)
    requires AllActionsApplicable(f, actions) && WellFormed(f.children)
    ensures WellFormed(ApplyActions(f, actions).children)
    ensures EntryGroupId in GroupIds(ApplyActions(f, actions).children)
    decreases |actions|
  {
    if actions != [] {
      ActionKeepsWellFormed(f, actions[0]);
      ActionsKeepWellFormed(ApplyAction(f, actions[0]), actions[1..]);
    }
  }

  // ---------------------------------------------------------------------
  // Scenarios
  // ---------------------------------------------------------------------

  /** Adding two groups to a form holding only the entry group gives groups 1, 2 and 3. */
  lemma AddTwoGroups(f: Form)
    requires GroupIds(f.children) == [EntryGroupId]
    ensures GroupIds(ApplyActions(f, [AppendGroup, AppendGroup]).children) == [1, 2, 3]
  {
    var f1 := ApplyAction(f, AppendGroup);
    var f2 := ApplyAction(f1, AppendGroup);
    assert [AppendGroup, AppendGroup][1..] == [AppendGroup];
    assert ApplyActions(f, [AppendGroup, AppendGroup]) == f2;
    assert Largest(GroupIds(f.children)) == 1 by {
      LargestSnoc([], 1);
    }
    assert GroupIds(f1.children) == [1, 2];
    assert Largest(GroupIds(f1.children)) == 2 by {
      LargestSnoc([1], 2);
      LargestSnoc([], 1);
    }
    assert GroupIds(f2.children) == [1, 2, 3];
  }
}
