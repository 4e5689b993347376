/** The form tree the console edits: a form holds an ordered list of question
    groups, a group an ordered list of questions. Group ids and question ids
    (the latter across the whole form) identify their entities; group 1 is
    the entry group every applicant must complete. */
module FormModel {
  import opened Wrappers
  import opened JsObject
  import Utils

  type Id = int

  /** The id of the entry group. */
  const EntryGroupId: Id := 1

  /** What choosing an option reveals: `Absent` is an `undefined` value (the
      option is not offered), `Null` reveals nothing, `Group(id)` reveals
      that group. */
  datatype Reveal = Absent | Null | Group(id: Id)

  /** A choice map: option label to reveal target, in key order. */
  type Choices = seq<(string, Reveal)>

  datatype QuestionType = Text | Choice | ChoiceDepart

  /** A question. The editor copies questions with `{ ...question, type }`,
      so every field a question may carry is kept whatever its type. A
      missing `choices` object is the empty map; `optional` is `false` when
      the field is absent. */
  datatype Question = Question(
    id: Id,
    kind: QuestionType,
    title: Option<string>,
    desc: Option<string>,
    optional: bool,
    maxLine: Option<int>,
    choices: Choices,
    maxSelection: Option<int>)

  /** A question group (`groupLabel` is the source's `label`); `next` is the group revealed unconditionally after it. */
  datatype QuestionGroup = QuestionGroup(id: Id, groupLabel: string, children: seq<Question>, next: Option<Id>)

  /** A form. The opening times are carried along unchanged. */
  datatype Form = Form(
    id: Id,
    name: string,
    desc: string,
    startAt: Option<string>,
    endAt: Option<string>,
    children: seq<QuestionGroup>)

  /** A department of the organization, as the department list gives it. */
  datatype Department = Department(id: Id, name: string)

  // ---------------------------------------------------------------------
  // Ids
  // ---------------------------------------------------------------------

  function QuestionIds(qs: seq<Question>): (ids: seq<Id>)
    ensures |ids| == |qs|
    ensures forall i :: 0 <= i < |qs| ==> ids[i] == qs[i].id
  {
    seq(|qs|, i requires 0 <= i < |qs| => qs[i].id)
  }

  function GroupIds(gs: seq<QuestionGroup>): (ids: seq<Id>)
    ensures |ids| == |gs|
    ensures forall i :: 0 <= i < |gs| ==> ids[i] == gs[i].id
  {
    seq(|gs|, i requires 0 <= i < |gs| => gs[i].id)
  }

  function GroupLabels(gs: seq<QuestionGroup>): (labels: seq<string>)
    ensures |labels| == |gs|
    ensures forall i :: 0 <= i < |gs| ==> labels[i] == gs[i].groupLabel
  {
    seq(|gs|, i requires 0 <= i < |gs| => gs[i].groupLabel)
  }

  /** The ids of all questions of all groups, group by group. */
  function AllQuestionIds(gs: seq<QuestionGroup>): seq<Id> {
    if gs == [] then []
    else AllQuestionIds(gs[..|gs| - 1]) + QuestionIds(gs[|gs| - 1].children)
  }

  /** The running maximum of the `forEach` loops that look for the largest
      id, which start from 0. */
  function Largest(ids: seq<Id>): (m: int)
    ensures m >= 0
    ensures ids == [] ==> m == 0
  {
    if ids == [] then 0 else Utils.Max(Largest(ids[..|ids| - 1]), ids[|ids| - 1])
  }

  /** The running maximum bounds every id and, unless it is the starting 0,
      is one of them. */
  lemma {:induction false} LargestIsMaximum(ids: seq<Id>)
    ensures forall i :: 0 <= i < |ids| ==> ids[i] <= Largest(ids)
    ensures Largest(ids) == 0 || Largest(ids) in ids
  {
    if ids != [] {
      var front := ids[..|ids| - 1];
      LargestIsMaximum(front);
      forall i | 0 <= i < |ids| ensures ids[i] <= Largest(ids) {
        if i < |front| {
          assert ids[i] == front[i];
        }
      }
      if Largest(ids) != 0 && Largest(ids) != ids[|ids| - 1] {
        var k :| 0 <= k < |front| && front[k] == Largest(front);
        assert ids[k] == Largest(ids);
      }
    }
  }

  /** Extending a list of ids by one takes the larger of the old maximum and the new id. */
  lemma LargestSnoc(s: seq<Id>, x: Id)
    ensures Largest(s + [x]) == Utils.Max(Largest(s), x)
  {
    assert (s + [x])[..|s|] == s;
  }

  /** One more id of a list seen. */
  lemma LargestPrefixStep(ids: seq<Id>, i: nat)
    requires i < |ids|
    ensures Largest(ids[..i + 1]) == Utils.Max(Largest(ids[..i]), ids[i])
  {
    assert ids[..i + 1] == ids[..i] + [ids[i]];
    LargestSnoc(ids[..i], ids[i]);
  }

  /** One more id seen after a prefix of `ids`. */
  lemma LargestStep(seen: seq<Id>, ids: seq<Id>, j: nat)
    requires j < |ids|
    ensures Largest(seen + ids[..j + 1]) == Utils.Max(Largest(seen + ids[..j]), ids[j])
  {
    assert seen + ids[..j + 1] == (seen + ids[..j]) + [ids[j]];
    LargestSnoc(seen + ids[..j], ids[j]);
  }

  /** No id occurs twice. */
  predicate Distinct(ids: seq<Id>) {
    forall x :: x in ids ==> multiset(ids)[x] <= 1
  }

  lemma QuestionIdsConcat(a: seq<Question>, b: seq<Question>)
    ensures QuestionIds(a + b) == QuestionIds(a) + QuestionIds(b)
  {
  }

  lemma QuestionIdsSlice(qs: seq<Question>, i: nat, j: nat)
    requires i <= j <= |qs|
    ensures QuestionIds(qs[i..j]) == QuestionIds(qs)[i..j]
  {
  }

  lemma {:induction false} AllQuestionIdsConcat(a: seq<QuestionGroup>, b: seq<QuestionGroup>)
    ensures AllQuestionIds(a + b) == AllQuestionIds(a) + AllQuestionIds(b)
    decreases |b|
  {
    if b == [] {
      assert a + b == a;
    } else {
      var b' := b[..|b| - 1];
      var last := QuestionIds(b[|b| - 1].children);
      assert (a + b)[..|a + b| - 1] == a + b';
      assert (a + b)[|a + b| - 1] == b[|b| - 1];
      AllQuestionIdsConcat(a, b');
      calc {
        AllQuestionIds(a + b);
        AllQuestionIds(a + b') + last;
        AllQuestionIds(a) + AllQuestionIds(b') + last;
        AllQuestionIds(a) + (AllQuestionIds(b') + last);
        AllQuestionIds(a) + AllQuestionIds(b);
      }
    }
  }

  /** The question ids of one more group. */
  lemma AllQuestionIdsStep(gs: seq<QuestionGroup>, i: nat)
    requires i < |gs|
    ensures AllQuestionIds(gs[..i + 1]) == AllQuestionIds(gs[..i]) + QuestionIds(gs[i].children)
  {
    assert gs[..i + 1][..i] == gs[..i];
  }

  /** The question ids of a form split at group `k`. */
  lemma AllQuestionIdsSplit(gs: seq<QuestionGroup>, k: nat)
    requires k <= |gs|
    ensures AllQuestionIds(gs) == AllQuestionIds(gs[..k]) + AllQuestionIds(gs[k..])
  {
    assert gs == gs[..k] + gs[k..];
    AllQuestionIdsConcat(gs[..k], gs[k..]);
  }

  /** The question ids of a form split around the group at `i`. */
  lemma AllQuestionIdsAround(gs: seq<QuestionGroup>, i: nat)
    requires i < |gs|
    ensures AllQuestionIds(gs) == AllQuestionIds(gs[..i]) + QuestionIds(gs[i].children) + AllQuestionIds(gs[i + 1..])
  {
    AllQuestionIdsStep(gs, i);
    AllQuestionIdsSplit(gs, i + 1);
  }

  /** A sub-multiset of distinct ids is distinct. */
  lemma DistinctSub(a: seq<Id>, b: seq<Id>)
    requires Distinct(b) && multiset(a) <= multiset(b)
    ensures Distinct(a)
  {
    forall x | x in a ensures multiset(a)[x] <= 1 {
      assert multiset(a)[x] <= multiset(b)[x];
      assert x in multiset(b);
    }
  }

  /** Adding an id that is not there keeps the ids distinct. */
  lemma DistinctAddFresh(a: seq<Id>, b: seq<Id>, x: Id)
    requires Distinct(a) && x !in a && multiset(b) == multiset(a) + multiset{x}
    ensures Distinct(b)
  {
    forall y | y in b ensures multiset(b)[y] <= 1 {
      assert multiset(b)[y] == multiset(a)[y] + multiset{x}[y];
      if y != x && multiset(a)[y] > 0 {
        assert y in a;
      }
    }
  }

  // ---------------------------------------------------------------------
  // Well-formed forms
  // ---------------------------------------------------------------------

  /** Every choice map of the group has distinct labels. */
  predicate GroupChoicesDistinct(g: QuestionGroup) {
    forall j :: 0 <= j < |g.children| ==> DistinctKeys(g.children[j].choices)
  }

  /** The invariants the editor keeps: group ids distinct, the entry group
      present, question ids distinct across the whole form, choice labels
      distinct within each question. */
  predicate WellFormed(gs: seq<QuestionGroup>)
    ensures WellFormed(gs) ==> exists i :: 0 <= i < |gs| && gs[i].id == EntryGroupId
  {
    && Distinct(GroupIds(gs))
    && EntryGroupId in GroupIds(gs)
    && Distinct(AllQuestionIds(gs))
    && forall i :: 0 <= i < |gs| ==> GroupChoicesDistinct(gs[i])
  }
}
