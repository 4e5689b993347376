/** The choice map of a choice question and the edits the choice-question
    editor makes to it: reading an option's reveal target, listing the
    offered options, adding, renaming and deleting an option, setting its
    reveal target, and seeding the map from the department list. */
module ChoiceEditor {
  import opened Wrappers
  import opened JsObject
  import Utils
  import opened FormModel

  /** `choices[key]`: a key that is not there reads as `undefined`. */
  function Get(c: Choices, key: string): (r: Reveal)
    ensures r != Absent ==> key in KeysOf(c)
    ensures forall i :: 0 <= i < |c| && c[i].0 == key && DistinctKeys(c) ==> r == c[i].1
  {
    match Lookup(c, key)
    case None => Absent
    case Some(v) => v
  }

  /** The offered options: the entries whose value is not `undefined`, in key order. */
  function Present(c: Choices): (p: Choices)
    ensures |p| <= |c|
    ensures forall e :: e in p <==> e in c && e.1 != Absent
  {
    if c == [] then []
    else if c[|c| - 1].1 == Absent then Present(c[..|c| - 1])
    else Present(c[..|c| - 1]) + [c[|c| - 1]]
  }

  /** `Present` filters in order: the offered options of two lists one after
      the other are those of the first followed by those of the second. */
  lemma {:induction false} PresentConcat(a: Choices, b: Choices)
    ensures Present(a + b) == Present(a) + Present(b)
    decreases |b|
  {
    if b == [] {
      assert a + b == a;
    } else {
      var b', last := b[..|b| - 1], b[|b| - 1];
      var tail := if last.1 == Absent then [] else [last];
      assert Present(a + b) == Present(a + b') + tail by {
        assert (a + b)[..|a + b| - 1] == a + b';
        assert (a + b)[|a + b| - 1] == last;
      }
      assert Present(b) == Present(b') + tail;
      PresentConcat(a, b');
    }
  }

  /** A single entry is offered exactly when it is not `undefined`. */
  lemma PresentSingle(e: (string, Reveal))
    ensures Present([e]) == if e.1 == Absent then [] else [e]
  {
    assert [e][..0] == [];
  }

  /** The labels of the offered options. */
  function Labels(c: Choices): seq<string> {
    KeysOf(Present(c))
  }

  /** A key none of whose entries in `p` comes from `o` at or after index `i` is
      not among the keys of `p`. */
  lemma KeyNotInEarlier(o: Choices, i: nat, p: Choices)
    requires DistinctKeys(o) && i < |o|
    requires forall e :: e in p ==> e in o[..i]
    ensures o[i].0 !in KeysOf(p)
  {
    forall j | 0 <= j < |p| ensures p[j].0 != o[i].0 {
      assert p[j] in o[..i];
      var j' :| 0 <= j' < i && o[..i][j'] == p[j];
      assert o[j'] == p[j];
    }
  }

  /** The offered options of an object have distinct labels. */
  lemma {:induction false} PresentDistinct(c: Choices)
    requires DistinctKeys(c)
    ensures DistinctKeys(Present(c))
  {
    if c != [] {
      var front := c[..|c| - 1];
      assert DistinctKeys(front);
      PresentDistinct(front);
      if c[|c| - 1].1 != Absent {
        forall e | e in Present(front) ensures e in c[..|c| - 1] {
        }
        KeyNotInEarlier(c, |c| - 1, Present(front));
      }
    }
  }

  /** An option is offered exactly when its key reads as something other than `undefined`. */
  lemma {:induction false} LabelsAreDefined(c: Choices, k: string)
    requires DistinctKeys(c)
    ensures k in Labels(c) <==> Get(c, k) != Absent
  {
    if k in Labels(c) {
      var j :| 0 <= j < |Present(c)| && KeysOf(Present(c))[j] == k;
      assert Present(c)[j] in Present(c);
    }
    if Get(c, k) != Absent {
      var i :| 0 <= i < |c| && KeysOf(c)[i] == k;
      assert c[i] in Present(c);
      var j :| 0 <= j < |Present(c)| && Present(c)[j] == c[i];
      assert KeysOf(Present(c))[j] == k;
    }
  }

  /** An object with no `undefined` value offers all of its entries. */
  lemma {:induction false} PresentOfDefined(c: Choices)
    requires forall i :: 0 <= i < |c| ==> c[i].1 != Absent
    ensures Present(c) == c
  {
    if c != [] {
      var front := c[..|c| - 1];
      PresentOfDefined(front);
      assert front + [c[|c| - 1]] == c;
    }
  }

  /** Every key of `Assign(c, key, v)` reads as `c` did, except `key`. */
  lemma AssignGetAll(c: Choices, key: string, v: Reveal)
    ensures forall k :: Get(Assign(c, key, v), k) == if k == key then v else Get(c, k)
  {
    forall k ensures Get(Assign(c, key, v), k) == if k == key then v else Get(c, k) {
      AssignLookup(c, key, v, k);
    }
  }

  /** `{ ...choices, [key]: v }` (and `choices[key] = v` on a fresh object):
      `key` now reads as `v`, every other key as before. */
  function SetReveal(c: Choices, key: string, v: Reveal): (r: Choices)
    ensures Get(r, key) == v
    ensures forall k :: k != key ==> Get(r, k) == Get(c, k)
    ensures DistinctKeys(c) ==> DistinctKeys(r)
    ensures key in KeysOf(c) ==> KeysOf(r) == KeysOf(c)
    ensures key !in KeysOf(c) ==> r == c + [(key, v)]
  {
    AssignGetAll(c, key, v);
    if DistinctKeys(c) then AssignKeepsDistinct(c, key, v); Assign(c, key, v)
    else Assign(c, key, v)
  }

  // ---------------------------------------------------------------------
  // Seeding
  // ---------------------------------------------------------------------

  /** The option labels of a fresh choice question. */
  const DefaultChoices: Choices := [("选项1", Null), ("选项2", Null), ("选项3", Null)]

  /** The key of a department in a choice map: its id in decimal. */
  function DepartKeys(departs: seq<Department>): (ks: seq<string>)
    ensures |ks| == |departs|
    ensures forall i :: 0 <= i < |departs| ==> ks[i] == Utils.IntToString(departs[i].id)
  {
    if departs == [] then [] else DepartKeys(departs[..|departs| - 1]) + [Utils.IntToString(departs[|departs| - 1].id)]
  }

  /** The choice map of a fresh department-choice question: every department
      is offered and reveals nothing; nothing else is a key. */
  function DepartChoices(departs: seq<Department>): (c: Choices)
    ensures DistinctKeys(c)
    ensures forall i :: 0 <= i < |c| ==> c[i].1 == Null
    ensures forall k :: Get(c, k) == if k in DepartKeys(departs) then Null else Absent
  {
    if departs == [] then []
    else
      var front := DepartChoices(departs[..|departs| - 1]);
      var key := Utils.IntToString(departs[|departs| - 1].id);
      assert DepartKeys(departs) == DepartKeys(departs[..|departs| - 1]) + [key];
      SetReveal(front, key, Null)
  }

  /** Department ids are distinct. */
  predicate DistinctDeparts(departs: seq<Department>) {
    forall i, j :: 0 <= i < j < |departs| ==> departs[i].id != departs[j].id
  }

  /** The last department's key is not the key of an earlier department. */
  lemma LastDepartKeyFresh(departs: seq<Department>)
    requires DistinctDeparts(departs) && departs != []
    ensures Utils.IntToString(departs[|departs| - 1].id) !in DepartKeys(departs[..|departs| - 1])
  {
    var front, last := departs[..|departs| - 1], departs[|departs| - 1];
    forall i | 0 <= i < |front| ensures DepartKeys(front)[i] != Utils.IntToString(last.id) {
      if DepartKeys(front)[i] == Utils.IntToString(last.id) {
        Utils.IntToStringInjective(front[i].id, last.id);
      }
    }
  }

  /** With distinct department ids the map lists the departments in their order. */
  lemma {:induction false} DepartChoicesInOrder(departs: seq<Department>)
    requires DistinctDeparts(departs)
    ensures KeysOf(DepartChoices(departs)) == DepartKeys(departs)
  {
    if departs != [] {
      var front := departs[..|departs| - 1];
      assert DistinctDeparts(front);
      DepartChoicesInOrder(front);
      LastDepartKeyFresh(departs);
      KeysOfConcat(DepartChoices(front), [(Utils.IntToString(departs[|departs| - 1].id), Null)]);
    }
  }

  /** The department loop: `choices[dep.id] = null` for every department in turn. */
  method SeedDepartChoices(departs: seq<Department>) returns (c: Choices)
    ensures c == DepartChoices(departs)
  {
    c := [];
    var i := 0;
    while i < |departs|
      invariant 0 <= i <= |departs|
      invariant c == DepartChoices(departs[..i])
    {
      assert SetReveal(c, Utils.IntToString(departs[i].id), Null) == DepartChoices(departs[..i + 1]) by {
        assert departs[..i + 1][..i] == departs[..i];
      }
      c := SetReveal(c, Utils.IntToString(departs[i].id), Null);
      i := i + 1;
    }
    assert departs[..i] == departs;
  }

  // ---------------------------------------------------------------------
  // Option edits
  // ---------------------------------------------------------------------

  /** Why an option edit is refused: the new label is already an offered
      label ("选项名重复"), or the option is the last one ("至少保留1个选项"). */
  datatype ChoiceError = DuplicateLabel | LastOption

  const OptionPrefix := "选项"

  /** The label "添加选项" gives the new option. */
  function NewOptionLabel(c: Choices): (l: string)
    ensures l !in Labels(c)
  {
    Utils.UniqueLabel(Labels(c), OptionPrefix)
  }

  /** Adding an option: a fresh label that reveals nothing; nothing else changes. */
  function AddOption(c: Choices): (r: Choices)
    ensures Get(r, NewOptionLabel(c)) == Null
    ensures forall k :: k != NewOptionLabel(c) ==> Get(r, k) == Get(c, k)
    ensures DistinctKeys(c) ==> DistinctKeys(r)
  {
    SetReveal(c, NewOptionLabel(c), Null)
  }

  /** On an object, adding an option offers exactly one more option. */
  lemma AddOptionOffersOneMore(c: Choices)
    requires DistinctKeys(c)
    ensures forall k :: k in Labels(AddOption(c)) <==> k in Labels(c) || k == NewOptionLabel(c)
  {
    forall k ensures k in Labels(AddOption(c)) <==> k in Labels(c) || k == NewOptionLabel(c) {
      LabelsAreDefined(c, k);
      LabelsAreDefined(AddOption(c), k);
    }
  }

  /** Renaming the offered option at `index`: refused when the new label is
      already an offered label (its own included); otherwise the offered
      options in order, that one relabelled with its reveal target kept. */
  function Renamed(c: Choices, index: nat, newLabel: string): (r: Result<Choices, ChoiceError>)
    requires index < |Present(c)|
    ensures r.Failure? <==> newLabel in Labels(c)
    ensures r.Failure? ==> r.error == DuplicateLabel
    ensures r.Success? ==> |r.value| == |Present(c)|
    ensures r.Success? ==> r.value[index] == (newLabel, Present(c)[index].1)
    ensures r.Success? ==> forall i :: 0 <= i < |r.value| && i != index ==> r.value[i] == Present(c)[i]
  {
    if newLabel in Labels(c) then Failure(DuplicateLabel)
    else Success(Present(c)[index := (newLabel, Present(c)[index].1)])
  }

  /** A successful rename leaves an object with distinct labels and no `undefined` value. */
  lemma RenamedWellFormed(c: Choices, index: nat, newLabel: string)
    requires DistinctKeys(c) && index < |Present(c)| && Renamed(c, index, newLabel).Success?
    ensures DistinctKeys(Renamed(c, index, newLabel).value)
    ensures Present(Renamed(c, index, newLabel).value) == Renamed(c, index, newLabel).value
  {
    var p := Present(c);
    var r := Renamed(c, index, newLabel).value;
    PresentDistinct(c);
    forall i | 0 <= i < |p| ensures p[i].0 != newLabel {
      assert KeysOf(p)[i] == p[i].0;
    }
    forall i | 0 <= i < |r| ensures r[i].1 != Absent {
      assert p[i] in p;
    }
    PresentOfDefined(r);
  }

  /** Relabelling an entry and then giving it its old label back restores the list. */
  lemma RelabelBack(p: Choices, index: nat, newLabel: string)
    requires index < |p|
    ensures var r := p[index := (newLabel, p[index].1)];
      r[index := (p[index].0, r[index].1)] == p
  {
  }

  /** Renaming the option back restores the offered options. */
  lemma RenameRoundTrip(c: Choices, index: nat, newLabel: string)
    requires DistinctKeys(c) && index < |Present(c)| && Renamed(c, index, newLabel).Success?
    ensures index < |Present(Renamed(c, index, newLabel).value)|
    ensures Renamed(Renamed(c, index, newLabel).value, index, Present(c)[index].0) == Success(Present(c))
  {
    var p := Present(c);
    var r := Renamed(c, index, newLabel).value;
    var oldLabel := p[index].0;
    assert Present(r) == r by {
      RenamedWellFormed(c, index, newLabel);
    }
    assert oldLabel !in Labels(r) by {
      PresentDistinct(c);
      forall i | 0 <= i < |r| ensures KeysOf(r)[i] != oldLabel {
        if i != index {
          assert r[i] == p[i];
        }
      }
    }
    assert r == p[index := (newLabel, p[index].1)];
    RelabelBack(p, index, newLabel);
  }

  /** The rename loop: `entries[editingIndex] = [label, reveal]`, then every
      entry is copied into a new object in order. */
  method RenameOption(c: Choices, index: nat, newLabel: string) returns (r: Result<Choices, ChoiceError>)
    requires DistinctKeys(c) && index < |Present(c)|
    ensures r == Renamed(c, index, newLabel)
  {
    var entries := Present(c);
    if newLabel in KeysOf(entries) {
      return Failure(DuplicateLabel);
    }
    entries := entries[index := (newLabel, entries[index].1)];
    assert DistinctKeys(entries) by {
      RenamedWellFormed(c, index, newLabel);
    }
    var newChoices := CopyAll(entries);
    r := Success(newChoices);
  }

  /** Copies the entries of an object into a new object, one assignment at a
      time; distinct keys make every assignment an append. */
  method CopyAll(entries: Choices) returns (newChoices: Choices)
    requires DistinctKeys(entries)
    ensures newChoices == entries
  {
    newChoices := [];
    var i := 0;
    while i < |entries|
      invariant 0 <= i <= |entries|
      invariant newChoices == entries[..i]
    {
      assert Assign(newChoices, entries[i].0, entries[i].1) == entries[..i + 1] by {
        KeyFreshInPrefix(entries, i);
        assert entries[..i + 1] == entries[..i] + [entries[i]];
      }
      newChoices := Assign(newChoices, entries[i].0, entries[i].1);
      i := i + 1;
    }
    assert entries[..i] == entries;
  }

  /** Deleting the offered option at `index`: refused when it is the only
      offered option; otherwise the other offered options, in order. */
  function Deleted(c: Choices, index: nat): (r: Result<Choices, ChoiceError>)
    requires index < |Present(c)|
    ensures r.Failure? <==> |Present(c)| <= 1
    ensures r.Failure? ==> r.error == LastOption
    ensures r.Success? ==> |r.value| == |Present(c)| - 1 >= 1
    ensures r.Success? ==> forall i :: 0 <= i < index ==> r.value[i] == Present(c)[i]
    ensures r.Success? ==> forall i :: index < i < |Present(c)| ==> r.value[i - 1] == Present(c)[i]
  {
    if |Present(c)| <= 1 then Failure(LastOption)
    else Success(Utils.RemoveAt(Present(c), index))
  }

  /** A successful delete drops exactly the deleted label; every other offered
      option keeps its reveal target, and putting the option back restores
      the offered options. */
  lemma DeletedDropsOne(c: Choices, index: nat)
    requires DistinctKeys(c) && index < |Present(c)| && Deleted(c, index).Success?
    ensures var p, r := Present(c), Deleted(c, index).value;
      && DistinctKeys(r)
      && p[index].0 !in KeysOf(r)
      && (forall k :: k != p[index].0 ==> Get(r, k) == Get(p, k))
      && Utils.InsertAt(r, index, p[index]) == p
  {
    var p := Present(c);
    var r := Utils.RemoveAt(p, index);
    assert Deleted(c, index).value == r;
    assert DistinctKeys(r) && p[index].0 !in KeysOf(r) by {
      PresentDistinct(c);
      RemovedDistinct(p, index);
    }
    assert forall k :: k != p[index].0 ==> Get(r, k) == Get(p, k) by {
      PresentDistinct(c);
      forall k | k != p[index].0 ensures Get(r, k) == Get(p, k) {
        RemovedGet(p, index, k);
      }
    }
    assert Utils.InsertAt(r, index, p[index]) == p by {
      assert r == p[..index] + p[index + 1..];
      assert p == p[..index] + [p[index]] + p[index + 1..];
    }
  }

  /** Removing an entry of an object keeps its keys distinct and drops that entry's key. */
  lemma RemovedDistinct(p: Choices, index: nat)
    requires DistinctKeys(p) && index < |p|
    ensures DistinctKeys(Utils.RemoveAt(p, index))
    ensures p[index].0 !in KeysOf(Utils.RemoveAt(p, index))
  {
    var r := Utils.RemoveAt(p, index);
    forall i, j | 0 <= i < j < |r| ensures r[i].0 != r[j].0 {
      var i' := if i < index then i else i + 1;
      var j' := if j < index then j else j + 1;
      assert r[i] == p[i'] && r[j] == p[j'];
    }
    forall i | 0 <= i < |r| ensures KeysOf(r)[i] != p[index].0 {
      var i' := if i < index then i else i + 1;
      assert r[i] == p[i'];
    }
  }

  /** Removing an entry of an object leaves every other key reading as before. */
  lemma RemovedGet(p: Choices, index: nat, k: string)
    requires DistinctKeys(p) && index < |p| && k != p[index].0
    ensures Get(Utils.RemoveAt(p, index), k) == Get(p, k)
  {
    var r := Utils.RemoveAt(p, index);
    RemovedDistinct(p, index);
    if Get(p, k) != Absent {
      var i :| 0 <= i < |p| && KeysOf(p)[i] == k;
      var i' := if i < index then i else i - 1;
      assert r[i'] == p[i];
    }
  }

  /** The delete loop: every entry but the deleted one is copied into a new object in order. */
  method DeleteOption(c: Choices, index: nat) returns (r: Result<Choices, ChoiceError>)
    requires DistinctKeys(c) && index < |Present(c)|
    ensures r == Deleted(c, index)
  {
    var entries := Present(c);
    if |entries| <= 1 {
      return Failure(LastOption);
    }
    PresentDistinct(c);
    var newChoices := CopyAllBut(entries, index);
    r := Success(newChoices);
  }

  /** The entries of `entries` before position `i`, skipping the one at `index`. */
  predicate CopiedBut(entries: Choices, index: nat, i: nat, copied: Choices)
    requires i <= |entries|
  {
    && |copied| == (if i <= index then i else i - 1)
    && forall k :: 0 <= k < |copied| ==> copied[k] == entries[if k < index then k else k + 1]
  }

  /** One step of the delete loop: the key of entry `i` is not copied yet, so
      assigning it appends it. */
  lemma CopyButStep(entries: Choices, index: nat, i: nat, copied: Choices)
    requires DistinctKeys(entries) && i < |entries| && i != index && CopiedBut(entries, index, i, copied)
    ensures Assign(copied, entries[i].0, entries[i].1) == copied + [entries[i]]
    ensures CopiedBut(entries, index, i + 1, copied + [entries[i]])
  {
    assert entries[i].0 !in KeysOf(copied) by {
      forall k | 0 <= k < |copied| ensures KeysOf(copied)[k] != entries[i].0 {
        assert copied[k] == entries[if k < index then k else k + 1];
      }
    }
    var next := copied + [entries[i]];
    assert CopiedBut(entries, index, i + 1, next) by {
      forall k | 0 <= k < |next| ensures next[k] == entries[if k < index then k else k + 1] {
        if k < |copied| {
          assert next[k] == copied[k];
        }
      }
    }
  }

  /** Copies the entries of an object other than the one at `index` into a
      new object, one assignment at a time. */
  method CopyAllBut(entries: Choices, index: nat) returns (newChoices: Choices)
    requires DistinctKeys(entries) && index < |entries|
    ensures newChoices == Utils.RemoveAt(entries, index)
  {
    newChoices := [];
    var i := 0;
    while i < |entries|
      invariant 0 <= i <= |entries|
      invariant CopiedBut(entries, index, i, newChoices)
    {
      if i != index {
        CopyButStep(entries, index, i, newChoices);
        newChoices := Assign(newChoices, entries[i].0, entries[i].1);
      }
      i := i + 1;
    }
    assert newChoices == Utils.RemoveAt(entries, index) by {
      forall k | 0 <= k < |newChoices| ensures newChoices[k] == Utils.RemoveAt(entries, index)[k] {
      }
    }
  }

  // ---------------------------------------------------------------------
  // Reveal targets set in place
  // ---------------------------------------------------------------------

  /** A choice map the editor holds by reference, as the question objects do. */
  class ChoiceMap {
    var entries: Choices

    constructor (c: Choices)
      ensures entries == c
    {
      entries := c;
    }

    /** `Object.assign(choices, { [label]: v })`: writes into this very object. */
    method AssignReveal(newLabel: string, v: Reveal)
      modifies this
      ensures entries == SetReveal(old(entries), newLabel, v)
    {
      entries := SetReveal(entries, newLabel, v);
    }
  }

  /** The reveal-target edit as the editor does it, then "取消". "编辑" stages
      the saved question itself, so the staged question shares its choice map
      with the saved one, and the reveal edit assigns into that shared map:
      dropping the staged question leaves the saved map changed. */
  method RevealThenCancelAsWritten(saved: ChoiceMap, newLabel: string, v: Reveal)
    modifies saved
    ensures saved.entries == SetReveal(old(saved.entries), newLabel, v)
  {
    var staged := saved;
    staged.AssignReveal(newLabel, v);
  }

  /** Whenever the edit changes the option's target, the cancelled edit shows up in the saved map. */
  lemma CancelledRevealEditPersists(c: Choices, newLabel: string, v: Reveal)
    requires Get(c, newLabel) != v
    ensures SetReveal(c, newLabel, v) != c
  {
    assert Get(SetReveal(c, newLabel, v), newLabel) != Get(c, newLabel);
  }

  /** The intended edit: the staged question gets a copy of the map with the
      new target, and cancelling leaves the saved map as it was. */
  method RevealThenCancelCopying(saved: ChoiceMap, newLabel: string, v: Reveal) returns (staged: ChoiceMap)
    ensures fresh(staged)
    ensures staged.entries == SetReveal(saved.entries, newLabel, v)
    ensures saved.entries == old(saved.entries)
  {
    staged := new ChoiceMap(saved.entries);
    staged.AssignReveal(newLabel, v);
  }
}
