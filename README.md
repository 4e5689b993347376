# rop2-web form editor — a verified model

rop2-web is the web console of a recruitment system: an organization builds
application forms made of question groups, each group an ordered list of
questions (free text, multiple choice, or a choice among the organization's
departments), and choosing an option may reveal another group. This project
models, in Dafny, the part of the console that carries the logic:

- the generic helpers of `src/utils.tsx`: moving a list element by a delta
  (`moveElement`), generating a label not yet in use (`newUniqueLabel`),
  `toArray`, `without`, `num`, `numSC` and the trailing-slash rule of
  `basename`;
- the form editor of `src/console/form/FormEdit.tsx`: editing the form title
  and description, adding, relabelling, re-pointing and deleting question
  groups (the entry group, id 1, cannot be deleted), and adding, saving,
  deleting and moving the questions of a group, with the largest-id scans that
  choose fresh ids;
- the question editor of `src/console/form/PreviewWithEditor.tsx`: switching a
  question's type (which seeds default options or one option per department),
  the title, description, required, line-limit and selection-limit edits,
  adding, renaming and deleting options with their rejection rules, setting an
  option's or a department's reveal target, and the guards on the move buttons.

Modules, in dependency order:

| file | module | contents |
|---|---|---|
| wrappers.dfy | `Wrappers` | `Option`, `Result` |
| js_object.dfy | `JsObject` | a JavaScript object as an ordered list of entries with distinct keys; `o[k]` and `o[k] = v` |
| utils.dfy | `Utils` | the helpers of `src/utils.tsx` |
| form_model.dfy | `FormModel` | forms, groups, questions, choice maps; id lists; the well-formedness invariant |
| choice_editor.dfy | `ChoiceEditor` | the option edits of the choice-question editor |
| question_editor.dfy | `QuestionEditor` | the edits of a staged question; the move buttons |
| form_edit.dfy | `FormEdit` | the form and group edits; every edit keeps a form well formed |

Where the source works by updating variables in a loop (the largest-id
`forEach` scans, the `while` loop of `newUniqueLabel`, `copyWithin` inside
`moveElement`, the object-filling loops of `without`, the department seeding,
option rename and option delete), the model is a `method` with that loop,
proved equal to a specification function; the rest are functions. The one
place the source mutates a shared object in place (`Object.assign` on a choice
map) is a class, `ChoiceEditor.ChoiceMap`.

A choice map is an ordered list of `(label, Reveal)` entries, where
`Reveal = Absent | Null | Group(id)`: `Absent` is an `undefined` value (the
option is not offered), `Null` reveals nothing, and `Group(id)` reveals that
group. Assigning an existing key keeps its position and assigning a new key
appends it, as JavaScript does for ordinary string keys.

A form is *well formed* (`FormModel.WellFormed`) when its group ids are
distinct, the entry group is present, its question ids are distinct across all
groups, and the option labels of each question are distinct. Every form edit
keeps this invariant (`FormEdit.ActionKeepsWellFormed`,
`FormEdit.ActionsKeepWellFormed`).

## Model

| member | source | states |
|---|---|---|
| Utils.NewUniqueLabel | src/utils.tsx:81-89 | the `while` loop returns a label not in `labels`; it is `prefix + (n+1)` or `prefix + (n+1) + "(k)"` with k at most `labels.length`, so at most `labels.length + 1` candidates are tried; it equals `UniqueLabel` |
| Utils.NatToString | src/utils.tsx:83 | `${n}` for a natural: at least one decimal digit, a single digit exactly below 10, and nothing but digits |
| Utils.IntToString | src/utils.tsx:140 | `toString()` of an integer: it starts with `-` exactly when the integer is negative, and every other character is a digit |
| Utils.NatToStringValue | src/utils.tsx:83 | the digits `${n}` produces spell `n` in decimal, most significant first |
| Utils.IntToStringValue | src/utils.tsx:140 | `toString()` of a non-negative integer spells it in decimal; of a negative one, a minus sign followed by the decimal digits of its magnitude |
| Utils.UniqueLabel | src/utils.tsx:81-89 | the label produced is never one of the given labels |
| Utils.FirstFreeFrom | src/utils.tsx:82-87 | the round that stops the search is the least one whose candidate is free, and it is at most `labels.length` |
| Utils.Candidate | src/utils.tsx:83-86 | every label the search tries begins with the prefix |
| Utils.CandidatesBound | src/utils.tsx:84-86 | pigeonhole: at most `labels.length` candidates can all be taken, which bounds the loop |
| Utils.CandidateInjective | src/utils.tsx:83-86 | no candidate label is tried twice |
| Utils.NatToStringInjective | src/utils.tsx:83 | distinct naturals have distinct decimal forms |
| Utils.IntToStringInjective | src/utils.tsx:140 | distinct integers have distinct `toString()` forms |
| Utils.MoveElement | src/utils.tsx:91-108 | on a fresh copy of the input (the input is a value and is never changed), `copyWithin` and the final store produce exactly `MoveSpec`: the input itself when `delta == 0`, otherwise the element moved to the clamped target |
| Utils.MoveSpec | src/utils.tsx:94 | same length as the input; `delta == 0` gives the input back element-wise |
| Utils.Moved | src/utils.tsx:96-106 | taking the element out and putting it back at the target keeps the length and places the element at the target |
| Utils.MoveTarget | src/utils.tsx:98-105 | the target is `prevIndex + delta` clamped to `[0, length-1]`, and always a valid index |
| Utils.MovedShape | src/utils.tsx:97-107 | the moved element lands at the target; elements strictly between the old and new positions shift one step toward the vacated slot; all other positions are unchanged |
| Utils.MovedPermutes | src/utils.tsx:91-108 | the result is a permutation (same multiset) of the input |
| Utils.MovedInverse | src/utils.tsx:91-108 | moving the element back from the target to its old position restores the input |
| Utils.CopyWithin | src/utils.tsx:101-104 | `copyWithin(target, start, end)` copies the slice `[start, end)` to `target` as if through a buffer, so overlapping ranges are handled; positions outside the target range keep their values |
| Utils.ToArray | src/utils.tsx:61-68 | `undefined` and `null` give the empty list, an array comes back unchanged, any other value becomes a one-element list |
| Utils.ToArrayIdempotent | src/utils.tsx:64-67 | applying `toArray` to its own result changes nothing |
| Utils.Omit | src/utils.tsx:23-28 | the object `without` builds is never larger than the original |
| Utils.OmitMembers | src/utils.tsx:23-28 | the entries kept are exactly those of `obj` whose key is not in `keys`, with their values |
| Utils.Without | src/utils.tsx:23-28 | the `for` loop that fills a fresh object yields `Omit(obj, keys)`, in order, and its keys are distinct |
| Utils.Reading | src/utils.tsx:72-75 | a number reads as itself; `undefined`, `null` and blank strings give nothing; any other string reads as its value exactly when that value is a safe integer |
| Utils.Num | src/utils.tsx:70-79 | the result is the reading of the first argument that yields one: a number as it is; `undefined`, `null` and blank strings skipped; a string whose value is a safe integer; otherwise the error "数字转换失败" exactly when no argument yields one |
| Utils.NumSC | src/utils.tsx:137-141 | 0 to 10 give the Chinese numerals 零 to 十, every other integer its decimal form |
| Utils.NumSCFirstChar | src/utils.tsx:137-141 | a numeral never begins like a decimal form, so the two ranges cannot be confused |
| Utils.NumSCInjective | src/utils.tsx:137-141 | two different integers never get the same text |
| Utils.WithTrailingSlash | src/utils.tsx:125-126 | the result is the base URL, followed by one `/` exactly when it does not already end with `/`; it always ends with `/` |
| Utils.WithTrailingSlashIdempotent | src/utils.tsx:125-126 | applying the rule twice is the same as applying it once |
| JsObject.Lookup | src/console/form/PreviewWithEditor.tsx:74 | `o[k]` is `undefined` exactly when `k` is not a key, and otherwise the value stored under `k` |
| JsObject.Assign | src/console/form/PreviewWithEditor.tsx:31 | `o[k] = v` for an ordinary key (not `__proto__`) keeps the key list when `k` exists, appends `(k, v)` when it does not, and leaves every other entry in place |
| JsObject.AssignLookup | src/console/form/PreviewWithEditor.tsx:31 | after `o[k] = v`, `k` reads `v` and every other key reads as before |
| JsObject.AssignKeepsDistinct | src/console/form/PreviewWithEditor.tsx:31 | assignment keeps object keys distinct |
| ChoiceEditor.Get | src/console/form/PreviewWithEditor.tsx:74 | a label reads as `undefined` unless it is a key, and otherwise as its stored reveal target |
| ChoiceEditor.Present | src/console/form/PreviewWithEditor.tsx:227 | the offered options are exactly the entries whose value is not `undefined`, and there are no more of them than entries |
| ChoiceEditor.PresentConcat | src/console/form/PreviewWithEditor.tsx:227 | the filter keeps key order: the offered options of two lists one after the other are those of the first followed by those of the second |
| ChoiceEditor.PresentSingle | src/console/form/PreviewWithEditor.tsx:227 | a single entry is kept exactly when its value is not `undefined` |
| ChoiceEditor.LabelsAreDefined | src/console/form/PreviewWithEditor.tsx:227 | a label is offered if and only if it reads as something other than `undefined` |
| ChoiceEditor.PresentDistinct | src/console/form/PreviewWithEditor.tsx:227 | the offered options of an object have distinct labels |
| ChoiceEditor.SetReveal | src/console/form/PreviewWithEditor.tsx:81 | the department reveal edit: that key now reads as the new target, every other key reads as before, keys stay distinct, and a new key is appended |
| ChoiceEditor.DepartChoices | src/console/form/PreviewWithEditor.tsx:29-31 | the seeded map offers exactly the departments, each revealing nothing; no other label is a key |
| ChoiceEditor.DepartChoicesInOrder | src/console/form/PreviewWithEditor.tsx:30-31 | with distinct department ids, the keys are the department ids in department order |
| ChoiceEditor.SeedDepartChoices | src/console/form/PreviewWithEditor.tsx:30-31 | the `forEach` that assigns `choices[dep.id] = null` into a fresh object builds `DepartChoices(departs)` |
| ChoiceEditor.NewOptionLabel | src/console/form/PreviewWithEditor.tsx:237 | the label of an added option is not among the offered labels |
| ChoiceEditor.AddOption | src/console/form/PreviewWithEditor.tsx:235-237 | the new label reveals nothing, every other label reads as before, and labels stay distinct |
| ChoiceEditor.AddOptionOffersOneMore | src/console/form/PreviewWithEditor.tsx:227-237 | after an add the offered labels are the old ones plus the new label, and nothing else |
| ChoiceEditor.Renamed | src/console/form/PreviewWithEditor.tsx:251-260 | a rename is refused with "选项名重复" if and only if the new label is an offered label (the option's own included); otherwise the offered options keep their order, the renamed one keeps its position and reveal target, and the others are unchanged |
| ChoiceEditor.RenamedWellFormed | src/console/form/PreviewWithEditor.tsx:256-258 | a successful rename yields distinct labels and drops every `undefined` entry |
| ChoiceEditor.RenameRoundTrip | src/console/form/PreviewWithEditor.tsx:251-260 | renaming an option and then renaming it back gives the offered options as they were |
| ChoiceEditor.RenameOption | src/console/form/PreviewWithEditor.tsx:251-260 | the rename handler (overwrite the entry, then copy every entry into a new object) returns exactly `Renamed` |
| ChoiceEditor.CopyAll | src/console/form/PreviewWithEditor.tsx:256-258 | copying the entries of an object into a fresh object in a loop yields the same entries in the same order |
| ChoiceEditor.Deleted | src/console/form/PreviewWithEditor.tsx:263-273 | a delete is refused with "至少保留1个选项" if and only if at most one option is offered; otherwise exactly that option is removed and the others keep their order |
| ChoiceEditor.DeletedDropsOne | src/console/form/PreviewWithEditor.tsx:263-273 | a successful delete drops exactly the deleted label, every other offered label keeps its reveal target, and re-inserting the option restores the offered options |
| ChoiceEditor.DeleteOption | src/console/form/PreviewWithEditor.tsx:263-273 | the delete handler (copy every other entry into a new object) returns exactly `Deleted` |
| ChoiceEditor.CopyAllBut | src/console/form/PreviewWithEditor.tsx:267-271 | copying every entry except one into a fresh object yields the list without that entry, in order |
| ChoiceEditor.ChoiceMap.AssignReveal | src/console/form/PreviewWithEditor.tsx:278 | `Object.assign(choices, { [label]: v })` updates the very map it is given, as `SetReveal` |
| ChoiceEditor.RevealThenCancelAsWritten | src/console/form/PreviewWithEditor.tsx:278 | staging the saved question by reference (line 184) and editing a reveal target changes the saved map too |
| ChoiceEditor.CancelledRevealEditPersists | src/console/form/PreviewWithEditor.tsx:278 | whenever the edit changes a target, the saved map differs from what it was before the cancelled edit |
| ChoiceEditor.RevealThenCancelCopying | src/console/form/PreviewWithEditor.tsx:278 | staging a copy gives the edited map to the staged question and leaves the saved map unchanged |
| QuestionEditor.DefaultChoicesOffered | src/console/form/PreviewWithEditor.tsx:26 | the default options are 选项1, 选项2 and 选项3, all offered and distinct, in that order |
| QuestionEditor.SwitchType | src/console/form/PreviewWithEditor.tsx:23-36 | a type switch keeps the id, description, required flag and line limit; the title is kept when present and is "问题标题" when absent; a choice question gets exactly 选项1, 选项2, 选项3, in that order and all revealing nothing, with limit 3; a department-choice question offers exactly the departments, each revealing nothing, with limit `min(3, departments)`; a switch to text keeps the options and limit |
| QuestionEditor.SwitchedSelectionFits | src/console/form/PreviewWithEditor.tsx:27-32 | right after a switch to a choice type the selection limit does not exceed the number of offered options |
| QuestionEditor.ApplyEdit | src/console/form/PreviewWithEditor.tsx:67-278 | each staged edit changes only its own field and keeps the id: the title, description and required edits set exactly that field; the line and selection limits store the value entered, or 1 when the input is cleared; the option edits change only the choice map: an added option is `AddOption`, a successful rename or delete is `Renamed` or `Deleted`, a refused one leaves the question unchanged, and an option's or a department's reveal edit sets that key's target and leaves every other key as it was |
| QuestionEditor.EditKeepsDistinctLabels | src/console/form/PreviewWithEditor.tsx:23-278 | every edit of a staged question keeps its option labels distinct |
| QuestionEditor.EditsKeepDistinctLabels | src/console/form/PreviewWithEditor.tsx:23-278 | any sequence of edits keeps the option labels distinct |
| QuestionEditor.ApplyEdits | src/console/form/PreviewWithEditor.tsx:169-171 | the question "保存" hands on, after all staged edits, keeps its id |
| QuestionEditor.ShowsUp | src/console/form/PreviewWithEditor.tsx:188-190 | when the up button is shown, the move it makes is never clamped: the target is one place up |
| QuestionEditor.ShowsDown | src/console/form/PreviewWithEditor.tsx:191-193 | when the down button is shown, the move it makes is never clamped: the target is one place down |
| QuestionEditor.ShownMovesSwapNeighbours | src/console/form/PreviewWithEditor.tsx:155-193 | a shown up or down button moves the question by exactly one place, so the clamp never acts and the question swaps with its neighbour; a question with neither button is in a read-only view or alone in its group |
| FormModel.LargestIsMaximum | src/console/form/FormEdit.tsx:129-132 | the running maximum from 0 is at least every id, and is one of them unless it is 0 |
| FormModel.Largest | src/console/form/FormEdit.tsx:129-132 | the `forEach` accumulator starts from 0, so it is never negative and is 0 for an empty list |
| FormModel.WellFormed | src/console/form/FormEdit.tsx:99 | the invariant the editor keeps; a well-formed form contains the entry group |
| FormEdit.WithName | src/console/form/FormEdit.tsx:82 | the title edit sets the name and changes nothing else |
| FormEdit.WithDesc | src/console/form/FormEdit.tsx:90 | the description edit sets the description and changes nothing else |
| FormEdit.MaxGroupId | src/console/form/FormEdit.tsx:129-132 | the `forEach` scan from 0 returns the running maximum of the group ids |
| FormEdit.ScanQuestions | src/console/form/FormEdit.tsx:211-213 | the inner `forEach` continues the running maximum over one group's question ids |
| FormEdit.MaxQuestionId | src/console/form/FormEdit.tsx:209-213 | the nested scan from 0 returns the running maximum of all question ids of all groups |
| FormEdit.NewGroup | src/console/form/FormEdit.tsx:133-137 | the new group's id is above every group id (1 when there are none) and its label is not used by any group; it has no questions and no next group |
| FormEdit.AddGroup | src/console/form/FormEdit.tsx:127-144 | the handler appends exactly one group, `NewGroup`, after the unchanged groups |
| FormEdit.NewQuestion | src/console/form/FormEdit.tsx:214 | the new question is a text question titled "新问题" whose id is above every question id of every group |
| FormEdit.AddQuestion | src/console/form/FormEdit.tsx:207-214 | the handler appends `NewQuestion` to the target group only |
| FormEdit.WithLabel | src/console/form/FormEdit.tsx:184 | the label edit sets the label and changes nothing else |
| FormEdit.WithNext | src/console/form/FormEdit.tsx:226-231 | "none" clears `next`; picking a group stores its id; nothing else changes |
| FormEdit.WithQuestion | src/console/form/FormEdit.tsx:214 | the question is appended after the unchanged questions; the group's id, label and next group are kept |
| FormEdit.SaveQuestion | src/console/form/FormEdit.tsx:201 | only the question at that index changes; the group's id, label and next group are kept |
| FormEdit.DeleteQuestion | src/console/form/FormEdit.tsx:202 | exactly that question is removed and the others keep their order; the group's id, label and next group are kept |
| FormEdit.MoveQuestion | src/console/form/FormEdit.tsx:203 | the questions are exactly `moveElement`'s result (`Utils.MoveSpec`), hence a permutation; the group's id, label and next group are kept; a zero delta changes nothing |
| FormEdit.ReplaceGroup | src/console/form/FormEdit.tsx:100-101 | only the group at that index changes; the length and the rest of the form are kept |
| FormEdit.DeleteGroup | src/console/form/FormEdit.tsx:99-118 | the delete is refused exactly for the entry group (id 1), whose delete button is disabled (line 189); otherwise exactly that group is removed and the others keep their order |
| FormEdit.ApplyAction | src/console/form/FormEdit.tsx:82-231 | no edit changes the form id or opening times; only the title edit changes the name, only the description edit changes the description; a refused delete leaves the form unchanged |
| FormEdit.ApplyActions | src/console/form/FormEdit.tsx:82-231 | edits applied one after another never change the form id |
| FormEdit.MovedQuestionIds | src/console/form/FormEdit.tsx:203 | moving a question moves its id the same way |
| FormEdit.ReplaceKeepsWellFormed | src/console/form/FormEdit.tsx:100-101 | replacing a group by one with the same id, distinct option labels and a subset of its question ids keeps the form well formed |
| FormEdit.AppendQuestionKeepsWellFormed | src/console/form/FormEdit.tsx:207-214 | adding a question keeps the form well formed; in particular its id is new in the whole form |
| FormEdit.AppendGroupKeepsWellFormed | src/console/form/FormEdit.tsx:127-144 | adding a group keeps the form well formed; in particular its id is new |
| FormEdit.RemoveGroupKeepsWellFormed | src/console/form/FormEdit.tsx:118 | deleting a group other than the entry group keeps the form well formed |
| FormEdit.SaveQuestionKeepsWellFormed | src/console/form/FormEdit.tsx:201 | saving a question after any staged edits keeps the form well formed |
| FormEdit.MoveQuestionKeepsWellFormed | src/console/form/FormEdit.tsx:203 | moving a question keeps the form well formed |
| FormEdit.ActionKeepsWellFormed | src/console/form/FormEdit.tsx:82-231 | every form edit keeps the form well formed |
| FormEdit.ActionsKeepWellFormed | src/console/form/FormEdit.tsx:82-231 | any sequence of edits keeps the form well formed, so the entry group is never lost |
| FormEdit.AddTwoGroups | src/console/form/FormEdit.tsx:129-138 | adding two groups to a form holding only the entry group gives groups 1, 2 and 3 |

## Left out

- React rendering and state plumbing (`useState`, `useMemo`, refs, scroll spy, modals, messages) are not modelled; a refused edit is a `Failure` value where the console shows an error message.
- The server round trip and the optimistic update (`editForm`, `reload`) are left out; each edit is the new form value the console sends.
- `src/api/core.ts`, the token handling and the key-value cache are I/O and are not part of this model.
- `delay`, `period`, `useNickname`, `useDarkMode`, `useStoredState` and `Date.prototype.stringify` depend on the clock, timers or browser storage.
- `Number.prototype.pad` works on floating point through `toFixed` and is left out.
- `singleMatch` depends on the JavaScript regular-expression engine and is left out.
- JsObject.Assign: assigning the key `__proto__` to a plain object in JavaScript sets its prototype and creates no entry; the model appends an ordinary entry instead. So renaming an option to `__proto__` (whose rebuild loop would then lose that option and its reveal target), deleting an option from a map holding such a key, and `without` on an object with an own `__proto__` key are modelled as if `__proto__` were an ordinary label.
- Utils.NumSC: the argument is an integer; JavaScript numbers are doubles, so integers above 2^53 that are not exact, non-integer arguments (`numSC(2.5)` is "2.5") and exponent forms (`(1e21).toString()` is "1e+21", where the model prints 22 digits) are not modelled; `Utils.IntToString` agrees with `toString()` below 10^21 in magnitude.
- Utils.Num: JavaScript's `Number(string)` followed by `Number.isSafeInteger` is a parameter `safeInt`, because the string-to-number grammar is not modelled; numbers are `real`, and NaN and the infinities are not represented.
- Utils.MoveElement: requires an in-range `prevIndex` when `delta` is non-zero; every caller passes the index of an existing question, and an out-of-range index (which produces holes) is not modelled.
- JavaScript lists integer-like object keys (canonical array indices such as "2", whether department ids or option labels) in numeric order before all other keys; the model keeps every key in insertion order. So where department ids are not listed in increasing order, or an option is renamed to an integer-like label, `Object.entries` order (and the position a rename keeps) differs from the model's.
- An absent `choices` field on a question is the empty map.
- `QuestionGroupSelect`, the reveal-target picker, is not part of this model; its result is taken as any `Reveal`.
- The opening-time range picker of the form editor has no effect on the form and is carried along unchanged.
- `src/console/form/FormOverview.tsx` and `src/console/org/DepartManage.tsx` are table UI and placeholder handlers and are not part of this model.
- Deleting a group does not clear `next` or reveal targets that point to it, and the label edit does not keep group labels unique; the model does the same, so well-formedness does not include either property.
- The selection-limit and line-limit inputs bound their values in the UI widget (`min`/`max`); the model stores whatever value arrives, or 1 when the input is cleared.

## Findings

| source | as written | input that shows it | evidently intended | confidence | as-written member | corrected member |
|---|---|---|---|---|---|---|
| src/console/form/PreviewWithEditor.tsx:184, 278 | "编辑" stages the saved question object itself, and the option reveal edit writes into the shared choice map with `Object.assign`, so the edit reaches the saved form | a choice question whose option 选项1 reveals nothing: edit it, set 选项1 to reveal group 2, press "取消"; the saved question's 选项1 now reveals group 2 | a cancelled edit leaves the saved question unchanged: the reveal edit builds a new map, as the department reveal edit (line 81) does | not executed | ChoiceEditor.RevealThenCancelAsWritten | ChoiceEditor.RevealThenCancelCopying |

The rest of the model uses the copying form: `QuestionEditor.ApplyEdit` applies
a reveal edit with `ChoiceEditor.SetReveal`, which yields a new map.
