# neuro-route: the subject/roadmap store, in Dafny

neuro-route is a browser-resident tracker for learning subjects. Each subject
holds an ordered checklist of milestones ("roadmap items"). All state logic sits
in the page component `src/pages/Index.tsx`. Only two pieces live elsewhere:
the dialogs' `title.trim()` guard and the detail view's completed count
(`src/components/SubjectView.tsx:27`).
The page component has three state cells: the subject
list, the selected subject shown in the detail view, and a first-load flag. It
also has a load effect and a persist effect over two `localStorage` keys, and
five handlers built from `map`, `filter`, `find` and spread-append. This project
models that store:

- `wrappers.dfy` (module `Wrappers`): `Option`, for the source's `T | null`.
- `lists.dfy` (module `Lists`): a generic `Filter` (`Array.prototype.filter`),
  the subsequence relation, and lemmas: membership, order preservation,
  distribution over concatenation, idempotence.
- `roadmap.dfy` (module `Roadmap`): the `RoadmapItem` and `Subject` records.
  Also the list transformations the handlers apply (toggle map, item filter,
  subject map, `find`, subject filter, completed count). Also the projection
  invariant `Projected` (a selected subject is the first subject with its id,
  the element `find` returns), with lemmas on how each transformation affects
  it.
- `persistence.dfy` (module `Persistence`): the storage keys, a `Storage` class
  over a string map, and two spec functions. `Persisted` is what a save writes.
  `Rehydrated` is what the start-up read restores. The module also proves that
  a save followed by a load gives back the saved state.
- `index.dfy` (module `Index`): the `Store` class. It has the three state cells
  as fields, one method per handler, `Load` and `Save`, and `Valid()`
  (= `Projected`). No handler requires `Valid()`: each states its new state for
  every old state. Every handler keeps `Valid()` except `DeleteSubject` and
  `Select`, whose contracts say exactly when. Client methods replay an
  add/select/add/toggle session, a duplicate-id session, and a save-then-restart.
- `dialogs.dfy` (module `Dialogs`): `String.prototype.trim` and `NonBlank`. The
  dialogs' guard `title.trim()` becomes the caller precondition `NonBlank(title)`
  on `AddSubject` and `AddRoadmapItem`.

Modelling decisions:

- New ids (`Date.now().toString()`) are method parameters.
  Fresh or distinct ids are assumed only where a property needs them
  (`UniqueIdsAppend`, `ProjectedSelect`).
  Equal ids are allowed everywhere else. Clicking a later subject that shares
  its id with an earlier one leaves the projection diverged. The milestone
  handlers still run then, as in the source:
  - adding a milestone appends it to every subject with that id;
  - toggling or deleting re-derives the projection as the first subject with
    that id, changed by the same operation.
- `JSON.parse` and `JSON.stringify` are function parameters. `parse` yields a
  `Parsed`: `Malformed` (the parse threw), `NotAnArray`, or `SubjectList`.
- A storage write that throws is the `Fault` argument of `Save`. It names the
  write that throws. The `catch` swallows it, so the rest of that save is
  skipped.
- Selecting from the list takes the clicked element itself (`:192`), so
  `Select` takes an index into `subjects`. It keeps `Valid()` exactly when that
  element is the first with its id. Distinct ids guarantee this.

Four behaviours of the code, each modelled as written:

- `deleteSubject` does not clear the selection. The model states that the
  store stays valid unless the selected subject itself is deleted. Two facts
  keep a dangling selection from arising in the shipped UI:
  - The list view passes the handler (`src/pages/Index.tsx:193`), and it renders
    only while nothing is selected.
  - `SubjectCard` (`src/components/SubjectCard.tsx:6-14`) declares no `onDelete`
    prop and renders no delete control. So the closure is never invoked, and
    subjects cannot be deleted from the UI at all. `DeleteSubject` is modelled
    as the handler is written.
- The load effect does not reset the state on bad data. It leaves it untouched,
  and at mount that is the empty state.
- A stored selection id that finds no subject leaves the selection as it was.
- The load skips an empty stored text and an empty stored id, because both are
  falsy in JavaScript.

## Model

| member | source | states |
|---|---|---|
| Lists.Filter | src/pages/Index.tsx:122 | the filtered list is no longer than the input and holds only input elements that pass the test |
| Lists.FilterMembers | src/pages/Index.tsx:133 | an element is in the filtered list exactly when it is in the input and passes the test |
| Lists.FilterKeepsAll | src/pages/Index.tsx:122 | when every element passes, filtering returns the input unchanged |
| Lists.FilterAppend | src/pages/Index.tsx:133 | filtering a concatenation is concatenating the filtered parts, so order is kept |
| Lists.FilterIsSubsequence | src/pages/Index.tsx:122 | the filtered list is a subsequence of the input: survivors keep their relative order |
| Lists.FilterIdempotent | src/pages/Index.tsx:122 | filtering twice with the same test equals filtering once |
| Roadmap.ToggleItems | src/pages/Index.tsx:103-105 | the toggle map keeps the number of milestones |
| Roadmap.ToggleItemsAt | src/pages/Index.tsx:103-105 | each milestone keeps its id and title, and its flag flips exactly when its id matches; non-matching milestones are unchanged |
| Roadmap.ToggleItemsTwice | src/pages/Index.tsx:96-108 | toggling the same id twice restores the milestone list |
| Roadmap.ToggleItemsUnknown | src/pages/Index.tsx:103-105 | toggling an id no milestone has changes nothing |
| Roadmap.RemoveItems | src/pages/Index.tsx:122 | the remaining milestones are milestones of the input, none with the deleted id, and there are no more of them |
| Roadmap.RemoveItemsMembers | src/pages/Index.tsx:122 | a milestone survives deletion exactly when its id differs from the deleted id |
| Roadmap.RemoveItemsKeepsOrder | src/pages/Index.tsx:122 | the remaining milestones keep their relative order |
| Roadmap.RemoveItemsUnknown | src/pages/Index.tsx:115-125 | deleting an unknown milestone id leaves the list unchanged |
| Roadmap.RemoveItemsIdempotent | src/pages/Index.tsx:122 | deleting the same milestone id twice equals deleting it once |
| Roadmap.CompletedCount | src/pages/Index.tsx:184 | the completed count is at most the number of milestones |
| Roadmap.CompletedCountAppendNew | src/pages/Index.tsx:77-85 | appending a new incomplete milestone keeps the completed count and adds one to the total |
| Roadmap.CompletedCountAll | src/pages/Index.tsx:184-190 | the completed count equals the total exactly when every milestone is completed |
| Roadmap.CompletedCountNone | src/components/SubjectView.tsx:27 | the completed count is zero exactly when no milestone is completed |
| Roadmap.UpdateSubjects | src/pages/Index.tsx:83-87 | the map over subjects keeps the number of subjects |
| Roadmap.UpdateSubjectsAt | src/pages/Index.tsx:99-108 | in place, exactly the subjects with the selected id get the milestone change; all others are unchanged |
| Roadmap.UpdateSubjectsUnknown | src/pages/Index.tsx:118-125 | a change aimed at an id no subject has leaves the list unchanged |
| Roadmap.UpdateSubjectsToggleTwice | src/pages/Index.tsx:99-108 | toggling the same milestone of the same subject twice restores the whole subject list |
| Roadmap.FindById | src/pages/Index.tsx:111 | a found subject is in the list and has the id; nothing is found exactly when no subject has the id |
| Roadmap.FindByIdFirst | src/pages/Index.tsx:38 | the lookup returns the first subject with the id |
| Roadmap.FindByIdAppend | src/pages/Index.tsx:71 | appending a subject does not change what an existing id finds; otherwise only the new subject can be found |
| Roadmap.FindByIdUpdated | src/pages/Index.tsx:110-112 | after the map, looking up the selected id finds the changed version of what it found before, or nothing if it found nothing |
| Roadmap.FindByIdRemoved | src/pages/Index.tsx:133 | after deleting a subject id that id finds nothing, and every other id finds what it found before |
| Roadmap.RemoveSubjects | src/pages/Index.tsx:133 | the remaining subjects are subjects of the input, none with the deleted id, and there are no more of them |
| Roadmap.RemoveSubjectsMembers | src/pages/Index.tsx:133 | a subject survives deletion exactly when its id differs from the deleted id |
| Roadmap.RemoveSubjectsKeepsOrder | src/pages/Index.tsx:133 | the remaining subjects keep their relative order |
| Roadmap.RemoveSubjectsUnknown | src/pages/Index.tsx:132-134 | deleting an unknown subject id leaves the list unchanged |
| Roadmap.ProjectedAppend | src/pages/Index.tsx:64-72 | adding a subject keeps a valid projection valid |
| Roadmap.ProjectedAppendItem | src/pages/Index.tsx:83-93 | the projection rebuilt from the old one (`:90-93`) equals the canonical entry after the map, given it did before |
| Roadmap.ProjectedChange | src/pages/Index.tsx:110-112 | re-deriving the projection with `find` after a toggle or delete yields the old projection with the same change applied |
| Roadmap.ProjectedRemove | src/pages/Index.tsx:132-134 | after deleting a subject the projection stays valid exactly when nothing is selected or the deleted id is another one |
| Roadmap.ProjectedSelect | src/pages/Index.tsx:192 | with distinct ids, selecting any listed subject gives a valid projection |
| Roadmap.ToggleTwiceRestores | src/pages/Index.tsx:96-113 | after one toggle the re-derived projection is the selection toggled; after the second the subject list is restored and the re-derived projection is the original selection again |
| Roadmap.UniqueIdsAppend | src/pages/Index.tsx:64-71 | adding a subject under a fresh id keeps ids distinct |
| Persistence.Storage.constructor | src/pages/Index.tsx:31 | the storage area starts with the given entries |
| Persistence.Storage.GetItem | src/pages/Index.tsx:31 | returns the stored text exactly when the key is present |
| Persistence.Storage.SetItem | src/pages/Index.tsx:53 | stores the value under the key, leaving other keys alone |
| Persistence.Storage.RemoveItem | src/pages/Index.tsx:57 | removes the key, leaving other keys alone |
| Persistence.Persisted | src/pages/Index.tsx:52-61 | a save that throws at the first write leaves storage as it was; otherwise the subjects key holds the serialised subjects; keys other than the two storage keys are never touched |
| Persistence.Rehydrated | src/pages/Index.tsx:30-45 | after loading, the subjects are either the old ones or exactly the parsed stored array; the selection is either the old one or a valid projection of the loaded subjects under the stored selection id |
| Persistence.PersistedWrites | src/pages/Index.tsx:53-58 | a save writes the serialised subjects; the selection key is present exactly when a subject is selected and then holds its id; no other key changes |
| Persistence.PersistedFaults | src/pages/Index.tsx:59-61 | a throwing first write leaves storage untouched; a throwing second write leaves only the subjects written |
| Persistence.RehydratedNothingStored | src/pages/Index.tsx:31-45 | missing, empty, unparseable or non-array stored subjects leave the state as it was |
| Persistence.RehydratedProjected | src/pages/Index.tsx:35-39 | from the empty start state, loading always gives a state whose selection is a valid projection |
| Persistence.SaveThenLoad | src/pages/Index.tsx:29-62 | saving a valid state and loading it at the next start-up restores subjects and selection, given a round-tripping serialiser and a non-empty selected id |
| Index.Store.constructor | src/pages/Index.tsx:24-26 | the store starts with no subjects, no selection and not loaded |
| Index.Store.Load | src/pages/Index.tsx:29-47 | the new state is the rehydrated state, the store is marked loaded in every case, and the result is valid when nothing was selected before |
| Index.Store.Save | src/pages/Index.tsx:50-62 | before the first load nothing is written; afterwards the storage holds exactly the persisted entries, faults included; the in-memory state never changes |
| Index.Store.AddSubject | src/pages/Index.tsx:64-72 | exactly one subject, with the given fields and no milestones, is appended; earlier subjects and the selection are untouched; a valid store stays valid |
| Index.Store.AddRoadmapItem | src/pages/Index.tsx:74-94 | with no selection nothing changes; otherwise, in any state, an incomplete milestone is appended to every subject with the selected id and to the old projection; a valid store stays valid |
| Index.Store.ToggleRoadmapItem | src/pages/Index.tsx:96-113 | with no selection nothing changes; otherwise matching milestones flip in every subject with the selected id; the projection becomes the first such subject toggled, or stays if there is none; the store is valid afterwards whenever such a subject exists, and a valid store's projection is the old one toggled |
| Index.Store.DeleteRoadmapItem | src/pages/Index.tsx:115-130 | with no selection nothing changes; otherwise matching milestones are filtered out of every subject with the selected id; the projection becomes the first such subject filtered, or stays if there is none; the store is valid afterwards whenever such a subject exists, and a valid store's projection is the old one filtered |
| Index.Store.DeleteSubject | src/pages/Index.tsx:132-134 | every subject with the id is removed and the selection is untouched; a valid store stays valid exactly when the selection is not the deleted subject |
| Index.Store.Select | src/pages/Index.tsx:192 | the clicked subject becomes the selection; the store is valid exactly when it is the first subject with its id |
| Index.Store.Back | src/pages/Index.tsx:140 | the selection is cleared and the store is valid |
| Dialogs.TrimNonEmptyIff | src/components/AddSubjectDialog.tsx:20 | `title.trim()` is non-empty exactly when some character of the title is not whitespace, the condition both dialogs check before calling the store |

## Left out

- JSX rendering, styling, the dialogs' open/close and form-reset state: view only.
- Progress percentages (`src/components/SubjectView.tsx:28-30`, `src/components/SubjectCard.tsx`): floating-point display arithmetic. The integer completed count is modelled.
- `JSON.parse` and `JSON.stringify`: library code. They are function parameters. The model assumes a parsed array holds well-formed subjects. A malformed element that makes `find` throw after `setSubjects` is not modelled.
- `localStorage.getItem` throwing (disabled storage) during the load: not modelled. Only write failures are modelled, as the `Fault` argument of `Save`.
- `Date.now()` id generation: a clock. Ids are parameters. A same-millisecond collision shows up as a caller passing equal ids, and every handler accepts that.
- React effect scheduling and state batching: each handler is one atomic transition, and `Save` is a separate call made after it.
- Dialogs.TrimNonEmptyIff cites only `AddSubjectDialog.tsx:20`. `AddRoadmapDialog.tsx:18` makes the same test.
