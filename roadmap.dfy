/** The entities of the learning tracker and the pure list transformations its
    handlers are built from (the `map`, `filter`, `find` and spread-append
    expressions of the page component). */
module Roadmap {
  import opened Wrappers
  import opened Lists

  /** A milestone of a subject. */
  datatype RoadmapItem = RoadmapItem(id: string, title: string, completed: bool)

  /** A research subject with its ordered milestones. */
  datatype Subject = Subject(id: string, title: string, description: string, roadmapItems: seq<RoadmapItem>)

  /** `item` with its completion flag flipped when its id is `itemId`. */
  function Flip(item: RoadmapItem, itemId: string): (r: RoadmapItem)
  {
    if item.id == itemId then item.(completed := !item.completed) else item
  }

  /** The toggle map of src/pages/Index.tsx:103-105: the items in their order,
      each one whose id is `itemId` with its completion flag flipped. */
  function ToggleItems(items: seq<RoadmapItem>, itemId: string): (r: seq<RoadmapItem>)
    ensures |r| == |items|
  {
    if items == [] then []
    else [Flip(items[0], itemId)] + ToggleItems(items[1..], itemId)
  }

  /** The milestone filter of src/pages/Index.tsx:122: the items whose id is not
      `itemId`, in their order. */
  function RemoveItems(items: seq<RoadmapItem>, itemId: string): (r: seq<RoadmapItem>)
    ensures |r| <= |items|
    ensures forall x :: x in r ==> x in items && x.id != itemId
  {
    Filter(items, (it: RoadmapItem) => it.id != itemId)
  }

  /** The completed count of src/pages/Index.tsx:184: how many items are completed. */
  function CompletedCount(items: seq<RoadmapItem>): (n: nat)
    ensures n <= |items|
  {
    |Filter(items, (it: RoadmapItem) => it.completed)|
  }

  /** The three changes a handler makes to the milestones of one subject. */
  datatype ItemChange = Append(item: RoadmapItem) | Toggle(itemId: string) | Delete(itemId: string)

  function ApplyChange(items: seq<RoadmapItem>, change: ItemChange): (r: seq<RoadmapItem>)
  {
    match change
    case Append(item) => items + [item]
    case Toggle(itemId) => ToggleItems(items, itemId)
    case Delete(itemId) => RemoveItems(items, itemId)
  }

  function Changed(s: Subject, change: ItemChange): (r: Subject)
  {
    s.(roadmapItems := ApplyChange(s.roadmapItems, change))
  }

  /** The subject map of src/pages/Index.tsx:83-87, :99-108 and :118-125: the
      subjects in their order, each one whose id is `subjectId` with the change
      applied to its milestones. */
  function UpdateSubjects(subjects: seq<Subject>, subjectId: string, change: ItemChange): (r: seq<Subject>)
    ensures |r| == |subjects|
  {
    if subjects == [] then []
    else [if subjects[0].id == subjectId then Changed(subjects[0], change) else subjects[0]]
         + UpdateSubjects(subjects[1..], subjectId, change)
  }

  /** The lookup of src/pages/Index.tsx:38, :111 and :128: the first subject
      whose id is `id`, if any. */
  function FindById(subjects: seq<Subject>, id: string): (r: Option<Subject>)
    ensures r.Some? ==> r.value in subjects && r.value.id == id
    ensures r.None? <==> forall s :: s in subjects ==> s.id != id
  {
    if subjects == [] then None
    else if subjects[0].id == id then Some(subjects[0])
    else FindById(subjects[1..], id)
  }

  /** The subject filter of src/pages/Index.tsx:133: the subjects whose id is not
      `subjectId`, in their order. */
  function RemoveSubjects(subjects: seq<Subject>, subjectId: string): (r: seq<Subject>)
    ensures |r| <= |subjects|
    ensures forall s :: s in r ==> s in subjects && s.id != subjectId
  {
    Filter(subjects, (s: Subject) => s.id != subjectId)
  }

  /** The selected subject, when there is one, is the subject the list holds
      under its id: the detail view never shows a diverged copy. */
  predicate Projected(subjects: seq<Subject>, selected: Option<Subject>)
  {
    selected.None? || FindById(subjects, selected.value.id) == selected
  }

  /** No two subjects share an id. */
  predicate UniqueIds(subjects: seq<Subject>)
  {
    forall i, j :: 0 <= i < j < |subjects| ==> subjects[i].id != subjects[j].id
  }

  // ----- milestones -----

  /** Toggling touches exactly the items with the given id, each once, in place. */
  lemma {:induction false} ToggleItemsAt(items: seq<RoadmapItem>, itemId: string, k: nat)
    requires k < |items|
    ensures ToggleItems(items, itemId)[k].id == items[k].id
    ensures ToggleItems(items, itemId)[k].title == items[k].title
    ensures ToggleItems(items, itemId)[k].completed == (items[k].completed != (items[k].id == itemId))
    ensures items[k].id != itemId ==> ToggleItems(items, itemId)[k] == items[k]
  {
    if k > 0 {
      ToggleItemsAt(items[1..], itemId, k - 1);
    }
  }

  /** Toggling the same id twice restores the list. */
  lemma {:induction false} ToggleItemsTwice(items: seq<RoadmapItem>, itemId: string)
    ensures ToggleItems(ToggleItems(items, itemId), itemId) == items
  {
    if items != [] {
      var once := ToggleItems(items, itemId);
      assert once[0] == Flip(items[0], itemId);
      assert once[1..] == ToggleItems(items[1..], itemId);
      ToggleItemsTwice(items[1..], itemId);
    }
  }

  /** Toggling an id no item has changes nothing. */
  lemma {:induction false} ToggleItemsUnknown(items: seq<RoadmapItem>, itemId: string)
    requires forall x :: x in items ==> x.id != itemId
    ensures ToggleItems(items, itemId) == items
  {
    if items != [] {
      assert items[0] in items;
      ToggleItemsUnknown(items[1..], itemId);
    }
  }

  /** Deleting removes exactly the items with the given id. */
  lemma RemoveItemsMembers(items: seq<RoadmapItem>, itemId: string, x: RoadmapItem)
    ensures x in RemoveItems(items, itemId) <==> x in items && x.id != itemId
  {
    FilterMembers(items, (it: RoadmapItem) => it.id != itemId, x);
  }

  /** Deleting keeps the relative order of the remaining items. */
  lemma RemoveItemsKeepsOrder(items: seq<RoadmapItem>, itemId: string)
    ensures IsSubsequence(RemoveItems(items, itemId), items)
  {
    FilterIsSubsequence(items, (it: RoadmapItem) => it.id != itemId);
  }

  /** Deleting an id no item has changes nothing. */
  lemma RemoveItemsUnknown(items: seq<RoadmapItem>, itemId: string)
    requires forall x :: x in items ==> x.id != itemId
    ensures RemoveItems(items, itemId) == items
  {
    var keep := (it: RoadmapItem) => it.id != itemId;
    assert forall i :: 0 <= i < |items| ==> keep(items[i]) by {
      forall i | 0 <= i < |items| ensures keep(items[i]) {
        assert items[i] in items;
      }
    }
    FilterKeepsAll(items, keep);
  }

  /** Deleting the same id twice is deleting it once. */
  lemma RemoveItemsIdempotent(items: seq<RoadmapItem>, itemId: string)
    ensures RemoveItems(RemoveItems(items, itemId), itemId) == RemoveItems(items, itemId)
  {
    FilterIdempotent(items, (it: RoadmapItem) => it.id != itemId);
  }

  /** A new milestone starts incomplete, so adding one keeps the completed count. */
  lemma CompletedCountAppendNew(items: seq<RoadmapItem>, item: RoadmapItem)
    requires !item.completed
    ensures CompletedCount(items + [item]) == CompletedCount(items)
    ensures |items + [item]| == |items| + 1
  {
    var keep := (it: RoadmapItem) => it.completed;
    FilterAppend(items, [item], keep);
    assert [item][1..] == [];
  }

  /** The completed count reaches the total exactly when every item is completed. */
  lemma {:induction false} CompletedCountAll(items: seq<RoadmapItem>)
    ensures CompletedCount(items) == |items| <==> forall x :: x in items ==> x.completed
  {
    if items != [] {
      CompletedCountAll(items[1..]);
      var keep := (it: RoadmapItem) => it.completed;
      assert Filter(items, keep) == (if keep(items[0]) then [items[0]] else []) + Filter(items[1..], keep);
      assert forall x :: x in items <==> x == items[0] || x in items[1..];
    }
  }

  /** The completed count is zero exactly when no item is completed. */
  lemma {:induction false} CompletedCountNone(items: seq<RoadmapItem>)
    ensures CompletedCount(items) == 0 <==> forall x :: x in items ==> !x.completed
  {
    if items != [] {
      CompletedCountNone(items[1..]);
      var keep := (it: RoadmapItem) => it.completed;
      assert Filter(items, keep) == (if keep(items[0]) then [items[0]] else []) + Filter(items[1..], keep);
      assert forall x :: x in items <==> x == items[0] || x in items[1..];
    }
  }

  // ----- subjects -----

  /** The map over subjects changes exactly the subjects with the given id, in place. */
  lemma {:induction false} UpdateSubjectsAt(subjects: seq<Subject>, subjectId: string, change: ItemChange, k: nat)
    requires k < |subjects|
    ensures UpdateSubjects(subjects, subjectId, change)[k]
         == if subjects[k].id == subjectId then Changed(subjects[k], change) else subjects[k]
  {
    if k > 0 {
      UpdateSubjectsAt(subjects[1..], subjectId, change, k - 1);
    }
  }

  /** A change aimed at an id no subject has changes nothing. */
  lemma {:induction false} UpdateSubjectsUnknown(subjects: seq<Subject>, subjectId: string, change: ItemChange)
    requires FindById(subjects, subjectId).None?
    ensures UpdateSubjects(subjects, subjectId, change) == subjects
  {
    if subjects != [] {
      assert subjects[0] in subjects;
      UpdateSubjectsUnknown(subjects[1..], subjectId, change);
    }
  }

  /** Toggling the same milestone of the same subject twice restores every subject. */
  lemma {:induction false} UpdateSubjectsToggleTwice(subjects: seq<Subject>, subjectId: string, itemId: string)
    ensures UpdateSubjects(UpdateSubjects(subjects, subjectId, Toggle(itemId)), subjectId, Toggle(itemId)) == subjects
  {
    if subjects != [] {
      var once := UpdateSubjects(subjects, subjectId, Toggle(itemId));
      assert once[1..] == UpdateSubjects(subjects[1..], subjectId, Toggle(itemId));
      ToggleItemsTwice(subjects[0].roadmapItems, itemId);
      UpdateSubjectsToggleTwice(subjects[1..], subjectId, itemId);
    }
  }

  /** `find` returns the first subject with the id, and nothing when there is none. */
  lemma {:induction false} FindByIdFirst(subjects: seq<Subject>, id: string, k: nat)
    requires k < |subjects| && subjects[k].id == id
    requires forall j :: 0 <= j < k ==> subjects[j].id != id
    ensures FindById(subjects, id) == Some(subjects[k])
  {
    if k > 0 {
      FindByIdFirst(subjects[1..], id, k - 1);
    }
  }

  /** Appending a subject does not change which subject an existing id finds. */
  lemma {:induction false} FindByIdAppend(subjects: seq<Subject>, s: Subject, id: string)
    ensures FindById(subjects + [s], id)
         == if FindById(subjects, id).Some? then FindById(subjects, id)
            else if s.id == id then Some(s) else None
  {
    if subjects == [] {
      assert [] + [s] == [s];
    } else {
      assert (subjects + [s])[0] == subjects[0];
      assert (subjects + [s])[1..] == subjects[1..] + [s];
      FindByIdAppend(subjects[1..], s, id);
    }
  }

  /** After the map, looking the changed id up finds the changed version of what it found before. */
  lemma {:induction false} FindByIdUpdated(subjects: seq<Subject>, subjectId: string, change: ItemChange)
    ensures FindById(UpdateSubjects(subjects, subjectId, change), subjectId)
         == match FindById(subjects, subjectId)
            case None => None
            case Some(s) => Some(Changed(s, change))
  {
    if subjects != [] {
      var r := UpdateSubjects(subjects, subjectId, change);
      assert r[1..] == UpdateSubjects(subjects[1..], subjectId, change);
      FindByIdUpdated(subjects[1..], subjectId, change);
    }
  }

  /** Removing subjects hides the removed id and leaves every other lookup alone. */
  lemma {:induction false} FindByIdRemoved(subjects: seq<Subject>, subjectId: string, id: string)
    ensures FindById(RemoveSubjects(subjects, subjectId), id)
         == if id == subjectId then None else FindById(subjects, id)
  {
    if subjects != [] {
      var keep := (s: Subject) => s.id != subjectId;
      var rest := RemoveSubjects(subjects[1..], subjectId);
      FindByIdRemoved(subjects[1..], subjectId, id);
      if keep(subjects[0]) {
        assert RemoveSubjects(subjects, subjectId) == [subjects[0]] + rest;
        assert ([subjects[0]] + rest)[1..] == rest;
      } else {
        assert RemoveSubjects(subjects, subjectId) == rest;
      }
    }
  }

  /** Deleting removes exactly the subjects with the given id. */
  lemma RemoveSubjectsMembers(subjects: seq<Subject>, subjectId: string, s: Subject)
    ensures s in RemoveSubjects(subjects, subjectId) <==> s in subjects && s.id != subjectId
  {
    FilterMembers(subjects, (x: Subject) => x.id != subjectId, s);
  }

  /** Deleting keeps the relative order of the remaining subjects. */
  lemma RemoveSubjectsKeepsOrder(subjects: seq<Subject>, subjectId: string)
    ensures IsSubsequence(RemoveSubjects(subjects, subjectId), subjects)
  {
    FilterIsSubsequence(subjects, (x: Subject) => x.id != subjectId);
  }

  /** Deleting an id no subject has changes nothing. */
  lemma RemoveSubjectsUnknown(subjects: seq<Subject>, subjectId: string)
    requires FindById(subjects, subjectId).None?
    ensures RemoveSubjects(subjects, subjectId) == subjects
  {
    var keep := (x: Subject) => x.id != subjectId;
    assert forall i :: 0 <= i < |subjects| ==> keep(subjects[i]) by {
      forall i | 0 <= i < |subjects| ensures keep(subjects[i]) {
        assert subjects[i] in subjects;
      }
    }
    FilterKeepsAll(subjects, keep);
  }

  // ----- the projection invariant -----

  /** Appending a subject keeps the projection. */
  lemma ProjectedAppend(subjects: seq<Subject>, selected: Option<Subject>, s: Subject)
    requires Projected(subjects, selected)
    ensures Projected(subjects + [s], selected)
  {
    if selected.Some? {
      FindByIdAppend(subjects, s, selected.value.id);
    }
  }

  /** The add-milestone handler rebuilds the projection from the old one; that
      agrees with the canonical list exactly because the invariant held before. */
  lemma ProjectedAppendItem(subjects: seq<Subject>, selected: Subject, item: RoadmapItem)
    requires Projected(subjects, Some(selected))
    ensures Projected(UpdateSubjects(subjects, selected.id, Append(item)),
                      Some(selected.(roadmapItems := selected.roadmapItems + [item])))
  {
    FindByIdUpdated(subjects, selected.id, Append(item));
  }

  /** Re-deriving the projection by `find` after a change yields the old projection, changed. */
  lemma ProjectedChange(subjects: seq<Subject>, selected: Subject, change: ItemChange)
    requires Projected(subjects, Some(selected))
    ensures FindById(UpdateSubjects(subjects, selected.id, change), selected.id) == Some(Changed(selected, change))
  {
    FindByIdUpdated(subjects, selected.id, change);
  }

  /** Deleting a subject other than the selected one keeps the projection; deleting
      the selected one leaves it dangling. */
  lemma ProjectedRemove(subjects: seq<Subject>, selected: Option<Subject>, subjectId: string)
    requires Projected(subjects, selected)
    ensures Projected(RemoveSubjects(subjects, subjectId), selected)
        <==> selected.None? || selected.value.id != subjectId
  {
    if selected.Some? {
      FindByIdRemoved(subjects, subjectId, selected.value.id);
    }
  }

  /** Picking a subject from the list is a valid projection exactly when it is
      the first subject with its id; distinct ids make every pick valid. */
  lemma ProjectedSelect(subjects: seq<Subject>, k: nat)
    requires k < |subjects|
    requires UniqueIds(subjects)
    ensures Projected(subjects, Some(subjects[k]))
  {
    FindByIdFirst(subjects, subjects[k].id, k);
  }

  /** Toggling the same milestone twice, re-deriving the projection each time,
      restores both the list and the projection: the first toggle shows the
      selection toggled, the second shows the original selection. */
  lemma ToggleTwiceRestores(subjects: seq<Subject>, selected: Subject, itemId: string)
    requires Projected(subjects, Some(selected))
    ensures var once := UpdateSubjects(subjects, selected.id, Toggle(itemId));
            var shown := selected.(roadmapItems := ToggleItems(selected.roadmapItems, itemId));
            var twice := UpdateSubjects(once, shown.id, Toggle(itemId));
            && FindById(once, selected.id) == Some(shown)
            && twice == subjects
            && FindById(twice, shown.id) == Some(shown.(roadmapItems := ToggleItems(shown.roadmapItems, itemId)))
            && shown.(roadmapItems := ToggleItems(shown.roadmapItems, itemId)) == selected
  {
    FindByIdUpdated(subjects, selected.id, Toggle(itemId));
    UpdateSubjectsToggleTwice(subjects, selected.id, itemId);
    ToggleItemsTwice(selected.roadmapItems, itemId);
  }

  /** A subject added under a fresh id keeps the ids distinct. */
  lemma UniqueIdsAppend(subjects: seq<Subject>, s: Subject)
    requires UniqueIds(subjects)
    requires FindById(subjects, s.id).None?
    ensures UniqueIds(subjects + [s])
  {
    var r := subjects + [s];
    forall i, j | 0 <= i < j < |r| ensures r[i].id != r[j].id {
      if j == |subjects| {
        assert r[i] == subjects[i] && subjects[i] in subjects;
      }
    }
  }
}
