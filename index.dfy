/** The state store of the page component: three state cells and one method
    per handler. Each handler is one atomic transition; the persist effect that
    React runs after a change is the separate method `Save`. */
module Index {
  import opened Wrappers
  import opened Roadmap
  import opened Persistence
  import opened Dialogs

  class Store {
    var subjects: seq<Subject>
    var selected: Option<Subject>
    var hasLoaded: bool

    /** The selected subject, when there is one, is the list's entry under its id. */
    ghost predicate Valid()
      reads this
    {
      Projected(subjects, selected)
    }

    function State(): (r: Snapshot)
      reads this
    {
      Snapshot(subjects, selected)
    }

    /** The state cells' initial values at mount. */
    constructor ()
      ensures subjects == [] && selected == None && !hasLoaded
      ensures Valid()
    {
      subjects := [];
      selected := None;
      hasLoaded := false;
    }

    /** The load effect: rehydrate from storage, then mark the store loaded,
        whatever was or was not stored. */
    method Load(storage: Storage, parse: string -> Parsed)
      modifies this
      ensures State() == Rehydrated(storage.entries, parse, old(State()))
      ensures hasLoaded
      ensures old(selected).None? ==> Valid()
    {
      var saved := storage.GetItem(SubjectsKey);
      if saved.Some? && saved.value != "" {
        var parsed := parse(saved.value);
        if parsed.SubjectList? {
          subjects := parsed.subjects;
          var savedSelectedId := storage.GetItem(SelectedKey);
          if savedSelectedId.Some? && savedSelectedId.value != "" {
            var found := FindById(parsed.subjects, savedSelectedId.value);
            if found.Some? {
              selected := found;
            }
          }
        }
      }
      hasLoaded := true;
    }

    /** The persist effect: nothing before the first load; afterwards the whole
        state is written, and a write that throws is swallowed. The in-memory
        state never changes. */
    method Save(storage: Storage, stringify: seq<Subject> -> string, fault: Fault)
      modifies storage
      ensures !hasLoaded ==> storage.entries == old(storage.entries)
      ensures hasLoaded ==> storage.entries == Persisted(old(storage.entries), subjects, selected, stringify, fault)
      ensures unchanged(this)
    {
      if !hasLoaded {
        return;
      }
      if fault == ThrowsOnSubjects {
        return;
      }
      storage.SetItem(SubjectsKey, stringify(subjects));
      if fault == ThrowsOnSelection {
        return;
      }
      if selected.Some? {
        storage.SetItem(SelectedKey, selected.value.id);
      } else {
        storage.RemoveItem(SelectedKey);
      }
    }

    /** Append a new subject with no milestones; the selection is untouched. */
    method AddSubject(id: string, title: string, description: string)
      requires NonBlank(title)
      modifies this`subjects
      ensures subjects == old(subjects) + [Subject(id, title, description, [])]
      ensures old(Valid()) ==> Valid()
    {
      ghost var wasValid := Valid();
      subjects := subjects + [Subject(id, title, description, [])];
      if wasValid {
        ProjectedAppend(old(subjects), selected, Subject(id, title, description, []));
      }
    }

    /** Append an incomplete milestone to every subject with the selected id and
        to the projection, which is rebuilt from the old projection; no
        selection, no change. */
    method AddRoadmapItem(id: string, title: string)
      requires NonBlank(title)
      modifies this`subjects, this`selected
      ensures old(selected).None? ==> subjects == old(subjects) && selected == None
      ensures old(selected).Some? ==>
                var sel := old(selected).value;
                var item := RoadmapItem(id, title, false);
                && subjects == UpdateSubjects(old(subjects), sel.id, Append(item))
                && selected == Some(sel.(roadmapItems := sel.roadmapItems + [item]))
      ensures old(Valid()) ==> Valid()
    {
      if selected.None? {
        return;
      }
      var sel := selected.value;
      var newItem := RoadmapItem(id, title, false);
      ghost var wasValid := Valid();
      if wasValid {
        ProjectedAppendItem(subjects, sel, newItem);
      }
      subjects := UpdateSubjects(subjects, sel.id, Append(newItem));
      selected := Some(sel.(roadmapItems := sel.roadmapItems + [newItem]));
    }

    /** Flip the milestones with the given id in every subject with the selected
        id, then re-derive the projection by lookup: it becomes the first
        subject with that id, changed, and stays as it was when there is none;
        no selection, no change. */
    method ToggleRoadmapItem(itemId: string)
      modifies this`subjects, this`selected
      ensures old(selected).None? ==> subjects == old(subjects) && selected == None
      ensures old(selected).Some? ==>
                var sel := old(selected).value;
                && subjects == UpdateSubjects(old(subjects), sel.id, Toggle(itemId))
                && selected == match FindById(old(subjects), sel.id)
                               case None => old(selected)
                               case Some(s) => Some(Changed(s, Toggle(itemId)))
      ensures old(Valid()) && old(selected).Some? ==>
                selected == Some(old(selected).value.(roadmapItems := ToggleItems(old(selected).value.roadmapItems, itemId)))
      ensures old(selected).Some? && FindById(old(subjects), old(selected).value.id).Some? ==> Valid()
      ensures old(Valid()) ==> Valid()
    {
      if selected.None? {
        return;
      }
      var sel := selected.value;
      FindByIdUpdated(subjects, sel.id, Toggle(itemId));
      var updatedSubjects := UpdateSubjects(subjects, sel.id, Toggle(itemId));
      subjects := updatedSubjects;
      var updated := FindById(updatedSubjects, sel.id);
      if updated.Some? {
        selected := updated;
      }
    }

    /** Remove the milestones with the given id from every subject with the
        selected id, then re-derive the projection by lookup: it becomes the
        first subject with that id, changed, and stays as it was when there is
        none; no selection, no change. */
    method DeleteRoadmapItem(itemId: string)
      modifies this`subjects, this`selected
      ensures old(selected).None? ==> subjects == old(subjects) && selected == None
      ensures old(selected).Some? ==>
                var sel := old(selected).value;
                && subjects == UpdateSubjects(old(subjects), sel.id, Delete(itemId))
                && selected == match FindById(old(subjects), sel.id)
                               case None => old(selected)
                               case Some(s) => Some(Changed(s, Delete(itemId)))
      ensures old(Valid()) && old(selected).Some? ==>
                selected == Some(old(selected).value.(roadmapItems := RemoveItems(old(selected).value.roadmapItems, itemId)))
      ensures old(selected).Some? && FindById(old(subjects), old(selected).value.id).Some? ==> Valid()
      ensures old(Valid()) ==> Valid()
    {
      if selected.None? {
        return;
      }
      var sel := selected.value;
      FindByIdUpdated(subjects, sel.id, Delete(itemId));
      var updatedSubjects := UpdateSubjects(subjects, sel.id, Delete(itemId));
      subjects := updatedSubjects;
      var updated := FindById(updatedSubjects, sel.id);
      if updated.Some? {
        selected := updated;
      }
    }

    /** Remove the subjects with the given id. The selection is not touched, so
        a valid store stays valid unless the selected subject itself is deleted. */
    method DeleteSubject(subjectId: string)
      modifies this`subjects
      ensures subjects == RemoveSubjects(old(subjects), subjectId)
      ensures old(Valid()) ==> (Valid() <==> selected.None? || selected.value.id != subjectId)
    {
      ghost var wasValid := Valid();
      if wasValid {
        ProjectedRemove(subjects, selected, subjectId);
      }
      subjects := RemoveSubjects(subjects, subjectId);
    }

    /** A click on the k-th subject card selects that subject as it is in the list. */
    method Select(k: nat)
      requires k < |subjects|
      modifies this`selected
      ensures selected == Some(subjects[k])
      ensures Valid() <==> FindById(subjects, subjects[k].id) == Some(subjects[k])
    {
      selected := Some(subjects[k]);
    }

    /** The back button clears the selection. */
    method Back()
      modifies this`selected
      ensures selected == None
      ensures Valid()
    {
      selected := None;
    }
  }

  /** First start-up, one subject, one milestone, one toggle: the list and the
      detail view agree. */
  method ScenarioToggle(parse: string -> Parsed)
  {
    var storage := new Storage(map[]);
    var store := new Store();
    store.Load(storage, parse);
    assert store.subjects == [] && store.selected == None;

    assert !IsJsWhitespace("Autoencoders"[0]);
    store.AddSubject("1", "Autoencoders", "");
    store.Select(0);
    assert !IsJsWhitespace("Read VAE paper"[0]);
    store.AddRoadmapItem("2", "Read VAE paper");
    assert store.subjects[0].roadmapItems == [RoadmapItem("2", "Read VAE paper", false)];
    store.ToggleRoadmapItem("2");
    assert store.selected.value.roadmapItems == [RoadmapItem("2", "Read VAE paper", true)];
    assert store.subjects[0] == store.selected.value;
  }

  /** Two subjects under one id: picking the second leaves the projection
      diverged, and the next toggle re-derives it as the first, toggled. */
  method ScenarioDuplicateIds()
  {
    var store := new Store();
    assert !IsJsWhitespace("A"[0]) && !IsJsWhitespace("B"[0]);
    store.AddSubject("x", "A", "");
    store.AddSubject("x", "B", "");
    store.Select(1);
    assert !store.Valid();
    store.ToggleRoadmapItem("m");
    assert store.selected == Some(Subject("x", "A", "", []));
    assert store.Valid();
  }

  /** What a store saves comes back in a store started afresh. */
  method ScenarioRestart(store: Store, parse: string -> Parsed, stringify: seq<Subject> -> string)
    requires store.Valid() && store.hasLoaded
    requires parse(stringify(store.subjects)) == SubjectList(store.subjects) && stringify(store.subjects) != ""
    requires store.selected.Some? ==> store.selected.value.id != ""
  {
    var storage := new Storage(map[]);
    store.Save(storage, stringify, NoFault);
    SaveThenLoad(map[], store.subjects, store.selected, stringify, parse);
    var next := new Store();
    next.Load(storage, parse);
    assert next.State() == store.State();
  }
}
