/** The browser's persistent key-value storage as the page component uses it:
    two string-valued keys, a best-effort write of the whole state after every
    change, and a one-time read at start-up. The JSON serialiser is not modelled;
    it enters as a pair of function parameters. */
module Persistence {
  import opened Wrappers
  import opened Roadmap

  const SubjectsKey: string := "neuroRoute.subjects"
  const SelectedKey: string := "neuroRoute.selectedSubjectId"

  /** What `JSON.parse` followed by `Array.isArray` makes of the stored text. */
  datatype Parsed =
    | Malformed                           // JSON.parse threw
    | NotAnArray                          // well-formed, but not an array
    | SubjectList(subjects: seq<Subject>) // an array of subjects

  /** Which storage write throws during a save (quota exceeded, storage disabled). */
  datatype Fault = NoFault | ThrowsOnSubjects | ThrowsOnSelection

  /** The in-memory state that is saved and restored. */
  datatype Snapshot = Snapshot(subjects: seq<Subject>, selected: Option<Subject>)

  /** The durable storage area: a string-to-string map. */
  class Storage {
    var entries: map<string, string>

    constructor (entries: map<string, string>)
      ensures this.entries == entries
    {
      this.entries := entries;
    }

    /** `localStorage.getItem(key)`: null when the key is absent. */
    function GetItem(key: string): (r: Option<string>)
      reads this
      ensures r.Some? <==> key in entries
      ensures r.Some? ==> r.value == entries[key]
    {
      if key in entries then Some(entries[key]) else None
    }

    method SetItem(key: string, value: string)
      modifies this
      ensures entries == old(entries)[key := value]
    {
      entries := entries[key := value];
    }

    method RemoveItem(key: string)
      modifies this
      ensures entries == old(entries) - {key}
    {
      entries := entries - {key};
    }
  }

  /** The storage contents after one save of `subjects` and `selected` from
      `entries`: the subjects key is written first, then the selection key is
      written or removed; a write that throws ends the save. */
  function Persisted(entries: map<string, string>, subjects: seq<Subject>, selected: Option<Subject>,
                     stringify: seq<Subject> -> string, fault: Fault): (r: map<string, string>)
    ensures fault == ThrowsOnSubjects ==> r == entries
    ensures fault != ThrowsOnSubjects ==> SubjectsKey in r && r[SubjectsKey] == stringify(subjects)
    ensures forall k :: k != SubjectsKey && k != SelectedKey ==>
              (k in r <==> k in entries) && (k in r ==> r[k] == entries[k])
  {
    if fault == ThrowsOnSubjects then entries
    else
      var written := entries[SubjectsKey := stringify(subjects)];
      if fault == ThrowsOnSelection then written
      else match selected
        case Some(s) => written[SelectedKey := s.id]
        case None => written - {SelectedKey}
  }

  /** The state after the start-up read, from `current` (the state before it).
      Missing or empty stored text, text that does not parse, and text that is
      not an array all leave `current` as it is. An array replaces the subjects;
      a non-empty stored selection id then selects the first subject with that
      id, and otherwise the selection stays. */
  function Rehydrated(entries: map<string, string>, parse: string -> Parsed, current: Snapshot): (r: Snapshot)
    ensures r.subjects == current.subjects
            || (SubjectsKey in entries && parse(entries[SubjectsKey]) == SubjectList(r.subjects))
    ensures r.selected == current.selected
            || (r.selected.Some? && Projected(r.subjects, r.selected)
                && SelectedKey in entries && r.selected.value.id == entries[SelectedKey])
  {
    if SubjectsKey !in entries || entries[SubjectsKey] == "" then current
    else match parse(entries[SubjectsKey])
      case SubjectList(xs) =>
        var selected :=
          if SelectedKey in entries && entries[SelectedKey] != "" && FindById(xs, entries[SelectedKey]).Some?
          then FindById(xs, entries[SelectedKey])
          else current.selected;
        Snapshot(xs, selected)
      case _ => current
  }

  /** A save without a fault writes the subjects' text, and the selection id
      exactly when there is a selection; no other key changes. */
  lemma PersistedWrites(entries: map<string, string>, subjects: seq<Subject>, selected: Option<Subject>,
                        stringify: seq<Subject> -> string, key: string)
    ensures var after := Persisted(entries, subjects, selected, stringify, NoFault);
            && SubjectsKey in after && after[SubjectsKey] == stringify(subjects)
            && (SelectedKey in after <==> selected.Some?)
            && (selected.Some? ==> after[SelectedKey] == selected.value.id)
            && (key != SubjectsKey && key != SelectedKey ==>
                  (key in after <==> key in entries) && (key in entries ==> after[key] == entries[key]))
  {
  }

  /** A save interrupted at the first write leaves storage as it was; one
      interrupted at the second write has written the subjects only. */
  lemma PersistedFaults(entries: map<string, string>, subjects: seq<Subject>, selected: Option<Subject>,
                        stringify: seq<Subject> -> string)
    ensures Persisted(entries, subjects, selected, stringify, ThrowsOnSubjects) == entries
    ensures Persisted(entries, subjects, selected, stringify, ThrowsOnSelection)
         == entries[SubjectsKey := stringify(subjects)]
  {
  }

  /** Nothing usable stored: the start-up state is kept. */
  lemma RehydratedNothingStored(entries: map<string, string>, parse: string -> Parsed, current: Snapshot)
    requires SubjectsKey !in entries || entries[SubjectsKey] == "" || !parse(entries[SubjectsKey]).SubjectList?
    ensures Rehydrated(entries, parse, current) == current
  {
  }

  /** From the initial empty state, the start-up read always produces a state
      whose selection is a valid projection of its subjects. */
  lemma RehydratedProjected(entries: map<string, string>, parse: string -> Parsed)
    ensures var r := Rehydrated(entries, parse, Snapshot([], None));
            Projected(r.subjects, r.selected)
  {
  }

  /** Saving a valid state and reading it back at the next start-up restores it,
      provided the serialiser round-trips, never produces the empty text, and the
      selected id is non-empty (the read skips empty strings). */
  lemma SaveThenLoad(entries: map<string, string>, subjects: seq<Subject>, selected: Option<Subject>,
                     stringify: seq<Subject> -> string, parse: string -> Parsed)
    requires parse(stringify(subjects)) == SubjectList(subjects)
    requires stringify(subjects) != ""
    requires Projected(subjects, selected)
    requires selected.Some? ==> selected.value.id != ""
    ensures Rehydrated(Persisted(entries, subjects, selected, stringify, NoFault), parse, Snapshot([], None))
         == Snapshot(subjects, selected)
  {
    var after := Persisted(entries, subjects, selected, stringify, NoFault);
    assert after[SubjectsKey] == stringify(subjects);
    assert SelectedKey in after <==> selected.Some?;
  }
}
