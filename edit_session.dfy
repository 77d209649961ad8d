/** The biography page's editing session: the loaded biography, the edit
    mode flag, the working copy being edited and the compacted log of
    edits, with one method per handler of the page. */
module EditSession {
  import opened Strings
  import opened Wrappers
  import opened BiographyTypes
  import opened BiographyUtils
  import opened TreeEdits

  // ---------------------------------------------------------------------
  // The edits each handler logs

  function RenameEdit(sectionId: string, oldTitle: string, newTitle: string, timestamp: int): BiographyEdit {
    BiographyEdit(Rename, sectionId, oldTitle, Some(NoData.(newTitle := Some(newTitle))), timestamp)
  }

  function AddEdit(section: Section, parentTitle: Option<string>, sectionPrompt: string, timestamp: int): BiographyEdit {
    BiographyEdit(Add, section.id, section.title,
                  Some(NoData.(parentTitle := parentTitle, sectionPrompt := Some(sectionPrompt))), timestamp)
  }

  /** A delete carries no payload. */
  function DeleteEdit(sectionId: string, title: string, timestamp: int): BiographyEdit {
    BiographyEdit(Delete, sectionId, title, None, timestamp)
  }

  function CommentEdit(section: Section, selectedText: string, comment: string, timestamp: int): BiographyEdit {
    BiographyEdit(Comment, section.id, section.title,
                  Some(NoData.(comment := Some(CommentNote(selectedText, comment)))), timestamp)
  }

  // ---------------------------------------------------------------------
  // Adding a section

  /** The section `handleAddSection` creates: id from the clock, title
      `number + " " + name`, the prompt behind a fixed prefix as content,
      no subsections and both dates set to the same instant. */
  function NewSection(sectionNumber: string, name: string, sectionPrompt: string, now: nat, isoNow: string): Section {
    Section("section-" + DecimalString(now), sectionNumber + " " + name,
            "AI Writing Suggestions:" + sectionPrompt, isoNow, isoNow, [], None)
  }

  /** Where the new section goes: under the key the parent lookup returns,
      or among the top-level sections (re-sorted) when the lookup gives
      nothing or the empty key. The section is stored under its own id. */
  function AddSection(s: seq<Entry>, sectionNumber: string, ns: Section): seq<Entry> {
    var parent := FindParentSection(s, sectionNumber);
    if parent.None? || parent.value == "" then WithNewEntry(s, Entry(ns.id, ns))
    else AddUnder(s, parent.value, Entry(ns.id, ns))
  }

  /** Whatever branch is taken, the new section ends up in the tree. */
  lemma AddSectionReaches(s: seq<Entry>, sectionNumber: string, ns: Section)
    ensures ns.id in Ids(AddSection(s, sectionNumber, ns))
    ensures SectionNumber(ns.title) in CollectSectionNumbers(AddSection(s, sectionNumber, ns))
  {
    var e := Entry(ns.id, ns);
    var parent := FindParentSection(s, sectionNumber);
    if parent.None? || parent.value == "" {
      var put := PutEntry(s, e.key, e.section);
      assert e in multiset(put);
      assert e in WithNewEntry(s, e);
      TopLevelVisited(e, WithNewEntry(s, e));
    } else {
      FindSectionNumberFindsKey(s, ParentNumber(sectionNumber));
      AddUnderReaches(s, parent.value, e);
    }
  }

  /** With keys unique across the tree and a fresh id, adding a section
      grows the tree by exactly one section. */
  lemma AddSectionGrows(s: seq<Entry>, sectionNumber: string, ns: Section)
    requires Distinct(Keys(s)) && ns.id !in Keys(s) && ns.subsections == []
    ensures |Ids(AddSection(s, sectionNumber, ns))| == |Ids(s)| + 1
  {
    var e := Entry(ns.id, ns);
    var parent := FindParentSection(s, sectionNumber);
    assert Ids([e]) == [ns.id];
    if parent.None? || parent.value == "" {
      assert e.key !in SiblingKeys(s) by {
        forall j | 0 <= j < |s| ensures s[j].key != e.key {
          KeysOfTopLevel(s, j);
        }
      }
      IdsAppend(s, [e]);
      SortSectionsByNumberIds(PutEntry(s, e.key, e.section));
    } else {
      FindSectionNumberFindsKey(s, ParentNumber(sectionNumber));
      AddUnderGrows(s, parent.value, e);
    }
  }

  /** Where the new section lands: with no parent number, or a parent
      found under the empty key, into the top-level collection, re-sorted;
      otherwise the section stored under the parent's key gains it among
      its subsections, re-sorted, and keeps every other field. */
  lemma AddSectionPlacement(s: seq<Entry>, sectionNumber: string, ns: Section)
    requires Distinct(Keys(s))
    ensures var parent := FindParentSection(s, sectionNumber);
      parent.None? || parent.value == "" ==> AddSection(s, sectionNumber, ns) == WithNewEntry(s, Entry(ns.id, ns))
    ensures var parent := FindParentSection(s, sectionNumber);
      parent.Some? && parent.value != "" ==>
        parent.value in Keys(s) &&
        FindByKey(AddSection(s, sectionNumber, ns), parent.value)
          == Some(FindByKey(s, parent.value).value.(subsections := WithNewEntry(ChildrenOf(s, parent.value), Entry(ns.id, ns))))
  {
    var parent := FindParentSection(s, sectionNumber);
    if parent.Some? && parent.value != "" {
      FindSectionNumberFindsKey(s, ParentNumber(sectionNumber));
      AddUnderReceives(s, parent.value, Entry(ns.id, ns));
    }
  }

  /** With keys unique across the tree and the new section, every section
      other than the receiving parent is still found under its key, with
      the same fields and the same subsection keys in order. */
  lemma AddSectionKeepsOthers(s: seq<Entry>, sectionNumber: string, ns: Section, key: string)
    requires Distinct(Keys(s) + Keys([Entry(ns.id, ns)])) && key in Keys(s)
    requires var parent := FindParentSection(s, sectionNumber);
      parent.None? || parent.value == "" || key != parent.value
    ensures FindByKey(AddSection(s, sectionNumber, ns), key).Some?
    ensures SameApartFromChildren(FindByKey(AddSection(s, sectionNumber, ns), key).value, FindByKey(s, key).value)
  {
    var e := Entry(ns.id, ns);
    var parent := FindParentSection(s, sectionNumber);
    if parent.None? || parent.value == "" {
      DistinctAppend(Keys(s), Keys([e]));
      assert Keys([e])[0] == e.key;
      PutFreshEntry(s, e);
      KeysAppend(s, [e]);
      FindByKeySort(s + [e], key);
      FindByKeyAppend(s, [e], key);
    } else {
      AddUnderKeepsOthers(s, parent.value, e, key);
    }
  }

  // ---------------------------------------------------------------------
  // Saving

  /** The numbers of the logged ADD edits that some section already
      carries, in log order. */
  function DuplicateNumbers(log: seq<BiographyEdit>, existing: seq<string>): (r: seq<string>)
    ensures |r| <= |log|
    ensures forall n :: n in r <==>
      n in existing && exists i :: 0 <= i < |log| && log[i].kind == Add && SectionNumber(log[i].title) == n
    decreases log
  {
    if log == [] then []
    else
      var rest := DuplicateNumbers(log[1..], existing);
      var n := SectionNumber(log[0].title);
      assert forall i :: 0 < i < |log| ==> log[i] == log[1..][i - 1];
      if log[0].kind == Add && n in existing then [n] + rest else rest
  }

  /** `numbers.join(', ')`. */
  function JoinComma(parts: seq<string>): string
    decreases |parts|
  {
    if |parts| == 0 then ""
    else if |parts| == 1 then parts[0]
    else parts[0] + ", " + JoinComma(parts[1..])
  }

  function DuplicateMessage(numbers: seq<string>): string {
    "Sections with numbers " + JoinComma(numbers) + " already exist. Please use different numbers."
  }

  /** The numbers the save check compares against: those of the working
      copy, or none when there is no working copy. */
  function ExistingNumbers(edited: Option<Biography>): seq<string> {
    if edited.Some? then CollectSectionNumbers(edited.value.subsections) else []
  }

  /** A section added in this session is still in the working copy when
      the session is saved, and its number is compared against that same
      working copy: the save is refused with that number reported. */
  lemma SaveAfterAddIsRefused(b: Biography, log: seq<BiographyEdit>, sectionNumber: string, name: string,
                              sectionPrompt: string, now: nat, isoNow: string, timestamp: int)
    requires ' ' !in sectionNumber
    ensures var ns := NewSection(sectionNumber, name, sectionPrompt, now, isoNow);
      var parent := FindParentSection(b.subsections, sectionNumber);
      var edited := Some(b.(subsections := AddSection(b.subsections, sectionNumber, ns)));
      var log' := AddOrUpdateEdit(log, AddEdit(ns, parent, sectionPrompt, timestamp));
      sectionNumber in DuplicateNumbers(log', ExistingNumbers(edited))
  {
    var ns := NewSection(sectionNumber, name, sectionPrompt, now, isoNow);
    var parent := FindParentSection(b.subsections, sectionNumber);
    NumberOfFullTitle(sectionNumber, name);
    AddSectionReaches(b.subsections, sectionNumber, ns);
    var log' := AddOrUpdateEdit(log, AddEdit(ns, parent, sectionPrompt, timestamp));
    assert log'[|log'| - 1].kind == Add;
  }

  // ---------------------------------------------------------------------
  // The page state

  class BiographyPage {
    var biography: Option<Biography>
    var editMode: bool
    var editedBiography: Option<Biography>
    var edits: seq<BiographyEdit>

    /** The log never holds two non-comment edits of one kind on one
        section. */
    ghost predicate Valid()
      reads this
    {
      Compacted(edits)
    }

    /** The page once the biography has been fetched (`None` when the fetch
        gave nothing). */
    constructor (loaded: Option<Biography>)
      ensures Valid()
      ensures biography == loaded && !editMode && editedBiography == None && edits == []
    {
      biography := loaded;
      editMode := false;
      editedBiography := None;
      edits := [];
    }

    /** Enter edit mode on a copy of the biography. */
    method HandleEdit()
      requires Valid()
      modifies this
      ensures Valid()
      ensures editMode && editedBiography == biography
      ensures biography == old(biography) && edits == old(edits)
    {
      editMode := true;
      editedBiography := biography;
    }

    /** Refuse the save when an ADD edit's number is already used in the
        working copy; otherwise publish the working copy and clear the log.
        The working copy itself is kept. */
    method HandleSave() returns (saved: bool, errorMessage: string)
      requires Valid()
      modifies this
      ensures Valid()
      ensures var dups := DuplicateNumbers(old(edits), ExistingNumbers(old(editedBiography)));
        (saved <==> dups == []) &&
        (!saved ==> errorMessage == DuplicateMessage(dups))
      ensures saved ==> biography == old(editedBiography) && !editMode && edits == [] && errorMessage == ""
      ensures !saved ==> biography == old(biography) && editMode == old(editMode) && edits == old(edits)
      ensures editedBiography == old(editedBiography)
    {
      var existing := ExistingNumbers(editedBiography);
      var duplicates := DuplicateNumbers(edits, existing);
      if |duplicates| > 0 {
        saved := false;
        errorMessage := DuplicateMessage(duplicates);
        return;
      }
      biography := editedBiography;
      editMode := false;
      edits := [];
      saved := true;
      errorMessage := "";
    }

    /** Leave edit mode, dropping the working copy and the log. */
    method HandleCancel()
      requires Valid()
      modifies this
      ensures Valid()
      ensures !editMode && editedBiography == None && edits == [] && biography == old(biography)
    {
      editMode := false;
      editedBiography := None;
      edits := [];
    }

    method HandleBiographyTitleChange(sectionId: string, oldTitle: string, newTitle: string, timestamp: int)
      requires Valid()
      modifies this
      ensures Valid()
      ensures biography == old(biography) && editMode == old(editMode)
      ensures old(editedBiography).None? ==> editedBiography == None && edits == old(edits)
      ensures old(editedBiography).Some? ==>
        editedBiography == Some(old(editedBiography).value.(title := newTitle)) &&
        edits == AddOrUpdateEdit(old(edits), RenameEdit(sectionId, oldTitle, newTitle, timestamp))
    {
      if editedBiography.None? {
        return;
      }
      editedBiography := Some(editedBiography.value.(title := newTitle));
      AddOrUpdateEditKeepsCompacted(edits, RenameEdit(sectionId, oldTitle, newTitle, timestamp));
      edits := AddOrUpdateEdit(edits, RenameEdit(sectionId, oldTitle, newTitle, timestamp));
    }

    method HandleSectionTitleChange(sectionId: string, oldTitle: string, newTitle: string, timestamp: int)
      requires Valid()
      modifies this
      ensures Valid()
      ensures biography == old(biography) && editMode == old(editMode)
      ensures old(editedBiography).None? ==> editedBiography == None && edits == old(edits)
      ensures old(editedBiography).Some? ==>
        var b := old(editedBiography).value;
        editedBiography == Some(b.(subsections := RenameByKey(b.subsections, sectionId, newTitle))) &&
        edits == AddOrUpdateEdit(old(edits), RenameEdit(sectionId, oldTitle, newTitle, timestamp))
    {
      if editedBiography.None? {
        return;
      }
      var b := editedBiography.value;
      var subs := UpdateSectionTitle(b.subsections, sectionId, newTitle);
      editedBiography := Some(b.(subsections := subs));
      AddOrUpdateEditKeepsCompacted(edits, RenameEdit(sectionId, oldTitle, newTitle, timestamp));
      edits := AddOrUpdateEdit(edits, RenameEdit(sectionId, oldTitle, newTitle, timestamp));
    }

    /** `now` is the clock reading the id is made from, `isoNow` the same
        instant as an ISO string, `timestamp` the clock reading logged. */
    method HandleAddSection(sectionNumber: string, name: string, sectionPrompt: string,
                            now: nat, isoNow: string, timestamp: int)
      requires Valid()
      modifies this
      ensures Valid()
      ensures biography == old(biography) && editMode == old(editMode)
      ensures old(editedBiography).None? ==> editedBiography == None && edits == old(edits)
      ensures old(editedBiography).Some? ==>
        var b := old(editedBiography).value;
        var ns := NewSection(sectionNumber, name, sectionPrompt, now, isoNow);
        editedBiography == Some(b.(subsections := AddSection(b.subsections, sectionNumber, ns))) &&
        edits == AddOrUpdateEdit(old(edits),
                   AddEdit(ns, FindParentSection(b.subsections, sectionNumber), sectionPrompt, timestamp))
    {
      if editedBiography.None? {
        return;
      }
      var b := editedBiography.value;
      var ns := NewSection(sectionNumber, name, sectionPrompt, now, isoNow);
      var parentTitle := FindParentSection(b.subsections, sectionNumber);
      var subs;
      if parentTitle.None? || parentTitle.value == "" {
        subs := SortSectionsByNumber(PutEntry(b.subsections, ns.id, ns));
      } else {
        subs := UpdateSubsections(b.subsections, parentTitle.value, Entry(ns.id, ns));
      }
      editedBiography := Some(b.(subsections := subs));
      var e := AddEdit(ns, parentTitle, sectionPrompt, timestamp);
      AddOrUpdateEditKeepsCompacted(edits, e);
      edits := AddOrUpdateEdit(edits, e);
    }

    method HandleDeleteSection(sectionId: string, title: string, timestamp: int)
      requires Valid()
      modifies this
      ensures Valid()
      ensures biography == old(biography) && editMode == old(editMode)
      ensures old(editedBiography).None? ==> editedBiography == None && edits == old(edits)
      ensures old(editedBiography).Some? ==>
        var b := old(editedBiography).value;
        editedBiography == Some(b.(subsections := DeleteById(b.subsections, sectionId))) &&
        edits == AddOrUpdateEdit(old(edits), DeleteEdit(sectionId, title, timestamp))
    {
      if editedBiography.None? {
        return;
      }
      var b := editedBiography.value;
      var subs := DeleteSection(b.subsections, sectionId);
      editedBiography := Some(b.(subsections := subs));
      AddOrUpdateEditKeepsCompacted(edits, DeleteEdit(sectionId, title, timestamp));
      edits := AddOrUpdateEdit(edits, DeleteEdit(sectionId, title, timestamp));
    }

    /** Comments are logged whether or not there is a working copy, and
        they accumulate. */
    method HandleAddComment(section: Section, selectedText: string, comment: string, timestamp: int)
      requires Valid()
      modifies this
      ensures Valid()
      ensures biography == old(biography) && editMode == old(editMode) && editedBiography == old(editedBiography)
      ensures edits == old(edits) + [CommentEdit(section, selectedText, comment, timestamp)]
    {
      AddOrUpdateEditKeepsCompacted(edits, CommentEdit(section, selectedText, comment, timestamp));
      edits := AddOrUpdateEdit(edits, CommentEdit(section, selectedText, comment, timestamp));
    }
  }
}
