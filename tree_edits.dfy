/** The structural edits the biography editor applies to its working copy of
    the section tree: retitling the entry stored under a key, adding a
    section into the collection stored under a parent key, deleting the
    section with a given id together with its subtree, and collecting every
    section number in pre-order for the save-time duplicate check. Each
    edit is a loop over a copied collection that recurses into
    subsections; the function beside it is its specification. */
module TreeEdits {
  import opened Strings
  import opened Wrappers
  import opened BiographyTypes
  import opened BiographyUtils

  // ---------------------------------------------------------------------
  // Projections used to state what an edit changes

  /** What a reader sees of a visited section: where it is stored, which
      section it is, its title and text, and its depth. */
  datatype Head = Head(key: string, id: string, title: string, content: string, level: int)

  function Heads(vs: seq<Visit>): (hs: seq<Head>)
    ensures |hs| == |vs|
    decreases vs
  {
    if vs == [] then []
    else
      var v := vs[0];
      [Head(v.key, v.section.id, v.section.title, v.section.content, v.level)] + Heads(vs[1..])
  }

  /** The heads with the title of every head stored under `key` replaced. */
  function Retitle(hs: seq<Head>, key: string, newTitle: string): (r: seq<Head>)
    ensures |r| == |hs|
    decreases hs
  {
    if hs == [] then []
    else [if hs[0].key == key then hs[0].(title := newTitle) else hs[0]] + Retitle(hs[1..], key, newTitle)
  }

  lemma {:induction false} HeadsAppend(a: seq<Visit>, b: seq<Visit>)
    ensures Heads(a + b) == Heads(a) + Heads(b)
    decreases a
  {
    if a == [] {
      assert a + b == b;
    } else {
      assert (a + b)[0] == a[0] && (a + b)[1..] == a[1..] + b;
      HeadsAppend(a[1..], b);
    }
  }

  lemma {:induction false} RetitleAppend(a: seq<Head>, b: seq<Head>, key: string, newTitle: string)
    ensures Retitle(a + b, key, newTitle) == Retitle(a, key, newTitle) + Retitle(b, key, newTitle)
    decreases a
  {
    if a == [] {
      assert a + b == b;
    } else {
      assert (a + b)[0] == a[0] && (a + b)[1..] == a[1..] + b;
      RetitleAppend(a[1..], b, key, newTitle);
    }
  }

  /** The heads of a tree in pre-order, split at its first entry. */
  lemma HeadsOfTree(s: seq<Entry>, level: int)
    requires s != []
    ensures Heads(Flatten(s, level)) ==
      [Head(s[0].key, s[0].section.id, s[0].section.title, s[0].section.content, level)]
      + Heads(Flatten(s[0].section.subsections, level + 1)) + Heads(Flatten(s[1..], level))
  {
    var v := Visit(s[0].key, s[0].section, level);
    HeadsAppend([v] + Flatten(s[0].section.subsections, level + 1), Flatten(s[1..], level));
    HeadsAppend([v], Flatten(s[0].section.subsections, level + 1));
  }

  /** Retitling under a key no entry of the tree is stored under changes
      no head. */
  lemma {:induction false} RetitleAbsent(s: seq<Entry>, level: int, key: string, newTitle: string)
    requires key !in Keys(s)
    ensures Retitle(Heads(Flatten(s, level)), key, newTitle) == Heads(Flatten(s, level))
    decreases s
  {
    if s != [] {
      HeadsOfTree(s, level);
      var h := [Head(s[0].key, s[0].section.id, s[0].section.title, s[0].section.content, level)];
      var sub := Heads(Flatten(s[0].section.subsections, level + 1));
      var rest := Heads(Flatten(s[1..], level));
      RetitleAppend(h + sub, rest, key, newTitle);
      RetitleAppend(h, sub, key, newTitle);
      RetitleAbsent(s[0].section.subsections, level + 1, key, newTitle);
      RetitleAbsent(s[1..], level, key, newTitle);
    }
  }

  // ---------------------------------------------------------------------
  // Rename: `updateSectionTitle`

  /** The first entry of each collection visited whose KEY equals `id` gets
      the new title; collections before it are searched recursively. */
  function RenameByKey(s: seq<Entry>, id: string, newTitle: string): seq<Entry>
    decreases s
  {
    if s == [] then []
    else if s[0].key == id then [Entry(s[0].key, s[0].section.(title := newTitle))] + s[1..]
    else
      [Entry(s[0].key, s[0].section.(subsections := RenameByKey(s[0].section.subsections, id, newTitle)))]
      + RenameByKey(s[1..], id, newTitle)
  }

  method UpdateSectionTitle(sections: seq<Entry>, id: string, newTitle: string) returns (r: seq<Entry>)
    ensures r == RenameByKey(sections, id, newTitle)
    decreases sections
  {
    r := sections;
    var i := 0;
    while i < |sections|
      invariant 0 <= i <= |sections| && |r| == |sections|
      invariant r[i..] == sections[i..]
      invariant RenameByKey(sections, id, newTitle) == r[..i] + RenameByKey(sections[i..], id, newTitle)
    {
      var e := sections[i];
      RenameByKeyStep(sections, i, id, newTitle);
      if e.key == id {
        var renamed := Entry(e.key, e.section.(title := newTitle));
        OverwriteLast(RenameByKey(sections, id, newTitle), r, sections, i, renamed);
        r := r[i := renamed];
        return;
      }
      var sub := UpdateSectionTitle(e.section.subsections, id, newTitle);
      var updated := Entry(e.key, e.section.(subsections := sub));
      OverwriteStep(RenameByKey(sections, id, newTitle), r, sections, i, updated,
                    RenameByKey(sections[i..], id, newTitle), RenameByKey(sections[i + 1..], id, newTitle));
      r := r[i := updated];
      i := i + 1;
    }
    assert sections[i..] == [] && r[..i] == r;
  }

  /** One step of the loop above, unfolded at position `i`. */
  lemma RenameByKeyStep(sections: seq<Entry>, i: int, id: string, newTitle: string)
    requires 0 <= i < |sections|
    ensures sections[i].key == id ==>
      RenameByKey(sections[i..], id, newTitle) == [Entry(sections[i].key, sections[i].section.(title := newTitle))] + sections[i + 1..]
    ensures sections[i].key != id ==>
      RenameByKey(sections[i..], id, newTitle)
      == [Entry(sections[i].key, sections[i].section.(subsections := RenameByKey(sections[i].section.subsections, id, newTitle)))]
         + RenameByKey(sections[i + 1..], id, newTitle)
  {
    assert sections[i..][0] == sections[i] && sections[i..][1..] == sections[i + 1..];
  }

  /** When no key of the tree equals `id`, renaming leaves the tree as it
      is. */
  lemma {:induction false} RenameByKeyAbsent(s: seq<Entry>, id: string, newTitle: string)
    requires id !in Keys(s)
    ensures RenameByKey(s, id, newTitle) == s
    decreases s
  {
    if s != [] {
      RenameByKeyAbsent(s[0].section.subsections, id, newTitle);
      RenameByKeyAbsent(s[1..], id, newTitle);
      assert s == [s[0]] + s[1..];
    }
  }

  /** With keys unique across the tree, a rename changes the title of the
      section stored under `id` and nothing else: every key, id, content
      and depth is kept, in the same pre-order. */
  lemma {:induction false} RenameByKeyChangesOnlyTitle(s: seq<Entry>, id: string, newTitle: string, level: int)
    requires Distinct(Keys(s))
    ensures Heads(Flatten(RenameByKey(s, id, newTitle), level)) == Retitle(Heads(Flatten(s, level)), id, newTitle)
    decreases s
  {
    if s != [] {
      var e := s[0];
      var subs := e.section.subsections;
      var r := RenameByKey(s, id, newTitle);
      DistinctAppend([e.key] + Keys(subs), Keys(s[1..]));
      DistinctAppend([e.key], Keys(subs));
      HeadsOfTree(s, level);
      HeadsOfTree(r, level);
      var h := [Head(e.key, e.section.id, e.section.title, e.section.content, level)];
      var hsub := Heads(Flatten(subs, level + 1));
      var hrest := Heads(Flatten(s[1..], level));
      RetitleAppend(h + hsub, hrest, id, newTitle);
      RetitleAppend(h, hsub, id, newTitle);
      if e.key == id {
        assert id !in Keys(subs) && id !in Keys(s[1..]);
        RetitleAbsent(subs, level + 1, id, newTitle);
        RetitleAbsent(s[1..], level, id, newTitle);
      } else {
        RenameByKeyChangesOnlyTitle(subs, id, newTitle, level + 1);
        RenameByKeyChangesOnlyTitle(s[1..], id, newTitle, level);
      }
    }
  }

  // ---------------------------------------------------------------------
  // Add: `{ ...collection, [key]: section }` and `updateSubsections`

  /** `{ ...s, [key]: section }`: replace in place when the key is present,
      otherwise append. */
  function PutEntry(s: seq<Entry>, key: string, section: Section): (r: seq<Entry>)
    ensures key !in SiblingKeys(s) ==> r == s + [Entry(key, section)]
    ensures key in SiblingKeys(s) ==> r == s[KeyIndex(s, key) := Entry(key, section)]
    ensures Entry(key, section) in r
    decreases s
  {
    if s == [] then [Entry(key, section)]
    else if s[0].key == key then
      assert [Entry(key, section)] + s[1..] == s[0 := Entry(key, section)];
      [Entry(key, section)] + s[1..]
    else
      var r := [s[0]] + PutEntry(s[1..], key, section);
      assert SiblingKeys(s) == [s[0].key] + SiblingKeys(s[1..]);
      if key in SiblingKeys(s[1..]) then
        ConsUpdate(s, KeyIndex(s[1..], key), Entry(key, section));
        r
      else
        r
  }

  /** Overwriting position `j` of the tail is overwriting `j + 1` of the whole. */
  lemma ConsUpdate<T>(s: seq<T>, j: nat, v: T)
    requires j + 1 < |s|
    ensures [s[0]] + s[1..][j := v] == s[j + 1 := v]
  {
  }

  /** Position of the first entry stored under `key`. */
  function KeyIndex(s: seq<Entry>, key: string): (i: nat)
    requires key in SiblingKeys(s)
    ensures i < |s| && s[i].key == key
    ensures forall j :: 0 <= j < i ==> s[j].key != key
    decreases s
  {
    if s[0].key == key then 0
    else
      assert SiblingKeys(s) == [s[0].key] + SiblingKeys(s[1..]);
      1 + KeyIndex(s[1..], key)
  }

  /** The collection with `newEntry` put into it and the result re-sorted. */
  function WithNewEntry(s: seq<Entry>, newEntry: Entry): seq<Entry> {
    SortSectionsByNumber(PutEntry(s, newEntry.key, newEntry.section))
  }

  /** `updateSubsections`: if the collection has an entry stored under
      `parentKey`, that entry receives the new section (its subsections are
      re-sorted) and the search stops; otherwise every entry's subsections
      are searched. */
  function AddUnder(s: seq<Entry>, parentKey: string, newEntry: Entry): seq<Entry>
    decreases s, 1
  {
    if parentKey in SiblingKeys(s) then
      var i := KeyIndex(s, parentKey);
      s[i := Entry(s[i].key, s[i].section.(subsections := WithNewEntry(s[i].section.subsections, newEntry)))]
    else AddUnderEach(s, parentKey, newEntry)
  }

  function AddUnderEach(s: seq<Entry>, parentKey: string, newEntry: Entry): seq<Entry>
    decreases s, 0
  {
    if s == [] then []
    else
      [Entry(s[0].key, s[0].section.(subsections := AddUnder(s[0].section.subsections, parentKey, newEntry)))]
      + AddUnderEach(s[1..], parentKey, newEntry)
  }

  method UpdateSubsections(sections: seq<Entry>, parentKey: string, newEntry: Entry) returns (r: seq<Entry>)
    ensures r == AddUnder(sections, parentKey, newEntry)
    decreases sections, 1
  {
    if parentKey in SiblingKeys(sections) {
      var i := KeyIndex(sections, parentKey);
      var e := sections[i];
      var sorted := SortSectionsByNumber(PutEntry(e.section.subsections, newEntry.key, newEntry.section));
      r := sections[i := Entry(e.key, e.section.(subsections := sorted))];
    } else {
      r := UpdateEachSubsections(sections, parentKey, newEntry);
    }
  }

  /** The loop of `updateSubsections` over a collection that does not hold
      the parent itself. */
  method UpdateEachSubsections(sections: seq<Entry>, parentKey: string, newEntry: Entry) returns (r: seq<Entry>)
    ensures r == AddUnderEach(sections, parentKey, newEntry)
    decreases sections, 0
  {
    r := sections;
    var i := 0;
    while i < |sections|
      invariant 0 <= i <= |sections| && |r| == |sections|
      invariant r[i..] == sections[i..]
      invariant AddUnderEach(sections, parentKey, newEntry) == r[..i] + AddUnderEach(sections[i..], parentKey, newEntry)
    {
      var e := sections[i];
      var sub := UpdateSubsections(e.section.subsections, parentKey, newEntry);
      var updated := Entry(e.key, e.section.(subsections := sub));
      AddUnderEachLoopStep(sections, r, i, parentKey, newEntry, updated);
      r := r[i := updated];
      i := i + 1;
    }
    assert sections[i..] == [] && r[..i] == r;
  }

  /** A loop over a copy `r` of `s` that stops at position `i` by
      overwriting it with `x` ends with the expected result. */
  lemma OverwriteLast<T>(full: seq<T>, r: seq<T>, s: seq<T>, i: int, x: T)
    requires 0 <= i < |s| && |r| == |s|
    requires r[i..] == s[i..]
    requires full == r[..i] + ([x] + s[i + 1..])
    ensures full == r[i := x]
  {
    assert r[i + 1..] == r[i..][1..];
    assert r[i := x] == r[..i] + [x] + r[i + 1..];
  }

  /** A loop over a copy `r` of `s` that stops at position `i` by cutting
      it out ends with the expected result. */
  lemma RemoveLast<T>(full: seq<T>, r: seq<T>, s: seq<T>, i: int)
    requires 0 <= i < |s| && |r| == |s|
    requires r[i..] == s[i..]
    requires full == r[..i] + s[i + 1..]
    ensures full == r[..i] + r[i + 1..]
  {
    assert r[i + 1..] == r[i..][1..];
  }

  /** One step of the loop above: the entry at `i` receives the search in
      its own subsections and the rest of the collection is left to later
      steps. */
  lemma AddUnderEachStep(sections: seq<Entry>, i: int, parentKey: string, newEntry: Entry)
    requires 0 <= i < |sections|
    ensures AddUnderEach(sections[i..], parentKey, newEntry)
      == [Entry(sections[i].key, sections[i].section.(subsections := AddUnder(sections[i].section.subsections, parentKey, newEntry)))]
         + AddUnderEach(sections[i + 1..], parentKey, newEntry)
  {
    assert sections[i..][0] == sections[i] && sections[i..][1..] == sections[i + 1..];
  }

  /** The invariant of the loop above survives one step. */
  lemma AddUnderEachLoopStep(sections: seq<Entry>, r: seq<Entry>, i: int, parentKey: string, newEntry: Entry, updated: Entry)
    requires 0 <= i < |sections| && |r| == |sections|
    requires r[i..] == sections[i..]
    requires AddUnderEach(sections, parentKey, newEntry) == r[..i] + AddUnderEach(sections[i..], parentKey, newEntry)
    requires updated == Entry(sections[i].key, sections[i].section.(subsections := AddUnder(sections[i].section.subsections, parentKey, newEntry)))
    ensures r[i := updated][i + 1..] == sections[i + 1..]
    ensures AddUnderEach(sections, parentKey, newEntry) == r[i := updated][..i + 1] + AddUnderEach(sections[i + 1..], parentKey, newEntry)
  {
    AddUnderEachStep(sections, i, parentKey, newEntry);
    OverwriteStep(AddUnderEach(sections, parentKey, newEntry), r, sections, i, updated,
                  AddUnderEach(sections[i..], parentKey, newEntry), AddUnderEach(sections[i + 1..], parentKey, newEntry));
  }

  /** The sequence algebra of a loop that overwrites position `i` of a copy
      `r` of `s`: if the expected result `full` is the part already done
      followed by `[x] + rest`, overwriting position `i` with `x` moves the
      boundary one step to the right. */
  lemma OverwriteStep<T>(full: seq<T>, r: seq<T>, s: seq<T>, i: int, x: T, todo: seq<T>, rest: seq<T>)
    requires 0 <= i < |s| && |r| == |s|
    requires r[i..] == s[i..]
    requires full == r[..i] + todo && todo == [x] + rest
    ensures r[i := x][i + 1..] == s[i + 1..]
    ensures full == r[i := x][..i + 1] + rest
  {
    assert r[i := x][..i + 1] == r[..i] + [x];
    assert r[i + 1..] == r[i..][1..];
  }

  /** Sorting keeps every section of the collection, subtrees included. */
  lemma {:induction false} InsertByNumberIds(e: Entry, t: seq<Entry>)
    ensures |Ids(InsertByNumber(e, t))| == |Ids([e])| + |Ids(t)|
    ensures forall x :: x in Ids([e]) + Ids(t) <==> x in Ids(InsertByNumber(e, t))
    decreases t
  {
    if t == [] {
    } else if InOrder(e, t[0]) {
      IdsAppend([e], t);
    } else {
      InsertByNumberIds(e, t[1..]);
      IdsAppend([t[0]], InsertByNumber(e, t[1..]));
      IdsAppend([t[0]], t[1..]);
      assert t == [t[0]] + t[1..];
    }
  }

  lemma {:induction false} SortSectionsByNumberIds(s: seq<Entry>)
    ensures |Ids(SortSectionsByNumber(s))| == |Ids(s)|
    ensures forall x :: x in Ids(s) <==> x in Ids(SortSectionsByNumber(s))
    decreases s
  {
    if s != [] {
      SortSectionsByNumberIds(s[1..]);
      InsertByNumberIds(s[0], SortSectionsByNumber(s[1..]));
      IdsAppend([s[0]], s[1..]);
      assert s == [s[0]] + s[1..];
    }
  }

  /** A section stored directly in a collection is visited by both
      pre-order traversals of it. */
  lemma {:induction false} TopLevelVisited(x: Entry, s: seq<Entry>)
    requires x in s
    ensures x.section.id in Ids(s)
    ensures SectionNumber(x.section.title) in CollectSectionNumbers(s)
    decreases s
  {
    if s[0] != x {
      TopLevelVisited(x, s[1..]);
    }
  }

  /** No entry stored under `parentKey`: nothing changes. */
  lemma {:induction false} AddUnderAbsent(s: seq<Entry>, parentKey: string, newEntry: Entry)
    requires parentKey !in Keys(s)
    ensures AddUnder(s, parentKey, newEntry) == s
    ensures AddUnderEach(s, parentKey, newEntry) == s
    decreases s
  {
    if s != [] {
      assert SiblingKeys(s) == [s[0].key] + SiblingKeys(s[1..]);
      assert parentKey !in SiblingKeys(s) by {
        forall i | 0 <= i < |s| ensures s[i].key != parentKey {
          KeysOfTopLevel(s, i);
        }
      }
      AddUnderAbsent(s[0].section.subsections, parentKey, newEntry);
      AddUnderAbsent(s[1..], parentKey, newEntry);
      assert s == [s[0]] + s[1..];
    }
  }

  lemma {:induction false} KeysOfTopLevel(s: seq<Entry>, i: nat)
    requires i < |s|
    ensures s[i].key in Keys(s)
    decreases s
  {
    if i > 0 {
      KeysOfTopLevel(s[1..], i - 1);
    }
  }

  /** When some entry of the tree is stored under `parentKey`, the new
      section becomes reachable: its id and its number are visited. */
  lemma {:induction false} AddUnderReaches(s: seq<Entry>, parentKey: string, newEntry: Entry)
    requires parentKey in Keys(s)
    ensures newEntry.section.id in Ids(AddUnder(s, parentKey, newEntry))
    ensures SectionNumber(newEntry.section.title) in CollectSectionNumbers(AddUnder(s, parentKey, newEntry))
    decreases s, 1
  {
    if parentKey in SiblingKeys(s) {
      var i := KeyIndex(s, parentKey);
      var r := AddUnder(s, parentKey, newEntry);
      var subs := WithNewEntry(s[i].section.subsections, newEntry);
      var put := PutEntry(s[i].section.subsections, newEntry.key, newEntry.section);
      assert newEntry == Entry(newEntry.key, newEntry.section);
      assert newEntry in multiset(put);
      assert newEntry in subs;
      TopLevelVisited(newEntry, subs);
      assert r[i] in r;
      TopLevelVisited(r[i], r);
      TopLevelVisitedNested(r, i);
    } else {
      AddUnderEachReaches(s, parentKey, newEntry);
    }
  }

  lemma {:induction false} AddUnderEachReaches(s: seq<Entry>, parentKey: string, newEntry: Entry)
    requires parentKey in Keys(s) && parentKey !in SiblingKeys(s)
    ensures newEntry.section.id in Ids(AddUnderEach(s, parentKey, newEntry))
    ensures SectionNumber(newEntry.section.title) in CollectSectionNumbers(AddUnderEach(s, parentKey, newEntry))
    decreases s, 0
  {
    var r := AddUnderEach(s, parentKey, newEntry);
    assert SiblingKeys(s) == [s[0].key] + SiblingKeys(s[1..]);
    if parentKey in Keys(s[0].section.subsections) {
      AddUnderReaches(s[0].section.subsections, parentKey, newEntry);
      TopLevelVisitedNested(r, 0);
    } else {
      AddUnderEachReaches(s[1..], parentKey, newEntry);
      IdsAppend([r[0]], r[1..]);
      CollectAppend([r[0]], r[1..]);
      assert r == [r[0]] + r[1..];
    }
  }

  /** Everything visited in the subsections of an entry is visited in the
      collection holding it. */
  lemma {:induction false} TopLevelVisitedNested(s: seq<Entry>, i: nat)
    requires i < |s|
    ensures forall x :: x in Ids(s[i].section.subsections) ==> x in Ids(s)
    ensures forall x :: x in CollectSectionNumbers(s[i].section.subsections) ==> x in CollectSectionNumbers(s)
    decreases s
  {
    if i > 0 {
      TopLevelVisitedNested(s[1..], i - 1);
    }
  }

  /** With keys unique across the tree and the new key unused, adding under
      an existing parent grows the tree by the new section's subtree. */
  lemma {:induction false} AddUnderGrows(s: seq<Entry>, parentKey: string, newEntry: Entry)
    requires Distinct(Keys(s)) && parentKey in Keys(s) && newEntry.key !in Keys(s)
    ensures |Ids(AddUnder(s, parentKey, newEntry))| == |Ids(s)| + |Ids([newEntry])|
    decreases s, 1
  {
    if parentKey in SiblingKeys(s) {
      var i := KeyIndex(s, parentKey);
      var subs := s[i].section.subsections;
      assert newEntry.key !in SiblingKeys(subs) by {
        forall j | 0 <= j < |subs| ensures subs[j].key != newEntry.key {
          KeysOfTopLevel(subs, j);
          KeysNested(s, i);
        }
      }
      var put := PutEntry(subs, newEntry.key, newEntry.section);
      IdsAppend(subs, [newEntry]);
      SortSectionsByNumberIds(put);
      var r := AddUnder(s, parentKey, newEntry);
      IdsReplaceSubsections(s, i, WithNewEntry(subs, newEntry));
    } else {
      AddUnderEachGrows(s, parentKey, newEntry);
    }
  }

  lemma {:induction false} AddUnderEachGrows(s: seq<Entry>, parentKey: string, newEntry: Entry)
    requires Distinct(Keys(s)) && parentKey in Keys(s) && newEntry.key !in Keys(s)
    requires parentKey !in SiblingKeys(s)
    ensures |Ids(AddUnderEach(s, parentKey, newEntry))| == |Ids(s)| + |Ids([newEntry])|
    decreases s, 0
  {
    var e := s[0];
    var subs := e.section.subsections;
    DistinctAppend([e.key] + Keys(subs), Keys(s[1..]));
    DistinctAppend([e.key], Keys(subs));
    assert SiblingKeys(s) == [e.key] + SiblingKeys(s[1..]);
    assert parentKey != e.key;
    if parentKey in Keys(subs) {
      AddUnderGrows(subs, parentKey, newEntry);
      AddUnderAbsent(s[1..], parentKey, newEntry);
    } else {
      AddUnderAbsent(subs, parentKey, newEntry);
      AddUnderEachGrows(s[1..], parentKey, newEntry);
    }
  }

  /** Adding under a parent never reorders or re-keys the collection the
      search starts from. (What happens inside it is stated by
      `AddUnderReceives` and `AddUnderKeepsOthers`.) */
  lemma {:induction false} AddUnderKeepsSiblingKeys(s: seq<Entry>, parentKey: string, newEntry: Entry)
    ensures SiblingKeys(AddUnder(s, parentKey, newEntry)) == SiblingKeys(s)
    ensures SiblingKeys(AddUnderEach(s, parentKey, newEntry)) == SiblingKeys(s)
    decreases s
  {
    if s != [] {
      AddUnderKeepsSiblingKeys(s[1..], parentKey, newEntry);
    }
  }

  /** Everything stored in the subsections of an entry is stored in the
      collection holding it. */
  lemma {:induction false} KeysNested(s: seq<Entry>, i: nat)
    requires i < |s|
    ensures forall k :: k in Keys(s[i].section.subsections) ==> k in Keys(s)
    decreases s
  {
    if i > 0 {
      KeysNested(s[1..], i - 1);
    }
  }

  /** Replacing one entry's subsections changes the section count by the
      difference in size of the two subsection collections. */
  lemma {:induction false} IdsReplaceSubsections(s: seq<Entry>, i: nat, subs: seq<Entry>)
    requires i < |s|
    ensures |Ids(s[i := Entry(s[i].key, s[i].section.(subsections := subs))])|
         == |Ids(s)| - |Ids(s[i].section.subsections)| + |Ids(subs)|
    decreases s
  {
    if i > 0 {
      var t := s[i := Entry(s[i].key, s[i].section.(subsections := subs))];
      IdsReplaceSubsections(s[1..], i - 1, subs);
      assert t[1..] == s[1..][i - 1 := Entry(s[i].key, s[i].section.(subsections := subs))];
    }
  }

  // ---------------------------------------------------------------------
  // Add: where the new section lands, and what stays as it was

  /** The section stored under `key`, first in pre-order. */
  function FindByKey(s: seq<Entry>, key: string): (r: Option<Section>)
    ensures r.Some? <==> key in Keys(s)
    decreases s
  {
    if s == [] then None
    else if s[0].key == key then Some(s[0].section)
    else
      var inSub := FindByKey(s[0].section.subsections, key);
      if inSub.Some? then inSub else FindByKey(s[1..], key)
  }

  /** The collection held by the section stored under `key`. */
  function ChildrenOf(s: seq<Entry>, key: string): seq<Entry>
    requires key in Keys(s)
  {
    FindByKey(s, key).value.subsections
  }

  /** Two sections alike in every field but the contents of their
      subsections, whose keys are the same and in the same order. */
  predicate SameApartFromChildren(a: Section, b: Section) {
    a.(subsections := []) == b.(subsections := []) && SiblingKeys(a.subsections) == SiblingKeys(b.subsections)
  }

  lemma {:induction false} FindByKeyAppend(a: seq<Entry>, b: seq<Entry>, key: string)
    ensures FindByKey(a + b, key) == if key in Keys(a) then FindByKey(a, key) else FindByKey(b, key)
    decreases a
  {
    if a == [] {
      assert a + b == b;
    } else {
      assert (a + b)[0] == a[0] && (a + b)[1..] == a[1..] + b;
      FindByKeyAppend(a[1..], b, key);
    }
  }

  lemma {:induction false} InsertByNumberKeys(e: Entry, t: seq<Entry>)
    ensures forall x :: x in Keys(InsertByNumber(e, t)) <==> x in Keys([e]) + Keys(t)
    decreases t
  {
    if t == [] {
    } else if InOrder(e, t[0]) {
      KeysAppend([e], t);
    } else {
      InsertByNumberKeys(e, t[1..]);
      KeysAppend([t[0]], InsertByNumber(e, t[1..]));
      KeysAppend([t[0]], t[1..]);
      assert t == [t[0]] + t[1..];
    }
  }

  lemma {:induction false} SortSectionsByNumberKeys(s: seq<Entry>)
    ensures forall x :: x in Keys(SortSectionsByNumber(s)) <==> x in Keys(s)
    decreases s
  {
    if s != [] {
      SortSectionsByNumberKeys(s[1..]);
      InsertByNumberKeys(s[0], SortSectionsByNumber(s[1..]));
      KeysAppend([s[0]], s[1..]);
      assert s == [s[0]] + s[1..];
    }
  }

  /** Inserting `e` changes no lookup, as long as no key is stored both in
      `e` and in the collection. */
  lemma {:induction false} FindByKeyInsert(e: Entry, t: seq<Entry>, key: string)
    requires !(key in Keys([e]) && key in Keys(t))
    ensures FindByKey(InsertByNumber(e, t), key) == FindByKey([e] + t, key)
    decreases t
  {
    if t != [] && !InOrder(e, t[0]) {
      var rest := InsertByNumber(e, t[1..]);
      assert InsertByNumber(e, t) == [t[0]] + rest;
      assert t == [t[0]] + t[1..];
      KeysAppend([t[0]], t[1..]);
      FindByKeyInsert(e, t[1..], key);
      FindByKeyAppend([t[0]], rest, key);
      FindByKeyAppend([e], t[1..], key);
      FindByKeyAppend([e], t, key);
      FindByKeyAppend([t[0]], t[1..], key);
    }
  }

  /** With keys unique across the collection, sorting it changes no lookup. */
  lemma {:induction false} FindByKeySort(s: seq<Entry>, key: string)
    requires Distinct(Keys(s))
    ensures FindByKey(SortSectionsByNumber(s), key) == FindByKey(s, key)
    decreases s
  {
    if s != [] {
      var rest := SortSectionsByNumber(s[1..]);
      assert SortSectionsByNumber(s) == InsertByNumber(s[0], rest);
      assert [s[0]] + s[1..] == s;
      KeysAppend([s[0]], s[1..]);
      DistinctAppend(Keys([s[0]]), Keys(s[1..]));
      SortSectionsByNumberKeys(s[1..]);
      FindByKeySort(s[1..], key);
      FindByKeyInsert(s[0], rest, key);
      FindByKeyAppend([s[0]], rest, key);
      FindByKeyAppend([s[0]], s[1..], key);
    }
  }

  lemma {:induction false} PutEntryKeys(s: seq<Entry>, key: string, section: Section)
    ensures forall x :: x in Keys(PutEntry(s, key, section)) ==> x in Keys(s) || x in Keys([Entry(key, section)])
    decreases s
  {
    if s != [] {
      assert [s[0]] + s[1..] == s;
      KeysAppend([s[0]], s[1..]);
      if s[0].key == key {
        KeysAppend([Entry(key, section)], s[1..]);
      } else {
        PutEntryKeys(s[1..], key, section);
        KeysAppend([s[0]], PutEntry(s[1..], key, section));
      }
    }
  }

  /** Position `i` of a collection, between what comes before and after. */
  lemma SplitAt(s: seq<Entry>, i: nat, x: Entry)
    requires i < |s|
    ensures s[i := x] == s[..i] + ([x] + s[i + 1..])
    ensures s == s[..i] + ([s[i]] + s[i + 1..])
    ensures Keys(s[i := x]) == Keys(s[..i]) + (Keys([x]) + Keys(s[i + 1..]))
    ensures Keys(s) == Keys(s[..i]) + (Keys([s[i]]) + Keys(s[i + 1..]))
  {
    assert s[i := x] == s[..i] + ([x] + s[i + 1..]);
    assert s == s[..i] + ([s[i]] + s[i + 1..]);
    KeysAppend(s[..i], [x] + s[i + 1..]);
    KeysAppend([x], s[i + 1..]);
    KeysAppend(s[..i], [s[i]] + s[i + 1..]);
    KeysAppend([s[i]], s[i + 1..]);
  }

  /** The keys of a collection, split into its first entry, that entry's
      subtree and the later entries, are pairwise apart, also from `extra`. */
  lemma DistinctPieces(s: seq<Entry>, extra: seq<string>)
    requires s != [] && Distinct(Keys(s) + extra)
    ensures Distinct(Keys(s[0].section.subsections) + extra) && Distinct(Keys(s[1..]) + extra)
    ensures Distinct(Keys(s))
    ensures s[0].key !in Keys(s[0].section.subsections) && s[0].key !in Keys(s[1..]) && s[0].key !in extra
    ensures forall x :: x in Keys(s[0].section.subsections) ==> x !in Keys(s[1..]) && x !in extra
    ensures forall x :: x in Keys(s[1..]) ==> x !in extra
  {
    var k0, subs, rest := s[0].key, Keys(s[0].section.subsections), Keys(s[1..]);
    assert Keys(s) == [k0] + subs + rest;
    DistinctAppend(Keys(s), extra);
    DistinctAppend([k0] + subs, rest);
    DistinctAppend([k0], subs);
    DistinctConcat(subs, extra);
    DistinctConcat(rest, extra);
  }

  /** Adding stores nothing but the tree's own keys and the new subtree's. */
  lemma {:induction false} AddUnderKeysWithin(s: seq<Entry>, parentKey: string, newEntry: Entry)
    ensures forall x :: x in Keys(AddUnder(s, parentKey, newEntry)) ==> x in Keys(s) || x in Keys([newEntry])
    ensures forall x :: x in Keys(AddUnderEach(s, parentKey, newEntry)) ==> x in Keys(s) || x in Keys([newEntry])
    decreases s
  {
    if s != [] {
      var e, rest := s[0], s[1..];
      AddUnderKeysWithin(e.section.subsections, parentKey, newEntry);
      AddUnderKeysWithin(rest, parentKey, newEntry);
      var r0 := Entry(e.key, e.section.(subsections := AddUnder(e.section.subsections, parentKey, newEntry)));
      assert AddUnderEach(s, parentKey, newEntry) == [r0] + AddUnderEach(rest, parentKey, newEntry);
      KeysAppend([r0], AddUnderEach(rest, parentKey, newEntry));
      KeysAppend([e], rest);
      assert [e] + rest == s;
      if parentKey in SiblingKeys(s) {
        AddUnderHereKeysWithin(s, parentKey, newEntry);
      }
    }
  }

  lemma AddUnderHereKeysWithin(s: seq<Entry>, parentKey: string, newEntry: Entry)
    requires parentKey in SiblingKeys(s)
    ensures forall x :: x in Keys(AddUnder(s, parentKey, newEntry)) ==> x in Keys(s) || x in Keys([newEntry])
  {
    var i := KeyIndex(s, parentKey);
    var subs := s[i].section.subsections;
    var put := PutEntry(subs, newEntry.key, newEntry.section);
    var x := Entry(s[i].key, s[i].section.(subsections := SortSectionsByNumber(put)));
    SplitAt(s, i, x);
    assert Keys([x]) == [s[i].key] + Keys(SortSectionsByNumber(put));
    assert Keys([s[i]]) == [s[i].key] + Keys(subs);
    PutEntryKeys(subs, newEntry.key, newEntry.section);
    SortSectionsByNumberKeys(put);
    assert newEntry == Entry(newEntry.key, newEntry.section);
  }

  /** With unique keys, the entry stored under `parentKey` keeps every field
      but its subsections, which become the old ones with the new section
      put in and re-sorted. */
  lemma {:induction false} AddUnderReceives(s: seq<Entry>, parentKey: string, newEntry: Entry)
    requires Distinct(Keys(s)) && parentKey in Keys(s)
    ensures FindByKey(AddUnder(s, parentKey, newEntry), parentKey)
         == Some(FindByKey(s, parentKey).value.(subsections := WithNewEntry(ChildrenOf(s, parentKey), newEntry)))
    decreases s, 1
  {
    if parentKey in SiblingKeys(s) {
      AddUnderHereReceives(s, parentKey, newEntry);
    } else {
      AddUnderEachReceives(s, parentKey, newEntry);
    }
  }

  lemma AddUnderHereReceives(s: seq<Entry>, parentKey: string, newEntry: Entry)
    requires Distinct(Keys(s)) && parentKey in SiblingKeys(s) && parentKey in Keys(s)
    ensures FindByKey(AddUnder(s, parentKey, newEntry), parentKey)
         == Some(FindByKey(s, parentKey).value.(subsections := WithNewEntry(FindByKey(s, parentKey).value.subsections, newEntry)))
  {
    var i := KeyIndex(s, parentKey);
    var x := Entry(s[i].key, s[i].section.(subsections := WithNewEntry(s[i].section.subsections, newEntry)));
    var r := s[i := x];
    assert AddUnder(s, parentKey, newEntry) == r;
    EarlierKeys(s, i);
    assert r[..i] == s[..i] && r[i] == x;
    FindByKeyAt(s, i);
    FindByKeyAt(r, i);
  }

  /** With unique keys, no entry's key is stored earlier in pre-order. */
  lemma EarlierKeys(s: seq<Entry>, i: nat)
    requires i < |s| && Distinct(Keys(s))
    ensures s[i].key !in Keys(s[..i])
  {
    KeysSplit(s, i);
    DistinctAppend(Keys(s[..i]), Keys(s[i..]));
  }

  /** The keys before position `i`, then those from it on, the first of
      which is the key at `i`. */
  lemma KeysSplit(s: seq<Entry>, i: nat)
    requires i < |s|
    ensures Keys(s) == Keys(s[..i]) + Keys(s[i..])
    ensures Keys(s[i..]) != [] && Keys(s[i..])[0] == s[i].key
  {
    assert s == s[..i] + s[i..];
    KeysAppend(s[..i], s[i..]);
    assert s[i..][0] == s[i];
  }

  /** An entry whose key is stored nowhere earlier is what a lookup finds. */
  lemma {:induction false} FindByKeyAt(s: seq<Entry>, i: nat)
    requires i < |s| && s[i].key !in Keys(s[..i])
    ensures FindByKey(s, s[i].key) == Some(s[i].section)
    decreases i
  {
    if i > 0 {
      var before := s[..i];
      assert before[0] == s[0] && before[1..] == s[1..][..i - 1];
      assert Keys(before) == [s[0].key] + Keys(s[0].section.subsections) + Keys(s[1..][..i - 1]);
      FindByKeyAt(s[1..], i - 1);
    }
  }

  lemma {:induction false} AddUnderEachReceives(s: seq<Entry>, parentKey: string, newEntry: Entry)
    requires Distinct(Keys(s)) && parentKey in Keys(s) && parentKey !in SiblingKeys(s)
    ensures FindByKey(AddUnderEach(s, parentKey, newEntry), parentKey)
         == Some(FindByKey(s, parentKey).value.(subsections := WithNewEntry(ChildrenOf(s, parentKey), newEntry)))
    decreases s, 0
  {
    var e, rest := s[0], s[1..];
    var subs := e.section.subsections;
    var r0 := Entry(e.key, e.section.(subsections := AddUnder(subs, parentKey, newEntry)));
    var r := AddUnderEach(s, parentKey, newEntry);
    assert r == [r0] + AddUnderEach(rest, parentKey, newEntry);
    assert r[0] == r0 && r[1..] == AddUnderEach(rest, parentKey, newEntry);
    DistinctAppend([e.key] + Keys(subs), Keys(rest));
    DistinctAppend([e.key], Keys(subs));
    assert SiblingKeys(s) == [e.key] + SiblingKeys(rest);
    if parentKey in Keys(subs) {
      AddUnderReceives(subs, parentKey, newEntry);
    } else {
      AddUnderAbsent(subs, parentKey, newEntry);
      AddUnderEachReceives(rest, parentKey, newEntry);
    }
  }

  /** With keys unique across the tree and the new subtree, every other
      stored section keeps its fields, and its subsections keep their keys
      in order. */
  lemma {:induction false} AddUnderKeepsOthers(s: seq<Entry>, parentKey: string, newEntry: Entry, key: string)
    requires Distinct(Keys(s) + Keys([newEntry])) && key in Keys(s) && key != parentKey
    ensures FindByKey(AddUnder(s, parentKey, newEntry), key).Some?
    ensures SameApartFromChildren(FindByKey(AddUnder(s, parentKey, newEntry), key).value, FindByKey(s, key).value)
    decreases s, 1
  {
    if parentKey in SiblingKeys(s) {
      AddUnderHereKeepsOthers(s, parentKey, newEntry, key);
    } else {
      AddUnderEachKeepsOthers(s, parentKey, newEntry, key);
    }
  }

  lemma {:induction false} AddUnderEachKeepsOthers(s: seq<Entry>, parentKey: string, newEntry: Entry, key: string)
    requires Distinct(Keys(s) + Keys([newEntry])) && key in Keys(s) && key != parentKey
    ensures FindByKey(AddUnderEach(s, parentKey, newEntry), key).Some?
    ensures SameApartFromChildren(FindByKey(AddUnderEach(s, parentKey, newEntry), key).value, FindByKey(s, key).value)
    decreases s, 0
  {
    var e, rest := s[0], s[1..];
    var subs := e.section.subsections;
    var r0 := Entry(e.key, e.section.(subsections := AddUnder(subs, parentKey, newEntry)));
    var r := AddUnderEach(s, parentKey, newEntry);
    assert r == [r0] + AddUnderEach(rest, parentKey, newEntry);
    assert r[0] == r0 && r[1..] == AddUnderEach(rest, parentKey, newEntry);
    DistinctPieces(s, Keys([newEntry]));
    if key == e.key {
      AddUnderKeepsSiblingKeys(subs, parentKey, newEntry);
    } else if key in Keys(subs) {
      AddUnderKeepsOthers(subs, parentKey, newEntry, key);
    } else {
      AddUnderKeysWithin(subs, parentKey, newEntry);
      AddUnderEachKeepsOthers(rest, parentKey, newEntry, key);
    }
  }

  /** The collection holding the parent: only the parent's own subsections
      change, and no lookup of another key does. */
  lemma AddUnderHereKeepsOthers(s: seq<Entry>, parentKey: string, newEntry: Entry, key: string)
    requires Distinct(Keys(s) + Keys([newEntry])) && key in Keys(s) && key != parentKey
    requires parentKey in SiblingKeys(s)
    ensures FindByKey(AddUnder(s, parentKey, newEntry), key) == FindByKey(s, key)
  {
    var i := KeyIndex(s, parentKey);
    var subs := s[i].section.subsections;
    var put := PutEntry(subs, newEntry.key, newEntry.section);
    var x := Entry(s[i].key, s[i].section.(subsections := SortSectionsByNumber(put)));
    SplitAt(s, i, x);
    DistinctAppend(Keys(s), Keys([newEntry]));
    DistinctAppend(Keys(s[..i]), Keys([s[i]]) + Keys(s[i + 1..]));
    DistinctAppend(Keys([s[i]]), Keys(s[i + 1..]));
    FindByKeyAppend(s[..i], [x] + s[i + 1..], key);
    FindByKeyAppend(s[..i], [s[i]] + s[i + 1..], key);
    FindByKeyAppend([x], s[i + 1..], key);
    FindByKeyAppend([s[i]], s[i + 1..], key);
    ReceivingCollection(s, i, newEntry, key);
  }

  /** Inside the receiving entry: the old subsections with the new entry
      appended and sorted answer every old key as before. */
  lemma ReceivingCollection(s: seq<Entry>, i: nat, newEntry: Entry, key: string)
    requires i < |s| && Distinct(Keys(s) + Keys([newEntry])) && key != s[i].key
    ensures var subs := s[i].section.subsections;
      var x := Entry(s[i].key, s[i].section.(subsections := SortSectionsByNumber(PutEntry(subs, newEntry.key, newEntry.section))));
      (key in Keys([x]) <==> key in Keys([s[i]]) || key in Keys([newEntry])) &&
      (key in Keys([s[i]]) ==> FindByKey([x], key) == FindByKey([s[i]], key))
  {
    var subs := s[i].section.subsections;
    var put := PutEntry(subs, newEntry.key, newEntry.section);
    var x := Entry(s[i].key, s[i].section.(subsections := SortSectionsByNumber(put)));
    DistinctAppend(Keys(s), Keys([newEntry]));
    KeysNested(s, i);
    PutFreshEntry(subs, newEntry);
    KeysAppend(subs, [newEntry]);
    SortSectionsByNumberKeys(put);
    assert Keys([x]) == [s[i].key] + Keys(SortSectionsByNumber(put));
    assert Keys([s[i]]) == [s[i].key] + Keys(subs);
    if key in Keys(subs) {
      SubtreeDistinct(s, i);
      DistinctConcat(Keys(subs), Keys([newEntry]));
      FindByKeySort(put, key);
      FindByKeyAppend(subs, [newEntry], key);
    }
  }

  /** A key stored nowhere in the collection's tree is appended. */
  lemma PutFreshEntry(s: seq<Entry>, newEntry: Entry)
    requires newEntry.key !in Keys(s)
    ensures PutEntry(s, newEntry.key, newEntry.section) == s + [newEntry]
  {
    forall j | 0 <= j < |s| ensures s[j].key != newEntry.key {
      KeysOfTopLevel(s, j);
    }
    assert newEntry == Entry(newEntry.key, newEntry.section);
  }

  /** Keys under one entry are unique when the whole tree's are. */
  lemma {:induction false} SubtreeDistinct(s: seq<Entry>, i: nat)
    requires i < |s| && Distinct(Keys(s))
    ensures Distinct(Keys(s[i].section.subsections))
    decreases s
  {
    DistinctAppend([s[0].key] + Keys(s[0].section.subsections), Keys(s[1..]));
    DistinctAppend([s[0].key], Keys(s[0].section.subsections));
    if i > 0 {
      SubtreeDistinct(s[1..], i - 1);
    }
  }

  // ---------------------------------------------------------------------
  // Delete: `deleteSection`

  /** The first entry of each collection visited whose SECTION ID equals
      `id` is removed with its subtree; the collections before it are
      searched recursively. */
  function DeleteById(s: seq<Entry>, id: string): seq<Entry>
    decreases s
  {
    if s == [] then []
    else if s[0].section.id == id then s[1..]
    else
      [Entry(s[0].key, s[0].section.(subsections := DeleteById(s[0].section.subsections, id)))]
      + DeleteById(s[1..], id)
  }

  method DeleteSection(sections: seq<Entry>, targetId: string) returns (r: seq<Entry>)
    ensures r == DeleteById(sections, targetId)
    decreases sections
  {
    r := sections;
    var i := 0;
    while i < |sections|
      invariant 0 <= i <= |sections| && |r| == |sections|
      invariant r[i..] == sections[i..]
      invariant DeleteById(sections, targetId) == r[..i] + DeleteById(sections[i..], targetId)
    {
      var e := sections[i];
      DeleteByIdStep(sections, i, targetId);
      if e.section.id == targetId {
        RemoveLast(DeleteById(sections, targetId), r, sections, i);
        r := r[..i] + r[i + 1..];
        return;
      }
      var sub := DeleteSection(e.section.subsections, targetId);
      var updated := Entry(e.key, e.section.(subsections := sub));
      OverwriteStep(DeleteById(sections, targetId), r, sections, i, updated,
                    DeleteById(sections[i..], targetId), DeleteById(sections[i + 1..], targetId));
      r := r[i := updated];
      i := i + 1;
    }
    assert sections[i..] == [] && r[..i] == r;
  }

  /** One step of the loop above, unfolded at position `i`. */
  lemma DeleteByIdStep(sections: seq<Entry>, i: int, targetId: string)
    requires 0 <= i < |sections|
    ensures sections[i].section.id == targetId ==> DeleteById(sections[i..], targetId) == sections[i + 1..]
    ensures sections[i].section.id != targetId ==>
      DeleteById(sections[i..], targetId)
      == [Entry(sections[i].key, sections[i].section.(subsections := DeleteById(sections[i].section.subsections, targetId)))]
         + DeleteById(sections[i + 1..], targetId)
  {
    assert sections[i..][0] == sections[i] && sections[i..][1..] == sections[i + 1..];
  }

  /** The section with the given id, first in pre-order. */
  function FindById(s: seq<Entry>, id: string): (r: Option<Section>)
    ensures r.Some? <==> id in Ids(s)
    ensures r.Some? ==> r.value.id == id
    decreases s
  {
    if s == [] then None
    else if s[0].section.id == id then Some(s[0].section)
    else
      var inSub := FindById(s[0].section.subsections, id);
      if inSub.Some? then inSub else FindById(s[1..], id)
  }

  /** The ids of a section and all of its descendants. */
  function SubtreeIds(section: Section): seq<string> {
    [section.id] + Ids(section.subsections)
  }

  lemma {:induction false} FindByIdInside(s: seq<Entry>, id: string)
    requires id in Ids(s)
    ensures forall x :: x in SubtreeIds(FindById(s, id).value) ==> x in Ids(s)
    decreases s
  {
    if s[0].section.id != id {
      if id in Ids(s[0].section.subsections) {
        FindByIdInside(s[0].section.subsections, id);
      } else {
        FindByIdInside(s[1..], id);
      }
    }
  }

  /** Deleting an id that is nowhere in the tree leaves it as it is. */
  lemma {:induction false} DeleteByIdAbsent(s: seq<Entry>, id: string)
    requires id !in Ids(s)
    ensures DeleteById(s, id) == s
    decreases s
  {
    if s != [] {
      DeleteByIdAbsent(s[0].section.subsections, id);
      DeleteByIdAbsent(s[1..], id);
      assert s == [s[0]] + s[1..];
    }
  }

  /** With ids unique across the tree, deleting a present id removes exactly
      that section and its descendants: every other section stays
      reachable. */
  lemma {:induction false} DeleteByIdRemovesSubtree(s: seq<Entry>, id: string)
    requires Distinct(Ids(s)) && id in Ids(s)
    ensures forall x :: x in Ids(DeleteById(s, id)) <==>
      x in Ids(s) && x !in SubtreeIds(FindById(s, id).value)
    decreases s
  {
    var e := s[0];
    var subs := e.section.subsections;
    var rest := s[1..];
    DistinctAppend([e.section.id] + Ids(subs), Ids(rest));
    DistinctAppend([e.section.id], Ids(subs));
    if e.section.id == id {
    } else if id in Ids(subs) {
      DeleteByIdRemovesSubtree(subs, id);
      DeleteByIdAbsent(rest, id);
      FindByIdInside(subs, id);
    } else {
      DeleteByIdRemovesSubtree(rest, id);
      DeleteByIdAbsent(subs, id);
      FindByIdInside(rest, id);
    }
  }

  /** Accepts the heads of the sections whose id is not in `gone`. */
  function OutsideOf(gone: seq<string>): Head -> bool {
    (h: Head) => h.id !in gone
  }

  /** Every head of a walk belongs to a section of the walked tree. */
  lemma {:induction false} HeadIds(s: seq<Entry>, level: int)
    ensures forall h :: h in Heads(Flatten(s, level)) ==> h.id in Ids(s)
    decreases s
  {
    if s != [] {
      HeadIds(s[0].section.subsections, level + 1);
      HeadIds(s[1..], level);
      HeadsOfCons(s[0], s[1..], level);
      assert [s[0]] + s[1..] == s;
    }
  }

  /** The heads of a walk: the first entry, its subtree, then the rest. */
  lemma HeadsOfCons(x: Entry, t: seq<Entry>, level: int)
    ensures Heads(Flatten([x] + t, level))
         == Heads([Visit(x.key, x.section, level)])
            + Heads(Flatten(x.section.subsections, level + 1))
            + Heads(Flatten(t, level))
  {
    var v := [Visit(x.key, x.section, level)];
    var sub := Flatten(x.section.subsections, level + 1);
    assert ([x] + t)[0] == x && ([x] + t)[1..] == t;
    assert Flatten([x] + t, level) == v + sub + Flatten(t, level);
    HeadsAppend(v + sub, Flatten(t, level));
    HeadsAppend(v, sub);
  }

  /** With unique ids, deleting a section leaves every other section where
      it was: the walk of the result is the walk of the tree with the
      deleted subtree's heads taken out, every survivor keeping its key,
      title, content, depth and position. */
  lemma {:induction false} DeleteByIdKeepsOthers(s: seq<Entry>, id: string, level: int)
    requires Distinct(Ids(s)) && id in Ids(s)
    ensures Heads(Flatten(DeleteById(s, id), level))
         == Filter(Heads(Flatten(s, level)), OutsideOf(SubtreeIds(FindById(s, id).value)))
    decreases s
  {
    var e, rest := s[0], s[1..];
    var keep := OutsideOf(SubtreeIds(FindById(s, id).value));
    var h0 := Heads([Visit(e.key, e.section, level)]);
    var hsub, hrest := Heads(Flatten(e.section.subsections, level + 1)), Heads(Flatten(rest, level));
    assert [e] + rest == s;
    HeadsOfCons(e, rest, level);
    FilterOfPieces(h0, hsub, hrest, keep);
    if e.section.id == id {
      DeleteOutsideFirst(s, id, level);
    } else {
      var e' := Entry(e.key, e.section.(subsections := DeleteById(e.section.subsections, id)));
      assert DeleteById(s, id) == [e'] + DeleteById(rest, id);
      HeadsOfCons(e', DeleteById(rest, id), level);
      assert Heads([Visit(e'.key, e'.section, level)]) == h0;
      if id in Ids(e.section.subsections) {
        DeleteOutsideSubsections(s, id, level);
      } else {
        DeleteOutsideRest(s, id, level);
      }
    }
  }

  lemma FilterOfPieces<T>(a: seq<T>, b: seq<T>, c: seq<T>, keep: T -> bool)
    ensures Filter(a + b + c, keep) == Filter(a, keep) + Filter(b, keep) + Filter(c, keep)
  {
    FilterAppend(a + b, c, keep);
    FilterAppend(a, b, keep);
  }

  /** The case where the first entry is the one deleted: it goes with its
      whole subtree and the later entries stay. */
  lemma DeleteOutsideFirst(s: seq<Entry>, id: string, level: int)
    requires Distinct(Ids(s)) && s != [] && s[0].section.id == id
    ensures var keep := OutsideOf(SubtreeIds(FindById(s, id).value));
      DeleteById(s, id) == s[1..] &&
      Filter(Heads([Visit(s[0].key, s[0].section, level)]), keep) == [] &&
      Filter(Heads(Flatten(s[0].section.subsections, level + 1)), keep) == [] &&
      Filter(Heads(Flatten(s[1..], level)), keep) == Heads(Flatten(s[1..], level))
  {
    var subs, rest := s[0].section.subsections, s[1..];
    var keep := OutsideOf(SubtreeIds(FindById(s, id).value));
    DistinctAppend([s[0].section.id] + Ids(subs), Ids(rest));
    HeadIds(subs, level + 1);
    HeadIds(rest, level);
    FilterDropsAll(Heads([Visit(s[0].key, s[0].section, level)]), keep);
    FilterDropsAll(Heads(Flatten(subs, level + 1)), keep);
    FilterKeepsAll(Heads(Flatten(rest, level)), keep);
  }

  /** The case where the deleted section lies under the first entry. */
  lemma {:induction false} DeleteOutsideSubsections(s: seq<Entry>, id: string, level: int)
    requires Distinct(Ids(s)) && s != [] && s[0].section.id != id && id in Ids(s[0].section.subsections)
    ensures var keep := OutsideOf(SubtreeIds(FindById(s, id).value));
      Heads(Flatten(DeleteById(s[0].section.subsections, id), level + 1))
        == Filter(Heads(Flatten(s[0].section.subsections, level + 1)), keep) &&
      DeleteById(s[1..], id) == s[1..] &&
      Filter(Heads(Flatten(s[1..], level)), keep) == Heads(Flatten(s[1..], level)) &&
      Filter(Heads([Visit(s[0].key, s[0].section, level)]), keep) == Heads([Visit(s[0].key, s[0].section, level)])
    decreases s, 0
  {
    var subs, rest := s[0].section.subsections, s[1..];
    DistinctAppend([s[0].section.id] + Ids(subs), Ids(rest));
    DistinctAppend([s[0].section.id], Ids(subs));
    assert FindById(s, id) == FindById(subs, id);
    var keep := OutsideOf(SubtreeIds(FindById(subs, id).value));
    FindByIdInside(subs, id);
    DeleteByIdKeepsOthers(subs, id, level + 1);
    DeleteByIdAbsent(rest, id);
    HeadIds(rest, level);
    FilterKeepsAll(Heads(Flatten(rest, level)), keep);
    FilterKeepsAll(Heads([Visit(s[0].key, s[0].section, level)]), keep);
  }

  /** The case where the deleted section lies in a later entry. */
  lemma {:induction false} DeleteOutsideRest(s: seq<Entry>, id: string, level: int)
    requires Distinct(Ids(s)) && s != [] && s[0].section.id != id && id !in Ids(s[0].section.subsections)
    requires id in Ids(s)
    ensures var keep := OutsideOf(SubtreeIds(FindById(s, id).value));
      Heads(Flatten(DeleteById(s[1..], id), level))
        == Filter(Heads(Flatten(s[1..], level)), keep) &&
      DeleteById(s[0].section.subsections, id) == s[0].section.subsections &&
      Filter(Heads(Flatten(s[0].section.subsections, level + 1)), keep)
        == Heads(Flatten(s[0].section.subsections, level + 1)) &&
      Filter(Heads([Visit(s[0].key, s[0].section, level)]), keep) == Heads([Visit(s[0].key, s[0].section, level)])
    decreases s, 0
  {
    var subs, rest := s[0].section.subsections, s[1..];
    DistinctAppend([s[0].section.id] + Ids(subs), Ids(rest));
    DistinctAppend([s[0].section.id], Ids(subs));
    assert id in Ids(rest);
    assert FindById(s, id) == FindById(rest, id);
    var keep := OutsideOf(SubtreeIds(FindById(rest, id).value));
    FindByIdInside(rest, id);
    DeleteByIdKeepsOthers(rest, id, level);
    DeleteByIdAbsent(subs, id);
    HeadIds(subs, level + 1);
    FilterKeepsAll(Heads(Flatten(subs, level + 1)), keep);
    FilterKeepsAll(Heads([Visit(s[0].key, s[0].section, level)]), keep);
  }

  // ---------------------------------------------------------------------
  // Save-time numbers: `collectSectionTitles`

  /** Every section's number, in pre-order. */
  function CollectSectionNumbers(s: seq<Entry>): seq<string>
    decreases s
  {
    if s == [] then []
    else [SectionNumber(s[0].section.title)]
         + CollectSectionNumbers(s[0].section.subsections)
         + CollectSectionNumbers(s[1..])
  }

  lemma {:induction false} CollectAppend(a: seq<Entry>, b: seq<Entry>)
    ensures CollectSectionNumbers(a + b) == CollectSectionNumbers(a) + CollectSectionNumbers(b)
    decreases a
  {
    if a == [] {
      assert a + b == b;
    } else {
      assert (a + b)[0] == a[0] && (a + b)[1..] == a[1..] + b;
      CollectAppend(a[1..], b);
    }
  }

  /** A number is collected exactly when some section of the tree carries
      it, which is when the parent search for it succeeds. */
  lemma {:induction false} CollectedIffNumbered(s: seq<Entry>, p: string, level: int)
    ensures p in CollectSectionNumbers(s) <==> FirstNumbered(Flatten(s, level), p).Some?
    decreases s
  {
    if s != [] {
      var head := [Visit(s[0].key, s[0].section, level)];
      var sub := Flatten(s[0].section.subsections, level + 1);
      var rest := Flatten(s[1..], level);
      CollectedIffNumbered(s[0].section.subsections, p, level + 1);
      CollectedIffNumbered(s[1..], p, level);
      FirstNumberedAppend(head + sub, rest, p);
      FirstNumberedAppend(head, sub, p);
    }
  }
}
