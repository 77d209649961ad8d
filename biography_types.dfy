/** The biography document: a tree of sections whose sibling collections are
    string-keyed records, modelled as insertion-ordered sequences of
    key/section entries, and the edit-log record. */
module BiographyTypes {
  import opened Strings
  import opened Wrappers

  datatype Section = Section(
    id: string,
    title: string,
    content: string,
    createdAt: string,
    lastEdit: string,
    subsections: seq<Entry>,
    isNew: Option<bool>)

  /** One `[key, section]` pair of a `Record<string, Section>`. */
  datatype Entry = Entry(key: string, section: Section)

  datatype Biography = Biography(
    id: string,
    title: string,
    content: string,
    createdAt: string,
    lastEdit: string,
    subsections: seq<Entry>)

  datatype EditType = Rename | Delete | ContentChange | Comment | Add

  datatype CommentNote = CommentNote(text: string, comment: string)

  /** The optional payload of an edit; every field is optional. */
  datatype EditData = EditData(
    newTitle: Option<string>,
    parentTitle: Option<string>,
    sectionPrompt: Option<string>,
    newContent: Option<string>,
    comment: Option<CommentNote>)

  datatype BiographyEdit = BiographyEdit(
    kind: EditType,
    sectionId: string,
    title: string,
    data: Option<EditData>,
    timestamp: int)

  const NoData := EditData(None, None, None, None, None)

  /** `title.split(' ')[0]`: the dotted section number in front of a title. */
  function SectionNumber(title: string): string {
    Split(title, ' ')[0]
  }

  /** The number of `number + " " + name` is `number` when it holds no space. */
  lemma NumberOfFullTitle(number: string, name: string)
    requires ' ' !in number
    ensures SectionNumber(number + " " + name) == number
  {
    SplitHeadBeforeSeparator(number, name, ' ');
  }

  /** A section visited in pre-order, with the key it is stored under and
      its heading level. */
  datatype Visit = Visit(key: string, section: Section, level: int)

  /** Pre-order traversal: a node, then its subsections one level deeper,
      then its later siblings, each collection in its own order. */
  function Flatten(s: seq<Entry>, level: int): seq<Visit>
    decreases s
  {
    if s == [] then []
    else [Visit(s[0].key, s[0].section, level)]
         + Flatten(s[0].section.subsections, level + 1)
         + Flatten(s[1..], level)
  }

  /** Section ids in pre-order. */
  function Ids(s: seq<Entry>): seq<string>
    decreases s
  {
    if s == [] then []
    else [s[0].section.id] + Ids(s[0].section.subsections) + Ids(s[1..])
  }

  /** Record keys in pre-order. */
  function Keys(s: seq<Entry>): seq<string>
    decreases s
  {
    if s == [] then []
    else [s[0].key] + Keys(s[0].section.subsections) + Keys(s[1..])
  }

  /** The keys of one collection, in order (`Object.keys`). */
  function SiblingKeys(s: seq<Entry>): (ks: seq<string>)
    ensures |ks| == |s|
    ensures forall i :: 0 <= i < |s| ==> ks[i] == s[i].key
  {
    if s == [] then [] else [s[0].key] + SiblingKeys(s[1..])
  }

  predicate Distinct(xs: seq<string>) {
    forall i, j :: 0 <= i < j < |xs| ==> xs[i] != xs[j]
  }

  /** The elements of `s` that `keep` accepts, in their order. */
  function Filter<T>(s: seq<T>, keep: T -> bool): (r: seq<T>)
    ensures |r| <= |s|
    decreases s
  {
    if s == [] then [] else (if keep(s[0]) then [s[0]] else []) + Filter(s[1..], keep)
  }

  lemma {:induction false} FilterAppend<T>(a: seq<T>, b: seq<T>, keep: T -> bool)
    ensures Filter(a + b, keep) == Filter(a, keep) + Filter(b, keep)
    decreases a
  {
    if a == [] {
      assert a + b == b;
    } else {
      var head := if keep(a[0]) then [a[0]] else [];
      assert (a + b)[0] == a[0] && (a + b)[1..] == a[1..] + b;
      assert Filter(a + b, keep) == head + Filter(a[1..] + b, keep);
      FilterAppend(a[1..], b, keep);
      assert head + (Filter(a[1..], keep) + Filter(b, keep)) == (head + Filter(a[1..], keep)) + Filter(b, keep);
    }
  }

  lemma {:induction false} FilterKeepsAll<T>(s: seq<T>, keep: T -> bool)
    requires forall x :: x in s ==> keep(x)
    ensures Filter(s, keep) == s
    decreases s
  {
    if s != [] {
      assert forall x :: x in s[1..] ==> x in s;
      FilterKeepsAll(s[1..], keep);
      assert [s[0]] + s[1..] == s;
    }
  }

  lemma {:induction false} FilterDropsAll<T>(s: seq<T>, keep: T -> bool)
    requires forall x :: x in s ==> !keep(x)
    ensures Filter(s, keep) == []
    decreases s
  {
    if s != [] {
      assert forall x :: x in s[1..] ==> x in s;
      FilterDropsAll(s[1..], keep);
    }
  }

  /** Pieces of a duplicate-free sequence are duplicate-free and disjoint. */
  lemma DistinctAppend(a: seq<string>, b: seq<string>)
    requires Distinct(a + b)
    ensures Distinct(a) && Distinct(b)
    ensures forall x :: x in a ==> x !in b
  {
    forall i, j | 0 <= i < j < |a| ensures a[i] != a[j] {
      assert (a + b)[i] == a[i] && (a + b)[j] == a[j];
    }
    forall i, j | 0 <= i < j < |b| ensures b[i] != b[j] {
      assert (a + b)[|a| + i] == b[i] && (a + b)[|a| + j] == b[j];
    }
    forall i, j | 0 <= i < |a| && 0 <= j < |b| ensures a[i] != b[j] {
      assert (a + b)[i] == a[i] && (a + b)[|a| + j] == b[j];
    }
  }

  /** Duplicate-free pieces with nothing in common make a duplicate-free
      whole. */
  lemma DistinctConcat(a: seq<string>, b: seq<string>)
    requires Distinct(a) && Distinct(b)
    requires forall x :: x in a ==> x !in b
    ensures Distinct(a + b)
  {
    forall i, j | 0 <= i < j < |a + b| ensures (a + b)[i] != (a + b)[j] {
      if j < |a| {
        assert (a + b)[i] == a[i] && (a + b)[j] == a[j];
      } else if i >= |a| {
        assert (a + b)[i] == b[i - |a|] && (a + b)[j] == b[j - |a|];
      } else {
        assert (a + b)[i] == a[i] && a[i] in a && (a + b)[j] == b[j - |a|];
      }
    }
  }

  lemma {:induction false} FlattenAppend(a: seq<Entry>, b: seq<Entry>, level: int)
    ensures Flatten(a + b, level) == Flatten(a, level) + Flatten(b, level)
    decreases a
  {
    if a == [] {
      assert a + b == b;
    } else {
      assert (a + b)[0] == a[0] && (a + b)[1..] == a[1..] + b;
      FlattenAppend(a[1..], b, level);
    }
  }

  lemma {:induction false} IdsAppend(a: seq<Entry>, b: seq<Entry>)
    ensures Ids(a + b) == Ids(a) + Ids(b)
    decreases a
  {
    if a == [] {
      assert a + b == b;
    } else {
      assert (a + b)[0] == a[0] && (a + b)[1..] == a[1..] + b;
      IdsAppend(a[1..], b);
    }
  }

  lemma {:induction false} KeysAppend(a: seq<Entry>, b: seq<Entry>)
    ensures Keys(a + b) == Keys(a) + Keys(b)
    decreases a
  {
    if a == [] {
      assert a + b == b;
    } else {
      assert (a + b)[0] == a[0] && (a + b)[1..] == a[1..] + b;
      KeysAppend(a[1..], b);
    }
  }

  /** Every traversal visits the same number of sections. */
  lemma {:induction false} TraversalSizes(s: seq<Entry>, level: int)
    ensures |Flatten(s, level)| == |Ids(s)| == |Keys(s)|
    decreases s
  {
    if s != [] {
      TraversalSizes(s[0].section.subsections, level + 1);
      TraversalSizes(s[1..], level);
    }
  }
}
