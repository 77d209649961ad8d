/** Helpers over the section tree and the edit log: the edit-log compactor,
    the numeric ordering of section numbers and the stable sort built on it,
    the parent lookup used when a section is added, and the two validators
    of dotted section numbers. */
module BiographyUtils {
  import opened Strings
  import opened Wrappers
  import opened BiographyTypes

  // ---------------------------------------------------------------------
  // Edit-log compaction

  /** Two edits of the same kind about the same section. */
  predicate SameTarget(x: BiographyEdit, e: BiographyEdit) {
    x.kind == e.kind && x.sectionId == e.sectionId
  }

  /** `prevEdits.filter(edit => !(edit.type === newEdit.type && edit.sectionId === newEdit.sectionId))` */
  function DropSameTarget(prev: seq<BiographyEdit>, e: BiographyEdit): (r: seq<BiographyEdit>)
    ensures |r| <= |prev|
    ensures forall x :: x in r <==> x in prev && !SameTarget(x, e)
    decreases prev
  {
    if prev == [] then []
    else if SameTarget(prev[0], e) then DropSameTarget(prev[1..], e)
    else [prev[0]] + DropSameTarget(prev[1..], e)
  }

  /** A later non-comment edit supersedes the earlier ones of the same kind
      on the same section; comments accumulate. */
  function AddOrUpdateEdit(prev: seq<BiographyEdit>, e: BiographyEdit): (r: seq<BiographyEdit>)
    ensures |r| >= 1 && r[|r| - 1] == e
    ensures e.kind == Comment ==> r == prev + [e]
    ensures e.kind != Comment ==>
      forall x :: x in r[..|r| - 1] <==> x in prev && !SameTarget(x, e)
  {
    if e.kind == Comment then prev + [e]
    else
      var kept := DropSameTarget(prev, e);
      assert (kept + [e])[..|kept|] == kept;
      kept + [e]
  }

  /** The filter keeps the surviving entries in their original order: it
      distributes over concatenation. */
  lemma {:induction false} DropSameTargetAppend(a: seq<BiographyEdit>, b: seq<BiographyEdit>, e: BiographyEdit)
    ensures DropSameTarget(a + b, e) == DropSameTarget(a, e) + DropSameTarget(b, e)
    decreases a
  {
    if a == [] {
      assert a + b == b;
    } else {
      assert (a + b)[0] == a[0] && (a + b)[1..] == a[1..] + b;
      DropSameTargetAppend(a[1..], b, e);
    }
  }

  /** Every entry that is not superseded keeps all of its occurrences;
      every superseded one loses all of them. */
  lemma {:induction false} DropSameTargetCounts(prev: seq<BiographyEdit>, e: BiographyEdit, x: BiographyEdit)
    ensures multiset(DropSameTarget(prev, e))[x] == if SameTarget(x, e) then 0 else multiset(prev)[x]
    decreases prev
  {
    if prev != [] {
      DropSameTargetCounts(prev[1..], e, x);
      assert prev == [prev[0]] + prev[1..];
    }
  }

  /** With nothing to supersede, the log is kept as it is. */
  lemma {:induction false} DropSameTargetNothingToDrop(prev: seq<BiographyEdit>, e: BiographyEdit)
    requires forall i :: 0 <= i < |prev| ==> !SameTarget(prev[i], e)
    ensures DropSameTarget(prev, e) == prev
    decreases prev
  {
    if prev != [] {
      DropSameTargetNothingToDrop(prev[1..], e);
      assert prev == [prev[0]] + prev[1..];
    }
  }

  /** The log holds at most one non-comment edit per kind and section. */
  predicate Compacted(log: seq<BiographyEdit>) {
    forall i, j :: 0 <= i < j < |log| && log[i].kind != Comment ==> !SameTarget(log[i], log[j])
  }

  /** Dropping superseded entries keeps a compacted log compacted. */
  lemma {:induction false} DropSameTargetKeepsCompacted(prev: seq<BiographyEdit>, e: BiographyEdit)
    requires Compacted(prev)
    ensures Compacted(DropSameTarget(prev, e))
    decreases prev
  {
    if prev != [] {
      var rest := prev[1..];
      assert Compacted(rest) by {
        forall i, j | 0 <= i < j < |rest| && rest[i].kind != Comment ensures !SameTarget(rest[i], rest[j]) {
          assert rest[i] == prev[i + 1] && rest[j] == prev[j + 1];
        }
      }
      DropSameTargetKeepsCompacted(rest, e);
      if !SameTarget(prev[0], e) {
        var t := DropSameTarget(rest, e);
        var r := [prev[0]] + t;
        forall i, j | 0 <= i < j < |r| && r[i].kind != Comment ensures !SameTarget(r[i], r[j]) {
          if i == 0 {
            assert r[j] == t[j - 1] && t[j - 1] in t;
            var k :| 0 <= k < |rest| && rest[k] == r[j];
            assert prev[k + 1] == r[j];
          } else {
            assert r[i] == t[i - 1] && r[j] == t[j - 1];
          }
        }
      }
    }
  }

  /** Compaction is an invariant of the log. */
  lemma AddOrUpdateEditKeepsCompacted(prev: seq<BiographyEdit>, e: BiographyEdit)
    requires Compacted(prev)
    ensures Compacted(AddOrUpdateEdit(prev, e))
  {
    var r := AddOrUpdateEdit(prev, e);
    var kept := if e.kind == Comment then prev else DropSameTarget(prev, e);
    if e.kind != Comment {
      DropSameTargetKeepsCompacted(prev, e);
    }
    assert r == kept + [e];
    forall i, j | 0 <= i < j < |r| && r[i].kind != Comment ensures !SameTarget(r[i], r[j]) {
      if j == |r| - 1 {
        assert r[i] == kept[i] && kept[i] in kept;
      } else {
        assert r[i] == kept[i] && r[j] == kept[j];
      }
    }
  }

  /** Logging the same non-comment edit twice is logging it once. */
  lemma AddOrUpdateEditIdempotent(prev: seq<BiographyEdit>, e: BiographyEdit)
    requires e.kind != Comment
    ensures AddOrUpdateEdit(AddOrUpdateEdit(prev, e), e) == AddOrUpdateEdit(prev, e)
  {
    var once := DropSameTarget(prev, e);
    DropSameTargetAppend(once, [e], e);
    assert forall i :: 0 <= i < |once| ==> once[i] in once;
    DropSameTargetNothingToDrop(once, e);
  }

  /** Two renames of one section leave a single entry, the later rename. */
  lemma RenameTwiceKeepsLast(r1: BiographyEdit, r2: BiographyEdit)
    requires r1.kind == Rename && r2.kind == Rename && r1.sectionId == r2.sectionId
    ensures AddOrUpdateEdit(AddOrUpdateEdit([], r1), r2) == [r2]
  {
    assert DropSameTarget([], r1) == [];
    assert AddOrUpdateEdit([], r1) == [r1];
    assert SameTarget(r1, r2) && [r1][1..] == [];
    assert DropSameTarget([r1], r2) == [];
  }

  /** Two comments on one section are both kept, in order. */
  lemma CommentTwiceKeepsBoth(c1: BiographyEdit, c2: BiographyEdit)
    requires c1.kind == Comment && c2.kind == Comment
    ensures AddOrUpdateEdit(AddOrUpdateEdit([], c1), c2) == [c1, c2]
  {
    assert AddOrUpdateEdit([], c1) == [c1];
  }

  // ---------------------------------------------------------------------
  // Numeric order of section numbers

  /** `title.split(' ')[0].split('.').map(Number)`, with NaN read as 0. */
  function SectionKey(title: string): (k: seq<int>)
    ensures |k| == |Split(SectionNumber(title), '.')|
  {
    var parts := Split(SectionNumber(title), '.');
    seq(|parts|, i requires 0 <= i < |parts| => SegmentValue(parts[i]))
  }

  /** A section number written from its segment values, e.g. [1, 10] as
      "1.10". */
  function DottedNumber(ns: seq<nat>): string {
    Join(seq(|ns|, i requires 0 <= i < |ns| => DecimalString(ns[i])), '.')
  }

  /** The sort key reads a title's number back as its numeric segments:
      "1.10 Name" keys to [1, 10], so segments compare as numbers. */
  lemma SectionKeyOfDottedNumber(ns: seq<nat>, name: string)
    requires |ns| >= 1
    ensures SectionKey(DottedNumber(ns) + " " + name) == ns
  {
    var parts := seq(|ns|, i requires 0 <= i < |ns| => DecimalString(ns[i]));
    forall i | 0 <= i < |parts| ensures '.' !in parts[i] && ' ' !in parts[i] {
      assert AllDigits(parts[i]);
    }
    JoinLacks(parts, '.', ' ');
    NumberOfFullTitle(DottedNumber(ns), name);
    SplitJoin(parts, '.');
    var k := SectionKey(DottedNumber(ns) + " " + name);
    forall i | 0 <= i < |ns| ensures k[i] == ns[i] {
      assert k[i] == SegmentValue(parts[i]);
    }
  }

  /** `k[i] || 0`: a missing segment counts as 0. */
  function At(k: seq<int>, i: nat): int {
    if i < |k| then k[i] else 0
  }

  function Drop(k: seq<int>, i: nat): (d: seq<int>)
    ensures forall j: nat :: At(d, j) == At(k, i + j)
  {
    if i <= |k| then k[i..] else []
  }

  /** Segment-by-segment comparison, the first differing segment deciding:
      negative, zero or positive as `a` sorts before, with or after `b`. */
  function CompareKeys(a: seq<int>, b: seq<int>): int
    decreases |a| + |b|
  {
    if a == [] && b == [] then 0
    else if At(a, 0) != At(b, 0) then At(a, 0) - At(b, 0)
    else CompareKeys(Drop(a, 1), Drop(b, 1))
  }

  lemma CompareKeysStep(a: seq<int>, b: seq<int>)
    ensures CompareKeys(a, b) ==
      if At(a, 0) != At(b, 0) then At(a, 0) - At(b, 0) else CompareKeys(Drop(a, 1), Drop(b, 1))
  {
  }

  /** The comparison is decided by the first segment (missing ones as 0)
      where the keys differ, and is 0 exactly when there is none. */
  lemma CompareKeysFirstDifference(a: seq<int>, b: seq<int>)
    ensures CompareKeys(a, b) == 0 <==> forall j: nat :: At(a, j) == At(b, j)
    ensures CompareKeys(a, b) != 0 ==>
      exists k: nat :: (forall j: nat :: j < k ==> At(a, j) == At(b, j)) &&
                       CompareKeys(a, b) == At(a, k) - At(b, k)
  {
    CompareKeysZeroExactly(a, b);
    CompareKeysDecided(a, b);
  }

  lemma {:induction false} CompareKeysZeroExactly(a: seq<int>, b: seq<int>)
    ensures CompareKeys(a, b) == 0 <==> forall j: nat :: At(a, j) == At(b, j)
    decreases |a| + |b|
  {
    if !(a == [] && b == []) && At(a, 0) == At(b, 0) {
      var a', b' := Drop(a, 1), Drop(b, 1);
      CompareKeysZeroExactly(a', b');
      if CompareKeys(a, b) == 0 {
        forall j: nat ensures At(a, j) == At(b, j) {
          if j > 0 { assert At(a', j - 1) == At(b', j - 1); }
        }
      }
      if forall j: nat :: At(a, j) == At(b, j) {
        forall j: nat ensures At(a', j) == At(b', j) {
          assert At(a, j + 1) == At(b, j + 1);
        }
      }
    }
  }

  lemma {:induction false} CompareKeysDecided(a: seq<int>, b: seq<int>)
    ensures CompareKeys(a, b) != 0 ==>
      exists k: nat :: (forall j: nat :: j < k ==> At(a, j) == At(b, j)) &&
                       CompareKeys(a, b) == At(a, k) - At(b, k)
    decreases |a| + |b|
  {
    if a == [] && b == [] {
    } else if At(a, 0) != At(b, 0) {
      assert (forall j: nat :: j < 0 ==> At(a, j) == At(b, j)) && CompareKeys(a, b) == At(a, 0) - At(b, 0);
    } else if CompareKeys(a, b) != 0 {
      var a', b' := Drop(a, 1), Drop(b, 1);
      CompareKeysDecided(a', b');
      var k: nat :| (forall j: nat :: j < k ==> At(a', j) == At(b', j)) && CompareKeys(a', b') == At(a', k) - At(b', k);
      AgreeOneFurther(a, b, k);
      assert CompareKeys(a, b) == CompareKeys(a', b');
      assert (forall j: nat :: j < k + 1 ==> At(a, j) == At(b, j)) && CompareKeys(a, b) == At(a, k + 1) - At(b, k + 1);
    }
  }

  /** Keys equal in their first segment and then for `k` more agree on
      `k + 1` segments, and their segment `k + 1` is the tails' segment `k`. */
  lemma AgreeOneFurther(a: seq<int>, b: seq<int>, k: nat)
    requires At(a, 0) == At(b, 0)
    requires forall j: nat :: j < k ==> At(Drop(a, 1), j) == At(Drop(b, 1), j)
    ensures forall j: nat :: j < k + 1 ==> At(a, j) == At(b, j)
    ensures At(Drop(a, 1), k) == At(a, k + 1) && At(Drop(b, 1), k) == At(b, k + 1)
  {
    forall j: nat | j < k + 1 ensures At(a, j) == At(b, j) {
      if j > 0 {
        assert At(Drop(a, 1), j - 1) == At(Drop(b, 1), j - 1);
      }
    }
  }

  lemma {:induction false} CompareKeysReflexive(a: seq<int>)
    ensures CompareKeys(a, a) == 0
    decreases |a|
  {
    if a != [] {
      CompareKeysReflexive(Drop(a, 1));
    }
  }

  lemma {:induction false} CompareKeysAntisymmetric(a: seq<int>, b: seq<int>)
    ensures CompareKeys(a, b) == -CompareKeys(b, a)
    decreases |a| + |b|
  {
    if !(a == [] && b == []) && At(a, 0) == At(b, 0) {
      CompareKeysAntisymmetric(Drop(a, 1), Drop(b, 1));
    }
  }

  lemma {:induction false} CompareKeysTransitive(a: seq<int>, b: seq<int>, c: seq<int>)
    requires CompareKeys(a, b) <= 0 && CompareKeys(b, c) <= 0
    ensures CompareKeys(a, c) <= 0
    decreases |a| + |b| + |c|
  {
    CompareKeysStep(a, b);
    CompareKeysStep(b, c);
    CompareKeysStep(a, c);
    if a == [] && b == [] && c == [] {
    } else if At(a, 0) == At(b, 0) && At(b, 0) == At(c, 0) {
      CompareKeysTransitive(Drop(a, 1), Drop(b, 1), Drop(c, 1));
    }
  }

  /** `CompareKeys` of the parts after position `i` either decides at
      position `i` or moves on to position `i + 1`. */
  lemma CompareKeysAt(a: seq<int>, b: seq<int>, i: nat)
    ensures At(a, i) != At(b, i) ==> CompareKeys(Drop(a, i), Drop(b, i)) == At(a, i) - At(b, i)
    ensures At(a, i) == At(b, i) ==> CompareKeys(Drop(a, i), Drop(b, i)) == CompareKeys(Drop(a, i + 1), Drop(b, i + 1))
  {
    CompareKeysStep(Drop(a, i), Drop(b, i));
    assert At(Drop(a, i), 0) == At(a, i) && At(Drop(b, i), 0) == At(b, i);
    assert Drop(Drop(a, i), 1) == Drop(a, i + 1);
    assert Drop(Drop(b, i), 1) == Drop(b, i + 1);
  }

  /** The comparator of `sortSectionsByNumber`, a loop over the segments
      with an early return at the first difference. */
  method CompareSectionNumbers(a: Section, b: Section) returns (r: int)
    ensures r == CompareKeys(SectionKey(a.title), SectionKey(b.title))
  {
    var aNum := SectionKey(a.title);
    var bNum := SectionKey(b.title);
    var n := if |aNum| < |bNum| then |bNum| else |aNum|;
    var i := 0;
    while i < n
      invariant 0 <= i <= n
      invariant CompareKeys(aNum, bNum) == CompareKeys(Drop(aNum, i), Drop(bNum, i))
    {
      var aVal := At(aNum, i);
      var bVal := At(bNum, i);
      CompareKeysAt(aNum, bNum, i);
      if aVal != bVal {
        return aVal - bVal;
      }
      i := i + 1;
    }
    assert Drop(aNum, i) == [] && Drop(bNum, i) == [];
    return 0;
  }

  // ---------------------------------------------------------------------
  // Sorting a sibling collection

  function KeyOf(e: Entry): seq<int> {
    SectionKey(e.section.title)
  }

  predicate InOrder(x: Entry, y: Entry) {
    CompareKeys(KeyOf(x), KeyOf(y)) <= 0
  }

  predicate SortedByNumber(s: seq<Entry>) {
    forall i, j :: 0 <= i < j < |s| ==> InOrder(s[i], s[j])
  }

  /** Place `e` in front of the first entry it does not sort after, so it
      stays ahead of entries with an equal number. */
  function InsertByNumber(e: Entry, s: seq<Entry>): (r: seq<Entry>)
    ensures multiset(r) == multiset(s) + multiset{e}
    ensures |r| == |s| + 1
    decreases s
  {
    if s == [] then [e]
    else if InOrder(e, s[0]) then [e] + s
    else
      assert s == [s[0]] + s[1..];
      [s[0]] + InsertByNumber(e, s[1..])
  }

  /** `Object.fromEntries(Object.entries(sections).sort(cmp))`: a stable
      sort of the entries by section number. */
  function SortSectionsByNumber(s: seq<Entry>): (r: seq<Entry>)
    ensures multiset(r) == multiset(s)
    ensures |r| == |s|
    decreases s
  {
    if s == [] then []
    else
      assert s == [s[0]] + s[1..];
      InsertByNumber(s[0], SortSectionsByNumber(s[1..]))
  }

  lemma SortedCons(x: Entry, t: seq<Entry>)
    requires SortedByNumber(t)
    requires forall y :: y in t ==> InOrder(x, y)
    ensures SortedByNumber([x] + t)
  {
    var r := [x] + t;
    forall i, j | 0 <= i < j < |r| ensures InOrder(r[i], r[j]) {
      assert r[j] == t[j - 1] && t[j - 1] in t;
      if i > 0 { assert r[i] == t[i - 1]; }
    }
  }

  /** A lower bound of `e` and of every entry of `s` bounds the result. */
  lemma {:induction false} InsertByNumberLowerBound(b: Entry, e: Entry, s: seq<Entry>)
    requires InOrder(b, e)
    requires forall y :: y in s ==> InOrder(b, y)
    ensures forall y :: y in InsertByNumber(e, s) ==> InOrder(b, y)
    decreases s
  {
    if s != [] && !InOrder(e, s[0]) {
      assert forall y :: y in s[1..] ==> y in s;
      InsertByNumberLowerBound(b, e, s[1..]);
    }
  }

  lemma {:induction false} InsertByNumberSorted(e: Entry, s: seq<Entry>)
    requires SortedByNumber(s)
    ensures SortedByNumber(InsertByNumber(e, s))
    decreases s
  {
    if s == [] {
    } else if InOrder(e, s[0]) {
      forall y | y in s ensures InOrder(e, y) {
        var k :| 0 <= k < |s| && s[k] == y;
        if k > 0 {
          CompareKeysTransitive(KeyOf(e), KeyOf(s[0]), KeyOf(y));
        }
      }
      SortedCons(e, s);
    } else {
      var rest := s[1..];
      assert SortedByNumber(rest) by {
        forall i, j | 0 <= i < j < |rest| ensures InOrder(rest[i], rest[j]) {
          assert rest[i] == s[i + 1] && rest[j] == s[j + 1];
        }
      }
      InsertByNumberSorted(e, rest);
      CompareKeysAntisymmetric(KeyOf(e), KeyOf(s[0]));
      forall y | y in rest ensures InOrder(s[0], y) {
        var k :| 0 <= k < |rest| && rest[k] == y;
        assert s[k + 1] == y;
      }
      InsertByNumberLowerBound(s[0], e, rest);
      SortedCons(s[0], InsertByNumber(e, rest));
    }
  }

  /** The sorted collection is in nondecreasing numeric order. */
  lemma {:induction false} SortSectionsByNumberSorted(s: seq<Entry>)
    ensures SortedByNumber(SortSectionsByNumber(s))
    decreases s
  {
    if s != [] {
      SortSectionsByNumberSorted(s[1..]);
      InsertByNumberSorted(s[0], SortSectionsByNumber(s[1..]));
    }
  }

  /** A collection already in order comes back unchanged. */
  lemma {:induction false} SortSectionsByNumberKeepsSorted(s: seq<Entry>)
    requires SortedByNumber(s)
    ensures SortSectionsByNumber(s) == s
    decreases s
  {
    if s != [] {
      assert SortedByNumber(s[1..]) by {
        forall i, j | 0 <= i < j < |s[1..]| ensures InOrder(s[1..][i], s[1..][j]) {
          assert s[1..][i] == s[i + 1] && s[1..][j] == s[j + 1];
        }
      }
      SortSectionsByNumberKeepsSorted(s[1..]);
      if |s| > 1 {
        assert InOrder(s[0], s[1]);
      }
      assert s == [s[0]] + s[1..];
    }
  }

  /** The entries whose number compares equal to `k`, in collection order. */
  function Tied(s: seq<Entry>, k: seq<int>): seq<Entry> {
    Filter(s, EqualTo(k))
  }

  function EqualTo(k: seq<int>): Entry -> bool {
    (y: Entry) => CompareKeys(KeyOf(y), k) == 0
  }

  /** Two numbers equal to a third are equal to each other. */
  lemma CompareKeysZeroTransitive(a: seq<int>, b: seq<int>, c: seq<int>)
    requires CompareKeys(a, c) == 0 && CompareKeys(b, c) == 0
    ensures CompareKeys(a, b) == 0
  {
    CompareKeysFirstDifference(a, c);
    CompareKeysFirstDifference(b, c);
    CompareKeysFirstDifference(a, b);
  }

  /** Inserting never moves `e` behind an entry whose number equals its own. */
  lemma {:induction false} InsertByNumberTied(e: Entry, s: seq<Entry>, k: seq<int>)
    ensures Tied(InsertByNumber(e, s), k) == Tied([e] + s, k)
    decreases s
  {
    if s != [] && !InOrder(e, s[0]) {
      var te, t0, t1 := Tied([e], k), Tied([s[0]], k), Tied(s[1..], k);
      InsertByNumberTied(e, s[1..], k);
      var tied := EqualTo(k);
      FilterAppend([s[0]], InsertByNumber(e, s[1..]), tied);
      FilterAppend([e], s[1..], tied);
      FilterAppend([e], s, tied);
      FilterAppend([s[0]], s[1..], tied);
      assert [s[0]] + s[1..] == s;
      assert Tied(InsertByNumber(e, s), k) == t0 + (te + t1);
      assert Tied([e] + s, k) == te + (t0 + t1);
      if te != [] && t0 != [] {
        CompareKeysZeroTransitive(KeyOf(e), KeyOf(s[0]), k);
      }
      SwapEmpty(t0, te, t1);
    }
  }

  /** Two pieces of which one is empty can be taken in either order. */
  lemma SwapEmpty<T>(a: seq<T>, b: seq<T>, c: seq<T>)
    requires a == [] || b == []
    ensures a + (b + c) == b + (a + c)
  {
    if a == [] {
      assert a + (b + c) == b + c && a + c == c;
    } else {
      assert b + (a + c) == a + c && b + c == c;
    }
  }

  /** The sort is stable: entries with equal numbers keep their relative
      order. */
  lemma {:induction false} SortSectionsByNumberStable(s: seq<Entry>, k: seq<int>)
    ensures Tied(SortSectionsByNumber(s), k) == Tied(s, k)
    decreases s
  {
    if s != [] {
      SortSectionsByNumberStable(s[1..], k);
      InsertKeepsTies(s, SortSectionsByNumber(s[1..]), k);
    }
  }

  /** One step of the sort: inserting the first entry into a collection
      whose ties with `k` are those of the rest gives the ties of the whole. */
  lemma InsertKeepsTies(s: seq<Entry>, sortedRest: seq<Entry>, k: seq<int>)
    requires s != [] && Tied(sortedRest, k) == Tied(s[1..], k)
    ensures Tied(InsertByNumber(s[0], sortedRest), k) == Tied(s, k)
  {
    var tied := EqualTo(k);
    InsertByNumberTied(s[0], sortedRest, k);
    FilterAppend([s[0]], sortedRest, tied);
    FilterAppend([s[0]], s[1..], tied);
    assert [s[0]] + s[1..] == s;
  }

  // ---------------------------------------------------------------------
  // Finding the parent of a new section

  /** `targetNumber.split('.').slice(0, -1).join('.')` */
  function ParentNumber(target: string): string {
    var parts := Split(target, '.');
    Join(parts[..|parts| - 1], '.')
  }

  /** Dropping the last segment of a dotted number written as its segments. */
  lemma {:induction false} ParentNumberOfSegments(parts: seq<string>)
    requires |parts| >= 1
    requires forall i :: 0 <= i < |parts| ==> '.' !in parts[i]
    ensures ParentNumber(Join(parts, '.')) == Join(parts[..|parts| - 1], '.')
    ensures |parts| == 1 ==> ParentNumber(Join(parts, '.')) == ""
  {
    SplitJoin(parts, '.');
  }

  /** The pre-order search of `findParentSection` once the parent number
      is known; a key found in a subtree counts only when it is truthy. */
  function FindSectionNumber(s: seq<Entry>, parentNumber: string): Option<string>
    decreases s
  {
    if s == [] then None
    else if SectionNumber(s[0].section.title) == parentNumber then Some(s[0].key)
    else
      var inSub := FindSectionNumber(s[0].section.subsections, parentNumber);
      if inSub.Some? && inSub.value != "" then inSub
      else FindSectionNumber(s[1..], parentNumber)
  }

  /** `findParentSection(sections, targetNumber)`: `None` for a top-level
      number, otherwise the key of the section numbered like the parent. */
  function FindParentSection(s: seq<Entry>, target: string): Option<string> {
    var p := ParentNumber(target);
    if p == "" then None else FindSectionNumber(s, p)
  }

  /** A number without a `.` has an empty parent number: top level. */
  lemma FindParentSectionTopLevel(s: seq<Entry>, target: string)
    requires '.' !in target
    ensures FindParentSection(s, target) == None
  {
    ParentNumberOfSegments([target]);
    assert Join([target], '.') == target;
  }

  /** Reference search: the key of the first visit whose number is `p`. */
  function FirstNumbered(vs: seq<Visit>, p: string): (r: Option<string>)
    ensures r.None? <==> forall i :: 0 <= i < |vs| ==> SectionNumber(vs[i].section.title) != p
    ensures r.Some? ==> exists i :: (0 <= i < |vs| && vs[i].key == r.value &&
      SectionNumber(vs[i].section.title) == p &&
      forall j :: 0 <= j < i ==> SectionNumber(vs[j].section.title) != p)
    decreases vs
  {
    if vs == [] then None
    else if SectionNumber(vs[0].section.title) == p then Some(vs[0].key)
    else
      var r := FirstNumbered(vs[1..], p);
      assert forall i :: 1 <= i < |vs| ==> vs[i] == vs[1..][i - 1];
      r
  }

  lemma {:induction false} FirstNumberedAppend(a: seq<Visit>, b: seq<Visit>, p: string)
    ensures FirstNumbered(a + b, p) == if FirstNumbered(a, p).Some? then FirstNumbered(a, p) else FirstNumbered(b, p)
    decreases a
  {
    if a == [] {
      assert a + b == b;
    } else {
      assert (a + b)[0] == a[0] && (a + b)[1..] == a[1..] + b;
      FirstNumberedAppend(a[1..], b, p);
    }
  }

  /** With non-empty keys, the search returns the key of the first section
      in pre-order (a node before its subsections) that carries the parent
      number, and `None` when no section does. */
  lemma {:induction false} FindSectionNumberIsFirstInPreOrder(s: seq<Entry>, p: string, level: int)
    requires "" !in Keys(s)
    ensures FindSectionNumber(s, p) == FirstNumbered(Flatten(s, level), p)
    decreases s
  {
    if s != [] {
      var head := [Visit(s[0].key, s[0].section, level)];
      var sub := Flatten(s[0].section.subsections, level + 1);
      var rest := Flatten(s[1..], level);
      FindSectionNumberIsFirstInPreOrder(s[0].section.subsections, p, level + 1);
      FindSectionNumberIsFirstInPreOrder(s[1..], p, level);
      FirstNumberedAppend(head + sub, rest, p);
      FirstNumberedAppend(head, sub, p);
      var inSub := FindSectionNumber(s[0].section.subsections, p);
      if inSub.Some? {
        FindSectionNumberFindsKey(s[0].section.subsections, p);
        assert inSub.value in Keys(s);
      }
    }
  }

  /** Whatever the search returns is a key of the tree. */
  lemma {:induction false} FindSectionNumberFindsKey(s: seq<Entry>, p: string)
    ensures FindSectionNumber(s, p).Some? ==> FindSectionNumber(s, p).value in Keys(s)
    decreases s
  {
    if s != [] {
      FindSectionNumberFindsKey(s[0].section.subsections, p);
      FindSectionNumberFindsKey(s[1..], p);
    }
  }

  // ---------------------------------------------------------------------
  // Validators of dotted numbers

  /** `isValidSubsectionNumber`: one more segment than the parent, the
      parent's segments repeated, and a numeric last segment. */
  method IsValidSubsectionNumber(parentNumber: string, childNumber: string) returns (ok: bool)
    ensures ok <==>
      var pp := Split(parentNumber, '.');
      var cp := Split(childNumber, '.');
      |cp| == |pp| + 1 &&
      (forall i :: 0 <= i < |pp| ==> pp[i] == cp[i]) &&
      IsNumeric(cp[|cp| - 1])
  {
    var parentParts := Split(parentNumber, '.');
    var childParts := Split(childNumber, '.');
    if |childParts| != |parentParts| + 1 {
      return false;
    }
    var i := 0;
    while i < |parentParts|
      invariant 0 <= i <= |parentParts|
      invariant forall j :: 0 <= j < i ==> parentParts[j] == childParts[j]
    {
      if parentParts[i] != childParts[i] {
        return false;
      }
      i := i + 1;
    }
    return IsNumeric(childParts[|childParts| - 1]);
  }

  /** `isValidPathFormat`: empty, or at most three segments of which the
      first is a non-empty digit string and each later one is numeric (the
      parent-prefix test inside the loop always holds). */
  method IsValidPathFormat(sectionNumber: string) returns (ok: bool)
    ensures ok <==>
      sectionNumber == "" ||
      var parts := Split(sectionNumber, '.');
      |parts| <= 3 && parts[0] != "" && AllDigits(parts[0]) &&
      forall i :: 1 <= i < |parts| ==> IsNumeric(parts[i])
  {
    if sectionNumber == "" {
      return true;
    }
    var parts := Split(sectionNumber, '.');
    if |parts| > 3 {
      return false;
    }
    if parts[0] == "" || !AllDigits(parts[0]) {
      return false;
    }
    var i := 1;
    while i < |parts|
      invariant 1 <= i <= |parts|
      invariant forall j :: 1 <= j < i ==> IsNumeric(parts[j])
    {
      var parentNumber := Join(parts[..i], '.');
      var currentNumber := Join(parts[..i + 1], '.');
      SplitJoin(parts[..i], '.');
      SplitJoin(parts[..i + 1], '.');
      var valid := IsValidSubsectionNumber(parentNumber, currentNumber);
      assert valid <==> IsNumeric(parts[i]);
      if !valid {
        return false;
      }
      i := i + 1;
    }
    return true;
  }
}
