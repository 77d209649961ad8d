/** The two export projections of a biography: the Markdown document and
    the ordered list of PDF content items, both a depth-first walk of the
    section tree starting at heading level 2; the download file name; and
    the heading level the page displays a section at. */
module Export {
  import opened Strings
  import opened BiographyTypes

  // ---------------------------------------------------------------------
  // Levels in the pre-order walk

  /** Every section of a walk started at `level` sits at `level` or deeper. */
  lemma {:induction false} FlattenLevels(s: seq<Entry>, level: int)
    ensures forall i :: 0 <= i < |Flatten(s, level)| ==> Flatten(s, level)[i].level >= level
    decreases s
  {
    if s != [] {
      FlattenLevels(s[0].section.subsections, level + 1);
      FlattenLevels(s[1..], level);
      var sub := Flatten(s[0].section.subsections, level + 1);
      var rest := Flatten(s[1..], level);
      var all := [Visit(s[0].key, s[0].section, level)] + sub + rest;
      forall i | 0 <= i < |all| ensures all[i].level >= level {
        if 1 <= i < 1 + |sub| {
          assert all[i] == sub[i - 1];
        } else if i >= 1 + |sub| {
          assert all[i] == rest[i - 1 - |sub|];
        }
      }
    }
  }

  /** A collection of subsections is walked in its own order, each entry
      followed by its subtree one level deeper. */
  lemma FlattenSnoc(s: seq<Entry>, e: Entry, level: int)
    ensures Flatten(s + [e], level) ==
      Flatten(s, level) + [Visit(e.key, e.section, level)] + Flatten(e.section.subsections, level + 1)
  {
    FlattenAppend(s, [e], level);
    assert Flatten([e], level) == [Visit(e.key, e.section, level)] + Flatten(e.section.subsections, level + 1) + Flatten([], level);
  }

  // ---------------------------------------------------------------------
  // Markdown

  /** `'#'.repeat(n)` for the non-negative counts the export uses. */
  function Repeat(ch: char, n: int): (r: string)
    ensures |r| == if n > 0 then n else 0
    ensures forall i :: 0 <= i < |r| ==> r[i] == ch
    decreases n
  {
    if n <= 0 then "" else [ch] + Repeat(ch, n - 1)
  }

  function HeadingMarkdown(title: string, level: int): string {
    Repeat('#', level) + " " + title + "\n\n"
  }

  /** Text is emitted only when it is non-empty. */
  function ContentMarkdown(content: string): string {
    if content != "" then content + "\n\n" else ""
  }

  /** What one section contributes on its own, before its subsections. */
  function SectionMarkdown(section: Section, level: int): string {
    HeadingMarkdown(section.title, level) + ContentMarkdown(section.content)
  }

  /** The Markdown of a walk: each visited section's heading and content,
      in walk order. */
  function Render(vs: seq<Visit>): string
    decreases vs
  {
    if vs == [] then "" else SectionMarkdown(vs[0].section, vs[0].level) + Render(vs[1..])
  }

  lemma {:induction false} RenderAppend(a: seq<Visit>, b: seq<Visit>)
    ensures Render(a + b) == Render(a) + Render(b)
    decreases a
  {
    if a == [] {
      assert a + b == b;
    } else {
      assert (a + b)[0] == a[0] && (a + b)[1..] == a[1..] + b;
      RenderAppend(a[1..], b);
    }
  }

  /** One more subsection appends its own Markdown and its subtree's. */
  lemma RenderSnoc(s: seq<Entry>, e: Entry, level: int)
    ensures Render(Flatten(s + [e], level)) ==
      Render(Flatten(s, level)) + (SectionMarkdown(e.section, level) + Render(Flatten(e.section.subsections, level + 1)))
  {
    FlattenSnoc(s, e, level);
    var v := Visit(e.key, e.section, level);
    var before := Flatten(s, level);
    var below := Flatten(e.section.subsections, level + 1);
    RenderAppend(before + [v], below);
    RenderAppend(before, [v]);
    RenderSingle(v);
    Associate(Render(before), SectionMarkdown(e.section, level), Render(below));
  }

  lemma RenderSingle(v: Visit)
    ensures Render([v]) == SectionMarkdown(v.section, v.level)
  {
    assert [v][1..] == [];
  }

  lemma Associate<T>(a: seq<T>, b: seq<T>, c: seq<T>)
    ensures (a + b) + c == a + (b + c)
  {
  }

  /** The step of the accumulating loops over a collection of subsections. */
  lemma RenderLoopStep(prefix: string, subs: seq<Entry>, i: nat, level: int, md: string, sub: string)
    requires i < |subs|
    requires md == prefix + Render(Flatten(subs[..i], level))
    requires sub == SectionMarkdown(subs[i].section, level) + Render(Flatten(subs[i].section.subsections, level + 1))
    ensures md + sub == prefix + Render(Flatten(subs[..i + 1], level))
  {
    var done := subs[..i];
    assert subs[..i + 1] == done + [subs[i]];
    RenderSnoc(done, subs[i], level);
    Associate(prefix, Render(Flatten(done, level)), sub);
  }

  /** `sectionToMarkdown`: the section, then each subsection one level
      deeper, accumulated in collection order. */
  method SectionToMarkdown(section: Section, level: int) returns (md: string)
    ensures md == SectionMarkdown(section, level) + Render(Flatten(section.subsections, level + 1))
    decreases section, 1
  {
    md := HeadingMarkdown(section.title, level);
    if section.content != "" {
      md := md + section.content + "\n\n";
    }
    Associate(HeadingMarkdown(section.title, level), section.content, "\n\n");
    md := AppendSubsections(md, section.subsections, level + 1);
  }

  /** The `forEach` over a collection of subsections shared by both
      functions: each subsection's Markdown is appended to `prefix`. */
  method AppendSubsections(prefix: string, subs: seq<Entry>, level: int) returns (md: string)
    ensures md == prefix + Render(Flatten(subs, level))
    decreases subs, 0
  {
    md := prefix;
    var i := 0;
    assert Flatten(subs[..0], level) == [];
    while i < |subs|
      invariant 0 <= i <= |subs|
      invariant md == prefix + Render(Flatten(subs[..i], level))
    {
      var sub := SectionToMarkdown(subs[i].section, level);
      RenderLoopStep(prefix, subs, i, level, md, sub);
      md := md + sub;
      i := i + 1;
    }
    assert subs[..i] == subs;
  }

  /** The string-building part of `exportToMarkdown`: the biography title as
      a level-1 heading, its content, then every section from level 2 in
      pre-order. */
  method ExportToMarkdown(b: Biography) returns (md: string)
    ensures md == HeadingMarkdown(b.title, 1) + ContentMarkdown(b.content) + Render(Flatten(b.subsections, 2))
  {
    md := "# " + b.title + "\n\n";
    if b.content != "" {
      md := md + b.content + "\n\n";
    }
    TopHeading(b.title);
    Associate(HeadingMarkdown(b.title, 1), b.content, "\n\n");
    md := AppendSubsections(md, b.subsections, 2);
  }

  /** The biography's own title line is a level-1 heading. */
  lemma TopHeading(title: string)
    ensures "# " + title + "\n\n" == HeadingMarkdown(title, 1)
  {
    assert Repeat('#', 1) == "#";
  }

  /** A section's Markdown opens with exactly `level` hash marks and a
      space, and the title line ends with a blank line. */
  lemma SectionMarkdownShape(section: Section, level: nat)
    ensures var md := SectionMarkdown(section, level);
      |md| >= level + 1 + |section.title| + 2 &&
      (forall i :: 0 <= i < level ==> md[i] == '#') &&
      md[level] == ' ' &&
      md[level + 1..level + 1 + |section.title|] == section.title &&
      md[level + 1 + |section.title|..level + |section.title| + 3] == "\n\n"
  {
    var md := SectionMarkdown(section, level);
    assert md == Repeat('#', level) + " " + section.title + "\n\n" + ContentMarkdown(section.content);
  }

  // ---------------------------------------------------------------------
  // PDF content items

  datatype ContentItem = ContentItem(text: string, fontSize: int, isTitle: bool, level: int)

  const TitleFontSize := 20
  const ContentFontSize := 12

  /** `getSectionFontSize`: 16 minus two points per level, never below 12. */
  function SectionFontSize(level: int): (size: int)
    ensures size >= ContentFontSize
    ensures level <= 2 ==> size == 16 - 2 * level
    ensures level >= 2 ==> size == ContentFontSize
  {
    if 16 - level * 2 > 12 then 16 - level * 2 else 12
  }

  /** What `collectSection` pushes for one section before its subsections. */
  function SectionItems(section: Section, level: int): seq<ContentItem> {
    [ContentItem(section.title, SectionFontSize(level), true, level)]
    + (if section.content != "" then [ContentItem(section.content, ContentFontSize, false, level)] else [])
  }

  /** The items of a walk, in walk order. */
  function Items(vs: seq<Visit>): seq<ContentItem>
    decreases vs
  {
    if vs == [] then [] else SectionItems(vs[0].section, vs[0].level) + Items(vs[1..])
  }

  lemma {:induction false} ItemsAppend(a: seq<Visit>, b: seq<Visit>)
    ensures Items(a + b) == Items(a) + Items(b)
    decreases a
  {
    if a == [] {
      assert a + b == b;
    } else {
      assert (a + b)[0] == a[0] && (a + b)[1..] == a[1..] + b;
      ItemsAppend(a[1..], b);
    }
  }

  /** One more subsection appends its own items and its subtree's. */
  lemma ItemsSnoc(s: seq<Entry>, e: Entry, level: int)
    ensures Items(Flatten(s + [e], level)) ==
      Items(Flatten(s, level)) + (SectionItems(e.section, level) + Items(Flatten(e.section.subsections, level + 1)))
  {
    FlattenSnoc(s, e, level);
    var v := Visit(e.key, e.section, level);
    var before := Flatten(s, level);
    var below := Flatten(e.section.subsections, level + 1);
    ItemsAppend(before + [v], below);
    ItemsAppend(before, [v]);
    assert [v][1..] == [];
    Associate(Items(before), SectionItems(e.section, level), Items(below));
  }

  lemma ItemsLoopStep(prefix: seq<ContentItem>, subs: seq<Entry>, i: nat, level: int,
                      before: seq<ContentItem>, after: seq<ContentItem>)
    requires i < |subs|
    requires before == prefix + Items(Flatten(subs[..i], level))
    requires after == before + SectionItems(subs[i].section, level) + Items(Flatten(subs[i].section.subsections, level + 1))
    ensures after == prefix + Items(Flatten(subs[..i + 1], level))
  {
    var done := subs[..i];
    assert subs[..i + 1] == done + [subs[i]];
    ItemsSnoc(done, subs[i], level);
    var own := SectionItems(subs[i].section, level);
    var below := Items(Flatten(subs[i].section.subsections, level + 1));
    Associate(before, own, below);
    Associate(prefix, Items(Flatten(done, level)), own + below);
  }

  /** `collectSection(section, level)` pushing onto `contents`. */
  method CollectSection(contents: seq<ContentItem>, section: Section, level: int) returns (r: seq<ContentItem>)
    ensures r == contents + SectionItems(section, level) + Items(Flatten(section.subsections, level + 1))
    decreases section, 1
  {
    r := contents + [ContentItem(section.title, SectionFontSize(level), true, level)];
    if section.content != "" {
      r := r + [ContentItem(section.content, ContentFontSize, false, level)];
    }
    assert r == contents + SectionItems(section, level);
    r := CollectEach(r, section.subsections, level + 1);
  }

  /** The `forEach` over a collection of subsections: each one's items are
      pushed onto `contents` in collection order. */
  method CollectEach(contents: seq<ContentItem>, subs: seq<Entry>, level: int) returns (r: seq<ContentItem>)
    ensures r == contents + Items(Flatten(subs, level))
    decreases subs, 0
  {
    r := contents;
    var i := 0;
    assert Flatten(subs[..0], level) == [];
    while i < |subs|
      invariant 0 <= i <= |subs|
      invariant r == contents + Items(Flatten(subs[..i], level))
    {
      ghost var before := r;
      r := CollectSection(r, subs[i].section, level);
      ItemsLoopStep(contents, subs, i, level, before, r);
      i := i + 1;
    }
    assert subs[..i] == subs;
  }

  /** The `contents` list `exportToPDF` renders: the title at size 20, the
      content at size 12 when non-empty, then the sections from level 2. */
  method PdfContents(b: Biography) returns (contents: seq<ContentItem>)
    ensures contents ==
      [ContentItem(b.title, TitleFontSize, true, 1)]
      + (if b.content != "" then [ContentItem(b.content, ContentFontSize, false, 1)] else [])
      + Items(Flatten(b.subsections, 2))
  {
    contents := [ContentItem(b.title, TitleFontSize, true, 1)];
    if b.content != "" {
      contents := contents + [ContentItem(b.content, ContentFontSize, false, 1)];
    }
    contents := CollectEach(contents, b.subsections, 2);
  }

  /** Sections start at level 2, so every section item, heading or body,
      is set at size 12. */
  lemma {:induction false} SectionItemsAllSize12(vs: seq<Visit>)
    requires forall i :: 0 <= i < |vs| ==> vs[i].level >= 2
    ensures forall j :: 0 <= j < |Items(vs)| ==> Items(vs)[j].fontSize == ContentFontSize
    decreases vs
  {
    if vs != [] {
      SectionItemsAllSize12(vs[1..]);
      var here := SectionItems(vs[0].section, vs[0].level);
      assert Items(vs) == here + Items(vs[1..]);
      forall j | 0 <= j < |Items(vs)| ensures Items(vs)[j].fontSize == ContentFontSize {
        if j >= |here| {
          assert Items(vs)[j] == Items(vs[1..])[j - |here|];
        }
      }
    }
  }

  lemma PdfSectionSizes(s: seq<Entry>)
    ensures forall j :: 0 <= j < |Items(Flatten(s, 2))| ==> Items(Flatten(s, 2))[j].fontSize == ContentFontSize
  {
    FlattenLevels(s, 2);
    SectionItemsAllSize12(Flatten(s, 2));
  }

  /** The heading items of a walk. */
  function TitleTexts(items: seq<ContentItem>): seq<string>
    decreases items
  {
    if items == [] then []
    else (if items[0].isTitle then [items[0].text] else []) + TitleTexts(items[1..])
  }

  function VisitTitles(vs: seq<Visit>): seq<string>
    decreases vs
  {
    if vs == [] then [] else [vs[0].section.title] + VisitTitles(vs[1..])
  }

  lemma {:induction false} TitleTextsAppend(a: seq<ContentItem>, b: seq<ContentItem>)
    ensures TitleTexts(a + b) == TitleTexts(a) + TitleTexts(b)
    decreases a
  {
    if a == [] {
      assert a + b == b;
    } else {
      assert (a + b)[0] == a[0] && (a + b)[1..] == a[1..] + b;
      TitleTextsAppend(a[1..], b);
    }
  }

  /** Every visited section yields exactly one heading item, in walk
      order: the PDF headings are the section titles in pre-order. */
  lemma {:induction false} PdfHeadingsAreTitles(vs: seq<Visit>)
    ensures TitleTexts(Items(vs)) == VisitTitles(vs)
    decreases vs
  {
    if vs != [] {
      var v := vs[0];
      var body := if v.section.content != "" then [ContentItem(v.section.content, ContentFontSize, false, v.level)] else [];
      PdfHeadingsAreTitles(vs[1..]);
      TitleTextsAppend(SectionItems(v.section, v.level), Items(vs[1..]));
      TitleTextsAppend([ContentItem(v.section.title, SectionFontSize(v.level), true, v.level)], body);
      if body != [] {
        assert TitleTexts(body) == TitleTexts(body[1..]);
      }
    }
  }

  // ---------------------------------------------------------------------
  // File name and displayed level

  /** `${title.toLowerCase().replace(/\s+/g, '_')}${ext}` */
  function ExportFilename(title: string, ext: string): (name: string)
    ensures |ext| <= |name| <= |title| + |ext|
    ensures name[|name| - |ext|..] == ext
    ensures NoWhitespace(ext) ==> NoWhitespace(name)
  {
    var stem := ReplaceWhitespaceRuns(ToLower(title), '_');
    assert forall i :: 0 <= i < |ext| ==> (stem + ext)[|stem| + i] == ext[i];
    stem + ext
  }

  /** The file name holds no upper-case ASCII letter outside the extension. */
  lemma ExportFilenameLowerCase(title: string, ext: string)
    ensures var name := ExportFilename(title, ext);
      forall i :: 0 <= i < |name| - |ext| ==> !('A' <= name[i] <= 'Z')
  {
    var lower := ToLower(title);
    var stem := ReplaceWhitespaceRuns(lower, '_');
    forall i | 0 <= i < |stem| ensures !('A' <= stem[i] <= 'Z') {
      if stem[i] != '_' {
        var k :| 0 <= k < |lower| && lower[k] == stem[i];
      }
    }
    assert forall i :: 0 <= i < |stem| ==> (stem + ext)[i] == stem[i];
  }

  /** Lower-casing keeps white space and non-white space apart. */
  lemma LowerCharKeepsWhitespace(ch: char)
    ensures IsWhitespace(LowerChar(ch)) <==> IsWhitespace(ch)
  {
  }

  lemma {:induction false} ToLowerAppend(a: string, b: string)
    ensures ToLower(a + b) == ToLower(a) + ToLower(b)
  {
    var whole, la, lb := ToLower(a + b), ToLower(a), ToLower(b);
    forall i | 0 <= i < |a + b| ensures whole[i] == (la + lb)[i] {
      if i < |a| {
        assert (a + b)[i] == a[i];
      } else {
        assert (a + b)[i] == b[i - |a|];
      }
    }
    assert whole == la + lb;
  }

  /** Two words separated by any run of white space become the lower-cased
      words joined by a single underscore. */
  lemma ExportFilenameJoinsWords(w1: string, run: string, w2: string, ext: string)
    requires NoWhitespace(w1) && NoWhitespace(w2)
    requires run != [] && AllWhitespace(run)
    ensures ExportFilename(w1 + run + w2, ext) == ToLower(w1) + "_" + ToLower(w2) + ext
  {
    ToLowerAppend(w1 + run, w2);
    ToLowerAppend(w1, run);
    var l1, lr, l2 := ToLower(w1), ToLower(run), ToLower(w2);
    forall i | 0 <= i < |w1| ensures !IsWhitespace(l1[i]) { LowerCharKeepsWhitespace(w1[i]); }
    forall i | 0 <= i < |run| ensures IsWhitespace(lr[i]) { LowerCharKeepsWhitespace(run[i]); }
    forall i | 0 <= i < |w2| ensures !IsWhitespace(l2[i]) { LowerCharKeepsWhitespace(w2[i]); }
    ReplaceWhitespaceRunsCollapses(l1, lr, l2, '_');
    ReplaceWhitespaceRunsKeepsWords(l2, '_');
  }

  /** `Math.min(Math.max(level, 1), 5)`: the heading level the page shows. */
  function HeadingLevel(level: int): (shown: int)
    ensures 1 <= shown <= 5
    ensures 1 <= level <= 5 ==> shown == level
    ensures level < 1 ==> shown == 1
    ensures level > 5 ==> shown == 5
  {
    if level < 1 then 1 else if level > 5 then 5 else level
  }
}
