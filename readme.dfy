/** `updateReadme`: the sections are rendered in the fixed section order
    into table-of-contents lines and section bodies, and the README is cut
    at its first `## Table of Contents` and continued with the new table,
    the bodies and the fixed contributing and license blocks. The old
    README's text and the files found are parameters; the new text is the
    result instead of a file write. */
module Readme {
  import opened Text
  import opened Collector
  import opened Sections
  import Headings

  /** The sections that are rendered, in this order; no other key is. */
  const SectionOrder: seq<string> := ["Javascript", "Typescript", "WebFundamental", "Graphql", "Mongodb"]

  /** Where the table of contents starts. */
  const TocMarker: string := "## Table of Contents"

  const ContributingSection: string :=
    "\n## Contributing\n\nContributions are welcome! If you have any additional questions or improvements, please submit a pull request. \n\n"
    + "Before submitting a pull request, please make sure that you have updated the README.md file with the latest changes.\n"
    + "To do this, run the following commands:\n```bash\nnpm run update:readme\n```\n"

  const LicenseSection: string := "\n## License\n\nThis repository is licensed under the MIT License.\n"

  /** The link lines of one file, as `generateSectionLinks` gives them for
      its text and base name. */
  function Links(f: MdFile): string
  {
    Headings.SectionLinks(f.content, f.name)
  }

  /** The table-of-contents line of a rendered section. */
  function TocLine(name: string): string
  {
    "- [" + name + "](#" + ToLower(name) + ")\n"
  }

  /** The block of one file inside a folder's section. */
  function FileBlock(e: FolderEntry): string
  {
    "\n### " + e.fileName + "\n\n" + Links(e.file) + "\n"
  }

  /** The blocks of a folder's files, in the order they were pushed. */
  function FolderBody(entries: seq<FolderEntry>): string
  {
    if entries == [] then ""
    else FolderBody(entries[..|entries| - 1]) + FileBlock(entries[|entries| - 1])
  }

  /** The body of one section. */
  function SectionBlock(name: string, s: Section): string
  {
    match s
    case Flat(f) => "\n## " + name + "\n\n" + Links(f) + "\n"
    case Folder(entries) => "\n## " + name + "\n" + FolderBody(entries)
  }

  /** The table-of-contents lines of the keys of `order` that have a
      section, in the order of `order`. */
  function TocOf(order: seq<string>, sections: map<string, Section>): string
  {
    if order == [] then ""
    else
      var name := order[|order| - 1];
      TocOf(order[..|order| - 1], sections) + (if name in sections then TocLine(name) else "")
  }

  /** The section bodies, in the same order. */
  function BodyOf(order: seq<string>, sections: map<string, Section>): string
  {
    if order == [] then ""
    else
      var name := order[|order| - 1];
      BodyOf(order[..|order| - 1], sections) + (if name in sections then SectionBlock(name, sections[name]) else "")
  }

  /** The text that replaces everything from the marker on. */
  function Generated(sections: map<string, Section>): string
  {
    TocMarker + "\n\n" + TocOf(SectionOrder, sections) + BodyOf(SectionOrder, sections)
    + ContributingSection + LicenseSection
  }

  /** What a run does: writes a new README, or stops because the README
      has no table of contents, or fails while grouping the files. */
  datatype Outcome = Written(readme: string) | MarkerMissing | GroupingFailed(key: string)

  /** `updateReadme` on the README's text and the files found. */
  function Update(readme: string, files: seq<MdFile>): Outcome
  {
    match IndexOf(readme, TocMarker)
    case None => MarkerMissing
    case Some(start) =>
      match Group(files)
      case Crashed(key) => GroupingFailed(key)
      case Grouped(sections) => Written(readme[..start] + Generated(sections))
  }

  /** The whole tool on a collection folder and a README. */
  function Run(collection: seq<Entry>, readme: string): Outcome
  {
    Update(readme, FilesIn(collection, []))
  }

  // ---------------------------------------------------------------------
  // The loops as the program runs them.

  /** The rendering loop: for each key of the section order that has a
      section, one table-of-contents line and the section's body, reading
      each file's links as it goes. */
  method RenderSections(sections: map<string, Section>) returns (toc: string, body: string)
    ensures toc == TocOf(SectionOrder, sections)
    ensures body == BodyOf(SectionOrder, sections)
  {
    toc, body := "", "";
    var i := 0;
    while i < |SectionOrder|
      invariant 0 <= i <= |SectionOrder|
      invariant toc == TocOf(SectionOrder[..i], sections)
      invariant body == BodyOf(SectionOrder[..i], sections)
    {
      var name := SectionOrder[i];
      assert SectionOrder[..i + 1][..i] == SectionOrder[..i];
      if name in sections {
        match sections[name] {
          case Flat(f) =>
            toc := toc + TocLine(name);
            var links := Headings.GenerateSectionLinks(f.content, f.name);
            body := body + ("\n## " + name + "\n\n" + links + "\n");
          case Folder(entries) =>
            toc := toc + TocLine(name);
            var block := RenderFolder(name, entries);
            body := body + block;
        }
      }
      i := i + 1;
    }
    assert SectionOrder[..|SectionOrder|] == SectionOrder;
  }

  /** The inner loop over a folder's files. */
  method RenderFolder(name: string, entries: seq<FolderEntry>) returns (block: string)
    ensures block == SectionBlock(name, Folder(entries))
  {
    var files := "";
    var j := 0;
    while j < |entries|
      invariant 0 <= j <= |entries|
      invariant files == FolderBody(entries[..j])
    {
      assert entries[..j + 1][..j] == entries[..j];
      var links := Headings.GenerateSectionLinks(entries[j].file.content, entries[j].file.name);
      files := files + ("\n### " + entries[j].fileName + "\n\n" + links + "\n");
      j := j + 1;
    }
    assert entries[..|entries|] == entries;
    block := "\n## " + name + "\n" + files;
  }

  /** `updateReadme`: find the marker, group the files, render, splice. */
  method UpdateReadme(readme: string, files: seq<MdFile>) returns (out: Outcome)
    ensures out == Update(readme, files)
  {
    var start := IndexOf(readme, TocMarker);
    if start.None? {
      return MarkerMissing;
    }
    var grouping := GroupSections(files);
    if grouping.Crashed? {
      return GroupingFailed(grouping.key);
    }
    var toc, body := RenderSections(grouping.sections);
    var newToc := TocMarker + "\n\n" + toc;
    var tail := body + ContributingSection + LicenseSection;
    assert Generated(grouping.sections) == newToc + tail by {
      AppendAssoc(newToc, body, ContributingSection);
      AppendAssoc(newToc, body + ContributingSection, LicenseSection);
    }
    var content := readme[..start.value] + newToc;
    content := content + tail;
    out := Written(content);
  }

  // ---------------------------------------------------------------------
  // What the rendering and the splice promise.

  /** The output of consecutive parts of the order is the output of each
      part, in order. */
  lemma {:induction false} RenderAppend(o1: seq<string>, o2: seq<string>, sections: map<string, Section>)
    ensures TocOf(o1 + o2, sections) == TocOf(o1, sections) + TocOf(o2, sections)
    ensures BodyOf(o1 + o2, sections) == BodyOf(o1, sections) + BodyOf(o2, sections)
    decreases |o2|
  {
    if o2 == [] {
      assert o1 + o2 == o1;
    } else {
      var init := o2[..|o2| - 1];
      assert (o1 + o2)[..|o1 + o2| - 1] == o1 + init;
      assert (o1 + o2)[|o1 + o2| - 1] == o2[|o2| - 1];
      RenderAppend(o1, init, sections);
      var name := o2[|o2| - 1];
      AppendAssoc(TocOf(o1, sections), TocOf(init, sections), if name in sections then TocLine(name) else "");
      AppendAssoc(BodyOf(o1, sections), BodyOf(init, sections), if name in sections then SectionBlock(name, sections[name]) else "");
    }
  }

  /** One key gives one table-of-contents line and its body when it has a
      section, and nothing otherwise. */
  lemma RenderOne(name: string, sections: map<string, Section>)
    ensures TocOf([name], sections) == if name in sections then TocLine(name) else ""
    ensures BodyOf([name], sections) == if name in sections then SectionBlock(name, sections[name]) else ""
  {
    assert [name][..0] == [];
  }

  /** Sections whose key is not in the order are never rendered: two
      groupings that agree on the keys of the order render alike. */
  lemma {:induction false} RenderOnlyListed(order: seq<string>, s1: map<string, Section>, s2: map<string, Section>)
    requires forall k :: k in order ==> (k in s1 <==> k in s2)
    requires forall k :: k in order && k in s1 ==> s1[k] == s2[k]
    ensures TocOf(order, s1) == TocOf(order, s2)
    ensures BodyOf(order, s1) == BodyOf(order, s2)
  {
    if order != [] {
      var init := order[..|order| - 1];
      assert forall k :: k in init ==> k in order;
      RenderOnlyListed(init, s1, s2);
    }
  }

  /** A folder's files appear in the order they were pushed. */
  lemma {:induction false} FolderBodyAppend(a: seq<FolderEntry>, b: seq<FolderEntry>)
    ensures FolderBody(a + b) == FolderBody(a) + FolderBody(b)
    decreases |b|
  {
    if b == [] {
      assert a + b == a;
    } else {
      var init := b[..|b| - 1];
      assert (a + b)[..|a + b| - 1] == a + init;
      assert (a + b)[|a + b| - 1] == b[|b| - 1];
      FolderBodyAppend(a, init);
      AppendAssoc(FolderBody(a), FolderBody(init), FileBlock(b[|b| - 1]));
    }
  }

  /** The blocks of the deeper files with key `k`, in the order found: each
      file's capitalised name without `.md` as a heading, then its links. */
  function DeeperBlocks(files: seq<MdFile>, k: string): string
  {
    if files == [] then ""
    else
      var f := files[|files| - 1];
      DeeperBlocks(files[..|files| - 1], k)
      + (if !IsTopLevel(f) && SectionKey(f) == k
         then "\n### " + CapitalizeFirstLetter(StripMd(f.name)) + "\n\n" + Links(f) + "\n"
         else "")
  }

  /** A folder's body holds one block per deeper file of its key, in the
      order the files were found. */
  lemma {:induction false} FolderBodyOfEntries(files: seq<MdFile>, k: string)
    ensures FolderBody(EntriesFor(files, k)) == DeeperBlocks(files, k)
  {
    if files != [] {
      var init := files[..|files| - 1];
      var f := files[|files| - 1];
      FolderBodyOfEntries(init, k);
      if !IsTopLevel(f) && SectionKey(f) == k {
        FolderBodyAppend(EntriesFor(init, k), [EntryOf(f)]);
        assert [EntryOf(f)][..0] == [];
      }
    }
  }

  /** The section of a key that no top-level file has lists the blocks of
      its deeper files under the key's heading. */
  lemma FolderSection(files: seq<MdFile>, k: string)
    requires Group(files).Grouped? && k in Group(files).sections
    requires forall i :: 0 <= i < |files| ==> !TopLevelWith(files[i], k)
    ensures SectionBlock(k, Group(files).sections[k]) == "\n## " + k + "\n" + DeeperBlocks(files, k)
  {
    GroupSpec(files);
    LastTopLevelNone(files, k);
    FolderBodyOfEntries(files, k);
  }

  /** The section of a key that a top-level file has lists the links of the
      last such file, and of no other. */
  lemma FlatSection(files: seq<MdFile>, k: string, i: nat)
    requires Group(files).Grouped? && k in Group(files).sections
    requires i < |files| && TopLevelWith(files[i], k)
    requires forall j :: i < j < |files| ==> !TopLevelWith(files[j], k)
    ensures SectionBlock(k, Group(files).sections[k]) == "\n## " + k + "\n\n" + Links(files[i]) + "\n"
  {
    GroupSpec(files);
    LastTopLevelNone(files, k);
    LastTopLevelIsLast(files, k);
    var f := LastTopLevel(files, k).value;
    var i' :| 0 <= i' < |files| && files[i'] == f && forall j :: i' < j < |files| ==> !TopLevelWith(files[j], k);
    assert i' == i;
  }

  /** The table of contents lists only which keys have a section. */
  lemma {:induction false} TocOnlyKeys(order: seq<string>, s1: map<string, Section>, s2: map<string, Section>)
    requires s1.Keys == s2.Keys
    ensures TocOf(order, s1) == TocOf(order, s2)
  {
    if order != [] {
      TocOnlyKeys(order[..|order| - 1], s1, s2);
    }
  }

  /** Two sets of files with the same section keys get the same table of
      contents, whatever the order or the nesting of the files. */
  lemma TocOrderIndependent(f1: seq<MdFile>, f2: seq<MdFile>)
    requires Group(f1).Grouped? && Group(f2).Grouped?
    requires Keys(f1) == Keys(f2)
    ensures TocOf(SectionOrder, Group(f1).sections) == TocOf(SectionOrder, Group(f2).sections)
  {
    GroupSpec(f1);
    GroupSpec(f2);
    TocOnlyKeys(SectionOrder, Group(f1).sections, Group(f2).sections);
  }

  /** The table-of-contents line of `name` when it has a section. */
  function TocIf(name: string, sections: map<string, Section>): string
  {
    if name in sections then TocLine(name) else ""
  }

  /** The table of contents lists Javascript, Typescript, WebFundamental,
      Graphql and Mongodb, in this order, each when it has a section. */
  lemma TocFollowsSectionOrder(sections: map<string, Section>)
    ensures TocOf(SectionOrder, sections)
      == TocIf("Javascript", sections) + TocIf("Typescript", sections) + TocIf("WebFundamental", sections)
         + TocIf("Graphql", sections) + TocIf("Mongodb", sections)
  {
    var o := SectionOrder;
    assert o[..1][..0] == [] && o[..1][0] == "Javascript";
    assert TocOf(o[..1], sections) == TocIf("Javascript", sections);
    assert o[..2][..1] == o[..1] && o[..2][1] == "Typescript";
    assert TocOf(o[..2], sections) == TocOf(o[..1], sections) + TocIf("Typescript", sections);
    assert o[..3][..2] == o[..2] && o[..3][2] == "WebFundamental";
    assert TocOf(o[..3], sections) == TocOf(o[..2], sections) + TocIf("WebFundamental", sections);
    assert o[..4][..3] == o[..3] && o[..4][3] == "Graphql";
    assert TocOf(o[..4], sections) == TocOf(o[..3], sections) + TocIf("Graphql", sections);
    assert o[..4] == o[..|o| - 1] && o[4] == "Mongodb";
  }

  /** The table-of-contents link of a section points at its key in lower
      case, which is the lower-cased name the key was capitalised from. */
  lemma TocLineOfKey(name: string)
    ensures TocLine(CapitalizeFirstLetter(name)) == "- [" + CapitalizeFirstLetter(name) + "](#" + ToLower(name) + ")\n"
  {
    LowerOfCapitalized(name);
  }

  /** Without the marker nothing is written. */
  lemma UpdateMarkerMissing(readme: string, files: seq<MdFile>)
    ensures Update(readme, files) == MarkerMissing <==> forall j :: 0 <= j ==> !OccursAt(readme, TocMarker, j)
  {
  }

  /** With the marker, the run fails exactly when a top-level file comes
      before a deeper file of the same section. */
  lemma UpdateFails(readme: string, files: seq<MdFile>)
    requires IndexOf(readme, TocMarker).Some?
    ensures Update(readme, files).GroupingFailed? <==> Clash(files)
  {
    GroupSpec(files);
  }

  /** The whole tool writes nothing without the marker, and with it fails
      exactly when the files found in the collection clash. */
  lemma RunOutcome(collection: seq<Entry>, readme: string)
    ensures Run(collection, readme) == MarkerMissing <==> forall j :: 0 <= j ==> !OccursAt(readme, TocMarker, j)
    ensures IndexOf(readme, TocMarker).Some? ==>
      (Run(collection, readme).GroupingFailed? <==> Clash(FilesIn(collection, [])))
  {
    UpdateMarkerMissing(readme, FilesIn(collection, []));
    if IndexOf(readme, TocMarker).Some? {
      UpdateFails(readme, FilesIn(collection, []));
    }
  }

  /** A written README is the old text up to the marker followed by the
      generated text, whose parts are the marker, the table, the bodies and
      the two fixed blocks. */
  lemma UpdateIsSplice(readme: string, files: seq<MdFile>)
    requires Update(readme, files).Written?
    ensures IndexOf(readme, TocMarker).Some? && Group(files).Grouped?
    ensures var start := IndexOf(readme, TocMarker).value;
      var g := Group(files).sections;
      Update(readme, files).readme
      == readme[..start] + (TocMarker + "\n\n" + TocOf(SectionOrder, g) + BodyOf(SectionOrder, g) + ContributingSection + LicenseSection)
  {
  }

  /** A written README keeps the old text before the first marker, and
      the marker stays where it was. */
  lemma UpdateKeepsPrefix(readme: string, files: seq<MdFile>)
    requires Update(readme, files).Written?
    ensures var start := IndexOf(readme, TocMarker).value;
      var out := Update(readme, files).readme;
      && |out| >= start + |TocMarker|
      && out[..start] == readme[..start]
      && OccursAt(out, TocMarker, start)
  {
    UpdateIsSplice(readme, files);
    var start := IndexOf(readme, TocMarker).value;
    var g := Group(files).sections;
    SpliceParts(readme[..start], TocMarker, "\n\n", TocOf(SectionOrder, g), BodyOf(SectionOrder, g), ContributingSection, LicenseSection);
  }

  /** A written README ends with the contributing and license blocks. */
  lemma UpdateEndsWithTrailer(readme: string, files: seq<MdFile>)
    requires Update(readme, files).Written?
    ensures EndsWith(Update(readme, files).readme, ContributingSection + LicenseSection)
  {
    UpdateIsSplice(readme, files);
    var start := IndexOf(readme, TocMarker).value;
    var g := Group(files).sections;
    SpliceParts(readme[..start], TocMarker, "\n\n", TocOf(SectionOrder, g), BodyOf(SectionOrder, g), ContributingSection, LicenseSection);
  }

  /** `t` is the tail of `s`. */
  predicate EndsWith(s: string, t: string)
  {
    |s| >= |t| && s[|s| - |t|..] == t
  }

  /** Where the parts of a spliced text lie. */
  lemma SpliceParts(pre: string, m: string, n: string, a: string, b: string, c: string, l: string)
    ensures var out := pre + (m + n + a + b + c + l);
      && |out| >= |pre| + |m|
      && out[..|pre|] == pre
      && out[|pre|..|pre| + |m|] == m
      && EndsWith(out, c + l)
  {
    var out := pre + (m + n + a + b + c + l);
    assert out == pre + m + (n + a + b) + (c + l);
    assert out[|pre|..|pre| + |m|] == (pre + m)[|pre|..];
  }

  /** The new README depends on the old one only up to the end of its
      first marker: nothing after the marker survives. */
  lemma UpdateIgnoresRest(r1: string, r2: string, files: seq<MdFile>)
    requires IndexOf(r1, TocMarker).Some?
    requires var end := IndexOf(r1, TocMarker).value + |TocMarker|;
      end <= |r2| && r1[..end] == r2[..end]
    ensures Update(r1, files) == Update(r2, files)
  {
    var start := IndexOf(r1, TocMarker).value;
    var end := start + |TocMarker|;
    forall j | 0 <= j <= start
      ensures OccursAt(r1, TocMarker, j) <==> OccursAt(r2, TocMarker, j)
    {
      OccursAtSamePrefix(r1, r2, TocMarker, j, end);
    }
    IndexOfIs(r2, TocMarker, start);
    assert r1[..start] == r1[..end][..start] == r2[..end][..start] == r2[..start];
  }

  /** Running the tool on its own output changes nothing. */
  lemma UpdateIdempotent(readme: string, files: seq<MdFile>)
    requires Update(readme, files).Written?
    ensures Update(Update(readme, files).readme, files) == Update(readme, files)
  {
    var start := IndexOf(readme, TocMarker).value;
    var out := Update(readme, files).readme;
    UpdateKeepsPrefix(readme, files);
    var end := start + |TocMarker|;
    assert out[..end] == readme[..end] by {
      assert out[..end] == out[..start] + out[start..end];
      assert readme[..end] == readme[..start] + readme[start..end];
    }
    UpdateIgnoresRest(readme, out, files);
  }
}
