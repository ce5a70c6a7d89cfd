/** The section grouper of `updateReadme`: every markdown file found in
    the collection goes to a section keyed by a capitalised name. A file
    directly in the collection is a section of its own; a file deeper down
    joins the section of its top-level folder. */
module Sections {
  import opened Text
  import opened Collector

  /** `capitalizeFirstLetter`: the first character upper-cased, the rest
      as it was. */
  function CapitalizeFirstLetter(s: string): (r: string)
    ensures |r| == |s|
    ensures s != [] ==> r[0] == UpperChar(s[0])
    ensures r != [] ==> !IsAsciiLower(r[0])
    ensures forall i :: 1 <= i < |s| ==> r[i] == s[i]
  {
    if s == [] then [] else [UpperChar(s[0])] + s[1..]
  }

  /** Capitalising twice changes nothing more. */
  lemma CapitalizeIdempotent(s: string)
    ensures CapitalizeFirstLetter(CapitalizeFirstLetter(s)) == CapitalizeFirstLetter(s)
  {
  }

  /** Capitalising does not change what the name lower-cases to, so the
      table-of-contents fragment of a section is its lower-cased folder or
      file name. */
  lemma LowerOfCapitalized(s: string)
    ensures ToLower(CapitalizeFirstLetter(s)) == ToLower(s)
  {
    var r := CapitalizeFirstLetter(s);
    if s != [] {
      assert LowerChar(UpperChar(s[0])) == LowerChar(s[0]);
      assert forall i :: 0 <= i < |s| ==> ToLower(r)[i] == ToLower(s)[i];
    }
  }

  /** `path.basename(file, '.md')` on the file's own name: the `.md` is
      dropped unless the name is nothing but `.md`. */
  function StripMd(name: string): (r: string)
    ensures IsMarkdownName(name) && |name| > 3 ==> r + ".md" == name
    ensures !IsMarkdownName(name) || |name| == 3 ==> r == name
  {
    if |name| > 3 && IsMarkdownName(name) then name[..|name| - 3] else name
  }

  /** A file directly in the collection. */
  predicate IsTopLevel(f: MdFile) { f.dirs == [] }

  /** The section a file belongs to: its own capitalised name without
      `.md` at the top level, otherwise its capitalised top-level folder. */
  function SectionKey(f: MdFile): string
  {
    if IsTopLevel(f) then CapitalizeFirstLetter(StripMd(f.name))
    else CapitalizeFirstLetter(f.dirs[0])
  }

  /** The entry a deeper file makes in its folder's section. */
  datatype FolderEntry = FolderEntry(fileName: string, file: MdFile)

  /** The entry pushed for a file inside a folder: its capitalised name
      without `.md`, and the file itself. */
  function EntryOf(f: MdFile): FolderEntry
  {
    FolderEntry(CapitalizeFirstLetter(StripMd(f.name)), f)
  }

  datatype Section = Flat(file: MdFile) | Folder(entries: seq<FolderEntry>)

  /** The `sections` object after the loop, or the key at which pushing a
      folder's file onto a section that holds a single file fails with a
      `TypeError`. */
  datatype Grouping = Grouped(sections: map<string, Section>) | Crashed(key: string)

  /** One turn of the grouping loop. */
  function Step(sections: map<string, Section>, f: MdFile): Grouping
  {
    var key := SectionKey(f);
    if IsTopLevel(f) then Grouped(sections[key := Flat(f)])
    else if key !in sections then Grouped(sections[key := Folder([EntryOf(f)])])
    else match sections[key]
      case Flat(_) => Crashed(key)
      case Folder(entries) => Grouped(sections[key := Folder(entries + [EntryOf(f)])])
  }

  /** The grouping loop over `files`, in order. */
  function Group(files: seq<MdFile>): Grouping
  {
    if files == [] then Grouped(map[])
    else
      match Group(files[..|files| - 1])
      case Crashed(key) => Crashed(key)
      case Grouped(sections) => Step(sections, files[|files| - 1])
  }

  /** The loop as the program runs it, stopping at the first failure. */
  method GroupSections(files: seq<MdFile>) returns (r: Grouping)
    ensures r == Group(files)
  {
    var sections: map<string, Section> := map[];
    var i := 0;
    while i < |files|
      invariant 0 <= i <= |files|
      invariant Group(files[..i]) == Grouped(sections)
    {
      var f := files[i];
      GroupNext(files, i, sections);
      var key := SectionKey(f);
      if IsTopLevel(f) {
        StepTopLevel(sections, f);
        sections := sections[key := Flat(f)];
      } else {
        ghost var before := sections;
        if key !in sections {
          sections := sections[key := Folder([])];
        }
        if sections[key].Flat? {
          CrashedPrefix(files, i + 1);
          return Crashed(key);
        }
        StepPush(before, sections, f);
        sections := sections[key := Folder(sections[key].entries + [EntryOf(f)])];
      }
      i := i + 1;
    }
    assert files[..|files|] == files;
    r := Grouped(sections);
  }

  /** One more turn of the loop, while it has not failed. */
  lemma GroupNext(files: seq<MdFile>, i: nat, sections: map<string, Section>)
    requires i < |files| && Group(files[..i]) == Grouped(sections)
    ensures Group(files[..i + 1]) == Step(sections, files[i])
  {
    assert files[..i + 1][..i] == files[..i];
  }

  /** A file directly in the collection takes its key over. */
  lemma StepTopLevel(sections: map<string, Section>, f: MdFile)
    requires IsTopLevel(f)
    ensures Step(sections, f) == Grouped(sections[SectionKey(f) := Flat(f)])
  {
  }

  /** A file below a folder: the folder's section is created empty when it
      is missing, and the file's entry is pushed onto it. */
  lemma StepPush(before: map<string, Section>, sections: map<string, Section>, f: MdFile)
    requires !IsTopLevel(f)
    requires sections == if SectionKey(f) in before then before else before[SectionKey(f) := Folder([])]
    requires sections[SectionKey(f)].Folder?
    ensures Step(before, f) == Grouped(sections[SectionKey(f) := Folder(sections[SectionKey(f)].entries + [EntryOf(f)])])
  {
    var key := SectionKey(f);
    if key !in before {
      assert [] + [EntryOf(f)] == [EntryOf(f)];
      assert sections[key := Folder([EntryOf(f)])] == before[key := Folder([EntryOf(f)])];
    }
  }

  lemma CrashedPrefix(files: seq<MdFile>, n: nat)
    requires n <= |files| && Group(files[..n]).Crashed?
    ensures Group(files) == Group(files[..n])
  {
    GroupCrashSticky(files[..n], files[n..]);
    assert files[..n] + files[n..] == files;
  }

  /** Once the loop has failed, later files change nothing. */
  lemma {:induction false} GroupCrashSticky(files: seq<MdFile>, more: seq<MdFile>)
    requires Group(files).Crashed?
    ensures Group(files + more) == Group(files)
    decreases |more|
  {
    if more != [] {
      var init := more[..|more| - 1];
      assert (files + more)[..|files + more| - 1] == files + init;
      GroupCrashSticky(files, init);
    } else {
      assert files + more == files;
    }
  }

  // ---------------------------------------------------------------------
  // What the grouping is, stated without the loop.

  /** A top-level file at `i` and a deeper one at `j > i` share a key: the
      loop then pushes onto a single-file section and fails. */
  predicate ClashAt(files: seq<MdFile>, i: int, j: int)
  {
    0 <= i < j < |files| && IsTopLevel(files[i]) && !IsTopLevel(files[j])
    && SectionKey(files[i]) == SectionKey(files[j])
  }

  predicate Clash(files: seq<MdFile>)
  {
    exists i, j :: 0 <= i < j < |files| && ClashAt(files, i, j)
  }

  /** The keys of the files. */
  function Keys(files: seq<MdFile>): set<string>
  {
    set f | f in files :: SectionKey(f)
  }

  /** `f` is a file directly in the collection whose key is `k`. */
  predicate TopLevelWith(f: MdFile, k: string)
  {
    IsTopLevel(f) && SectionKey(f) == k
  }

  /** The last top-level file with key `k`. */
  function LastTopLevel(files: seq<MdFile>, k: string): (r: Option<MdFile>)
    ensures r.Some? ==> TopLevelWith(r.value, k)
  {
    if files == [] then None
    else
      var f := files[|files| - 1];
      if TopLevelWith(f, k) then Some(f)
      else LastTopLevel(files[..|files| - 1], k)
  }

  /** There is no last top-level file with key `k` exactly when there is
      none at all. */
  lemma {:induction false} LastTopLevelNone(files: seq<MdFile>, k: string)
    ensures LastTopLevel(files, k).None? <==> forall i :: 0 <= i < |files| ==> !TopLevelWith(files[i], k)
  {
    if files != [] {
      var n := |files| - 1;
      var init := files[..n];
      LastTopLevelNone(init, k);
      if LastTopLevel(files, k).None? {
        forall i | 0 <= i < |files|
          ensures !TopLevelWith(files[i], k)
        {
          if i < n {
            assert files[i] == init[i];
          }
        }
      } else if !TopLevelWith(files[n], k) {
        var i :| 0 <= i < |init| && TopLevelWith(init[i], k);
        assert files[i] == init[i];
      }
    }
  }

  /** The file found is the last top-level file with key `k`: no later
      file is one. */
  lemma {:induction false} LastTopLevelIsLast(files: seq<MdFile>, k: string)
    ensures LastTopLevel(files, k).Some? ==>
      exists i :: 0 <= i < |files| && files[i] == LastTopLevel(files, k).value
        && forall j :: i < j < |files| ==> !TopLevelWith(files[j], k)
  {
    if files != [] {
      var n := |files| - 1;
      var init := files[..n];
      if TopLevelWith(files[n], k) {
        assert files[n] == LastTopLevel(files, k).value;
      } else if LastTopLevel(init, k).Some? {
        LastTopLevelIsLast(init, k);
        var i :| 0 <= i < |init| && init[i] == LastTopLevel(init, k).value
          && forall j :: i < j < |init| ==> !TopLevelWith(init[j], k);
        assert files[i] == init[i];
        forall j | i < j < |files|
          ensures !TopLevelWith(files[j], k)
        {
          if j < n {
            assert files[j] == init[j];
          }
        }
      }
    }
  }

  /** The entries of the deeper files with key `k`, in the order found. */
  function EntriesFor(files: seq<MdFile>, k: string): seq<FolderEntry>
  {
    if files == [] then []
    else
      var f := files[|files| - 1];
      var init := EntriesFor(files[..|files| - 1], k);
      if !IsTopLevel(f) && SectionKey(f) == k then init + [EntryOf(f)] else init
  }

  /** The section the files make under key `k`: the last top-level file
      with that key if there is one, else a folder of the deeper files. */
  function Expected(files: seq<MdFile>, k: string): Section
  {
    match LastTopLevel(files, k)
    case Some(f) => Flat(f)
    case None => Folder(EntriesFor(files, k))
  }

  /** The loop's outcome, described without it: it fails exactly when a
      top-level file precedes a deeper file of the same key, and otherwise
      holds one section per key, each the one `Expected` describes. */
  lemma {:induction false} GroupSpec(files: seq<MdFile>)
    ensures Group(files).Crashed? <==> Clash(files)
    ensures Group(files).Grouped? ==> Group(files).sections.Keys == Keys(files)
    ensures Group(files).Grouped? ==> forall k :: k in Group(files).sections ==> Group(files).sections[k] == Expected(files, k)
  {
    if files != [] {
      var init := files[..|files| - 1];
      var f := files[|files| - 1];
      assert files == init + [f];
      GroupSpec(init);
      ClashExtend(init, f);
      if Group(init).Grouped? {
        StepSpec(Group(init).sections, init, f);
      }
    }
  }

  /** A clash among `init + [f]` is a clash within `init`, or one whose
      deeper file is `f`. */
  lemma ClashExtend(init: seq<MdFile>, f: MdFile)
    ensures Clash(init + [f]) <==> Clash(init) || (!IsTopLevel(f) && LastTopLevel(init, SectionKey(f)).Some?)
  {
    var files := init + [f];
    var n := |init|;
    LastTopLevelNone(init, SectionKey(f));
    if Clash(files) {
      var i, j :| 0 <= i < j < |files| && ClashAt(files, i, j);
      if j < n {
        assert files[i] == init[i] && files[j] == init[j];
        assert ClashAt(init, i, j);
      } else {
        assert files[i] == init[i];
      }
    }
    if Clash(init) {
      var i, j :| 0 <= i < j < |init| && ClashAt(init, i, j);
      assert files[i] == init[i] && files[j] == init[j];
      assert ClashAt(files, i, j);
    }
    if !IsTopLevel(f) && LastTopLevel(init, SectionKey(f)).Some? {
      var i :| 0 <= i < |init| && TopLevelWith(init[i], SectionKey(f));
      assert files[i] == init[i] && files[n] == f;
      assert ClashAt(files, i, n);
    }
  }

  /** How one more file changes the description. */
  lemma ExpectedExtend(init: seq<MdFile>, f: MdFile, k: string)
    ensures var files := init + [f];
      && LastTopLevel(files, k) == (if IsTopLevel(f) && SectionKey(f) == k then Some(f) else LastTopLevel(init, k))
      && EntriesFor(files, k) == (if !IsTopLevel(f) && SectionKey(f) == k then EntriesFor(init, k) + [EntryOf(f)] else EntriesFor(init, k))
      && Keys(files) == Keys(init) + {SectionKey(f)}
  {
    var files := init + [f];
    assert files[..|files| - 1] == init;
    assert files[|files| - 1] == f;
  }

  /** One more file leaves the section of every other key as it was. */
  lemma ExpectedOther(init: seq<MdFile>, f: MdFile, k: string)
    requires k != SectionKey(f)
    ensures Expected(init + [f], k) == Expected(init, k)
  {
    ExpectedExtend(init, f, k);
  }

  /** The section of the file's own key after one more file: the file
      itself at the top level; otherwise the top-level file already there,
      or the folder with the file's entry pushed. */
  lemma ExpectedOwn(init: seq<MdFile>, f: MdFile)
    ensures var k := SectionKey(f);
      Expected(init + [f], k)
      == if IsTopLevel(f) then Flat(f)
         else match LastTopLevel(init, k)
           case Some(t) => Flat(t)
           case None => Folder(EntriesFor(init, k) + [EntryOf(f)])
  {
    ExpectedExtend(init, f, SectionKey(f));
  }

  /** The last file as the step the loop takes on it: if the sections so
      far are the ones described for `init`, the step gives the ones
      described for `init + [f]`, or fails exactly at a clash. */
  lemma StepSpec(g: map<string, Section>, init: seq<MdFile>, f: MdFile)
    requires g.Keys == Keys(init)
    requires forall k :: k in g ==> g[k] == Expected(init, k)
    ensures Step(g, f).Crashed? <==> !IsTopLevel(f) && LastTopLevel(init, SectionKey(f)).Some?
    ensures Step(g, f).Grouped? ==> Step(g, f).sections.Keys == Keys(init + [f])
    ensures Step(g, f).Grouped? ==> forall k :: k in Step(g, f).sections ==> Step(g, f).sections[k] == Expected(init + [f], k)
  {
    StepCrashes(g, init, f);
    if Step(g, f).Grouped? {
      StepKeys(g, init, f);
      var g' := Step(g, f).sections;
      forall k | k in g'
        ensures g'[k] == Expected(init + [f], k)
      {
        if k == SectionKey(f) {
          StepOwnSection(g, init, f);
        } else {
          ExpectedOther(init, f, k);
        }
      }
    }
  }

  lemma StepCrashes(g: map<string, Section>, init: seq<MdFile>, f: MdFile)
    requires g.Keys == Keys(init)
    requires forall k :: k in g ==> g[k] == Expected(init, k)
    ensures Step(g, f).Crashed? <==> !IsTopLevel(f) && LastTopLevel(init, SectionKey(f)).Some?
  {
    var key := SectionKey(f);
    if !IsTopLevel(f) && key !in g {
      EntriesForAbsent(init, key);
    }
  }

  lemma StepKeys(g: map<string, Section>, init: seq<MdFile>, f: MdFile)
    requires g.Keys == Keys(init)
    requires Step(g, f).Grouped?
    ensures Step(g, f).sections.Keys == Keys(init + [f])
    ensures forall k :: k in Step(g, f).sections && k != SectionKey(f) ==> Step(g, f).sections[k] == g[k]
  {
    StepShape(g, f);
    KeysSnoc(init, f);
  }

  /** A step that does not fail adds the file's key and touches no other. */
  lemma StepShape(g: map<string, Section>, f: MdFile)
    requires Step(g, f).Grouped?
    ensures Step(g, f).sections.Keys == g.Keys + {SectionKey(f)}
    ensures forall k :: k in g && k != SectionKey(f) ==> Step(g, f).sections[k] == g[k]
  {
  }

  lemma KeysSnoc(init: seq<MdFile>, f: MdFile)
    ensures Keys(init + [f]) == Keys(init) + {SectionKey(f)}
  {
    var files := init + [f];
    forall x | x in files
      ensures x in init || x == f
    {
      var i :| 0 <= i < |files| && files[i] == x;
      if i < |init| {
        assert init[i] == x;
      }
    }
    assert forall x :: x in init ==> x in files;
  }

  lemma StepOwnSection(g: map<string, Section>, init: seq<MdFile>, f: MdFile)
    requires g.Keys == Keys(init)
    requires forall k :: k in g ==> g[k] == Expected(init, k)
    requires Step(g, f).Grouped?
    ensures Step(g, f).sections[SectionKey(f)] == Expected(init + [f], SectionKey(f))
  {
    var key := SectionKey(f);
    ExpectedOwn(init, f);
    if !IsTopLevel(f) && key !in g {
      EntriesForAbsent(init, key);
    }
  }

  /** A key no file has gathers no entries. */
  lemma {:induction false} EntriesForAbsent(files: seq<MdFile>, k: string)
    requires k !in Keys(files)
    ensures EntriesFor(files, k) == [] && LastTopLevel(files, k).None?
  {
    if files != [] {
      var init := files[..|files| - 1];
      assert forall f :: f in init ==> f in files;
      EntriesForAbsent(init, k);
    }
  }
}
