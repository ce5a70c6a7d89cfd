/** `getMarkdownFiles`: a depth-first walk of the collection folder that
    keeps every file whose name ends in `.md`. The folder is a tree of
    entries listed in the order the directory listing gives; a file's path
    is the sequence of names leading to it. */
module Collector {

  /** An entry of a directory listing: a file with its text, or a folder
      with its own listing. */
  datatype Entry = File(name: string, content: string) | Dir(name: string, children: seq<Entry>)

  /** A markdown file found by the walk: the folders leading to it, its
      name and its text. */
  datatype MdFile = MdFile(dirs: seq<string>, name: string, content: string)

  /** `name.endsWith('.md')`. */
  predicate IsMarkdownName(name: string)
  {
    |name| >= 3 && name[|name| - 3..] == ".md"
  }

  /** The markdown files under `entries`, a listing found at path `dir`: a
      folder's files in place of the folder, then the files of the entries
      after it. */
  function FilesIn(entries: seq<Entry>, dir: seq<string>): seq<MdFile>
    decreases entries
  {
    if entries == [] then []
    else
      var rest := FilesIn(entries[1..], dir);
      match entries[0]
      case Dir(name, children) => FilesIn(children, dir + [name]) + rest
      case File(name, content) =>
        if IsMarkdownName(name) then [MdFile(dir, name, content)] + rest else rest
  }

  /** The walk: one pass over the listing, recursing into folders and
      concatenating what they give. */
  method GetMarkdownFiles(entries: seq<Entry>, dir: seq<string>) returns (files: seq<MdFile>)
    ensures files == FilesIn(entries, dir)
    decreases entries
  {
    files := [];
    var i := 0;
    while i < |entries|
      invariant 0 <= i <= |entries|
      invariant files == FilesIn(entries[..i], dir)
      decreases |entries| - i
    {
      FilesInAppend(entries[..i], [entries[i]], dir);
      assert entries[..i] + [entries[i]] == entries[..i + 1];
      match entries[i] {
        case Dir(name, children) =>
          var sub := GetMarkdownFiles(children, dir + [name]);
          files := files + sub;
        case File(name, content) =>
          if IsMarkdownName(name) {
            files := files + [MdFile(dir, name, content)];
          }
      }
      i := i + 1;
    }
    assert entries[..|entries|] == entries;
  }

  /** The walk of two listings one after the other is the walk of each, in
      order: files keep the order of the listing. */
  lemma {:induction false} FilesInAppend(a: seq<Entry>, b: seq<Entry>, dir: seq<string>)
    ensures FilesIn(a + b, dir) == FilesIn(a, dir) + FilesIn(b, dir)
    decreases a
  {
    if a == [] {
      assert a + b == b;
    } else {
      assert a + b == [a[0]] + (a[1..] + b);
      assert a == [a[0]] + a[1..];
      FilesInCons(a[0], a[1..] + b, dir);
      FilesInCons(a[0], a[1..], dir);
      FilesInAppend(a[1..], b, dir);
    }
  }

  /** The files of one entry come before those of the entries after it. */
  lemma FilesInCons(e: Entry, rest: seq<Entry>, dir: seq<string>)
    ensures FilesIn([e] + rest, dir) == FilesIn([e], dir) + FilesIn(rest, dir)
  {
    assert ([e] + rest)[1..] == rest;
    assert [e][1..] == [];
  }

  /** A file with text `content` sits at `path` below `entries`. */
  predicate FileAt(entries: seq<Entry>, path: seq<string>, content: string)
    decreases entries
  {
    exists i :: 0 <= i < |entries| && EntryHasFileAt(entries[i], path, content)
  }

  predicate EntryHasFileAt(e: Entry, path: seq<string>, content: string)
    decreases e
  {
    match e
    case File(name, c) => path == [name] && c == content
    case Dir(name, children) => |path| >= 2 && path[0] == name && FileAt(children, path[1..], content)
  }

  /** The walk finds exactly the markdown files of the tree: a file named
      `name` is reported in the folders `dir + p` precisely when it sits in
      `p` below the listing and its name ends in `.md`. */
  lemma {:induction false} FilesInAreTheMarkdownFiles(entries: seq<Entry>, dir: seq<string>, p: seq<string>, name: string, content: string)
    ensures MdFile(dir + p, name, content) in FilesIn(entries, dir)
        <==> IsMarkdownName(name) && FileAt(entries, p + [name], content)
    decreases entries
  {
    if entries != [] {
      FilesInAreTheMarkdownFiles(entries[1..], dir, p, name, content);
      EntryFiles(entries[0], dir, p, name, content);
      FileAtCons(entries, p + [name], content);
    }
  }

  lemma FileAtCons(entries: seq<Entry>, p: seq<string>, content: string)
    requires entries != []
    ensures FileAt(entries, p, content) <==> EntryHasFileAt(entries[0], p, content) || FileAt(entries[1..], p, content)
  {
    if FileAt(entries, p, content) {
      var i :| 0 <= i < |entries| && EntryHasFileAt(entries[i], p, content);
      if i > 0 {
        assert entries[1..][i - 1] == entries[i];
      }
    }
    if FileAt(entries[1..], p, content) {
      var i :| 0 <= i < |entries[1..]| && EntryHasFileAt(entries[1..][i], p, content);
      assert entries[i + 1] == entries[1..][i];
    }
  }

  /** The same, for a listing of one entry. */
  lemma {:induction false} EntryFiles(e: Entry, dir: seq<string>, p: seq<string>, name: string, content: string)
    ensures MdFile(dir + p, name, content) in FilesIn([e], dir)
        <==> IsMarkdownName(name) && EntryHasFileAt(e, p + [name], content)
    decreases e
  {
    assert [e][1..] == [];
    match e
    case File(n, c) =>
      assert FilesIn([e], dir) == if IsMarkdownName(n) then [MdFile(dir, n, c)] else [];
      if p == [] {
        assert dir + p == dir;
        assert p + [name] == [name];
      } else {
        assert |dir + p| != |dir|;
        assert |p + [name]| != 1;
      }
    case Dir(n, children) =>
      assert FilesIn([e], dir) == FilesIn(children, dir + [n]);
      var path := p + [name];
      if p != [] && p[0] == n {
        assert dir + p == (dir + [n]) + p[1..];
        assert path[1..] == p[1..] + [name];
        FilesInAreTheMarkdownFiles(children, dir + [n], p[1..], name, content);
      }
      if MdFile(dir + p, name, content) in FilesIn(children, dir + [n]) {
        FilesUnder(children, dir + [n], MdFile(dir + p, name, content));
        var q := (dir + p)[|dir| + 1..];
        assert (dir + p)[|dir|] == (dir + [n])[|dir|] == n;
        assert p == (dir + p)[|dir|..];
        assert p == [n] + q;
        assert dir + p == (dir + [n]) + q;
        FilesInAreTheMarkdownFiles(children, dir + [n], q, name, content);
      }
      if p == [] {
        assert !EntryHasFileAt(e, path, content);
      }
  }

  /** Every file the walk reports below `dir` lies in a folder path that
      extends `dir`. */
  lemma {:induction false} FilesUnder(entries: seq<Entry>, dir: seq<string>, f: MdFile)
    requires f in FilesIn(entries, dir)
    ensures |f.dirs| >= |dir| && f.dirs[..|dir|] == dir
    decreases entries
  {
    var rest := FilesIn(entries[1..], dir);
    if f in rest {
      FilesUnder(entries[1..], dir, f);
    } else {
      match entries[0]
      case Dir(name, children) =>
        FilesUnder(children, dir + [name], f);
      case File(name, content) =>
    }
  }
}
