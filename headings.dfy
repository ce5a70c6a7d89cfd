/** The heading extractor `generateSectionLinks`: the text of a markdown
    file is split into lines, every line that matches `^##\s+(.*)` yields
    one link line to the heading's anchor, and the link lines are joined
    with newlines. The file's text and base name are parameters. */
module Headings {
  import opened Text
  import Anchor

  /** The characters JavaScript's `\s` matches. */
  predicate IsJsSpace(c: char)
  {
    c == '\t' || c == '\n' || c == '\U{0B}' || c == '\U{0C}' || c == '\r' || c == ' '
    || c == '\U{A0}' || c == '\U{1680}' || ('\U{2000}' <= c <= '\U{200A}')
    || c == '\U{2028}' || c == '\U{2029}' || c == '\U{202F}' || c == '\U{205F}'
    || c == '\U{3000}' || c == '\U{FEFF}'
  }

  /** The characters JavaScript's `.` does not match. */
  predicate IsLineTerminator(c: char)
  {
    c == '\n' || c == '\r' || c == '\U{2028}' || c == '\U{2029}'
  }

  /** What the greedy `\s+` leaves: the text after its leading whitespace. */
  function SkipSpaces(s: string): (r: string)
    ensures |r| <= |s|
    ensures r == [] || !IsJsSpace(r[0])
  {
    if s != [] && IsJsSpace(s[0]) then SkipSpaces(s[1..]) else s
  }

  /** `SkipSpaces` drops a prefix of whitespace and nothing else. */
  lemma {:induction false} SkipSpacesSuffix(s: string)
    ensures var r := SkipSpaces(s);
      && r == s[|s| - |r|..]
      && forall i :: 0 <= i < |s| - |r| ==> IsJsSpace(s[i])
  {
    if s != [] && IsJsSpace(s[0]) {
      SkipSpacesSuffix(s[1..]);
    }
  }

  /** What the greedy `.*` takes: the longest prefix without a line
      terminator. */
  function UpToTerminator(s: string): (r: string)
    ensures |r| <= |s|
    ensures forall i :: 0 <= i < |r| ==> !IsLineTerminator(r[i])
  {
    if s == [] || IsLineTerminator(s[0]) then [] else [s[0]] + UpToTerminator(s[1..])
  }

  /** `UpToTerminator` keeps a prefix and stops only at the end or at a
      line terminator. */
  lemma {:induction false} UpToTerminatorPrefix(s: string)
    ensures var r := UpToTerminator(s);
      && r == s[..|r|]
      && (|r| < |s| ==> IsLineTerminator(s[|r|]))
  {
    if s != [] && !IsLineTerminator(s[0]) {
      UpToTerminatorPrefix(s[1..]);
    }
  }

  /** The capture group of `^##\s+(.*)` is `v`, starting at index `k` of
      `line`: `##`, then whitespace up to `k` that cannot be extended, then
      `v`, which holds no line terminator and stops at the end or at one. */
  predicate CapturedAt(line: string, k: int, v: string)
  {
    && 3 <= k <= |line| && line[..2] == "##"
    && (forall i :: 2 <= i < k ==> IsJsSpace(line[i]))
    && (k == |line| || !IsJsSpace(line[k]))
    && k + |v| <= |line| && line[k..k + |v|] == v
    && (forall i :: 0 <= i < |v| ==> !IsLineTerminator(v[i]))
    && (k + |v| == |line| || IsLineTerminator(line[k + |v|]))
  }

  /** `line.match(/^##\s+(.*)/)`, giving the capture group: a line matches
      exactly when it starts with `##` and a whitespace character. */
  function MatchHeading(line: string): (r: Option<string>)
    ensures r.Some? <==> |line| >= 3 && line[..2] == "##" && IsJsSpace(line[2])
  {
    if |line| >= 3 && line[..2] == "##" && IsJsSpace(line[2]) then
      Some(UpToTerminator(SkipSpaces(line[2..])))
    else
      None
  }

  /** What a match captures: the text after the longest whitespace run that
      follows `##`, up to the first line terminator. */
  lemma MatchHeadingCaptures(line: string)
    requires MatchHeading(line).Some?
    ensures CapturedAt(line, |line| - |SkipSpaces(line[2..])|, MatchHeading(line).value)
  {
    var rest := SkipSpaces(line[2..]);
    SkipSpacesSuffix(line[2..]);
    UpToTerminatorPrefix(rest);
    var k := |line| - |rest|;
    assert rest == line[k..];
    assert forall i :: 2 <= i < k ==> line[i] == line[2..][i - 2];
  }

  /** The capture is unique: `CapturedAt` pins down both where the text
      starts and what it is. */
  lemma CaptureIsUnique(line: string, k1: int, v1: string, k2: int, v2: string)
    requires CapturedAt(line, k1, v1) && CapturedAt(line, k2, v2)
    ensures k1 == k2 && v1 == v2
  {
    assert v1 == line[k1..k1 + |v1|];
  }

  /** A heading's text holds no newline. */
  lemma CaptureHasNoNewline(line: string)
    requires MatchHeading(line).Some?
    ensures '\n' !in MatchHeading(line).value
  {
    var v := MatchHeading(line).value;
    assert forall i :: 0 <= i < |v| ==> !IsLineTerminator(v[i]);
  }

  /** None of `lines` is a heading. */
  predicate NoHeadings(lines: seq<string>)
  {
    forall i :: 0 <= i < |lines| ==> MatchHeading(lines[i]).None?
  }

  /** The link line `- [text](fileName#anchor)`. */
  function LinkLine(text: string, fileName: string): string
  {
    "- [" + text + "](" + fileName + "#" + Anchor.Anchor(text) + ")"
  }

  /** The link lines the headings among `lines` give, in order. */
  function LinksOf(lines: seq<string>, fileName: string): (links: seq<string>)
    ensures |links| <= |lines|
  {
    if lines == [] then []
    else
      var init := LinksOf(lines[..|lines| - 1], fileName);
      match MatchHeading(lines[|lines| - 1])
      case Some(text) => init + [LinkLine(text, fileName)]
      case None => init
  }

  /** One more line of the loop. */
  lemma LinksOfNext(lines: seq<string>, i: nat, fileName: string)
    requires i < |lines|
    ensures var m := MatchHeading(lines[i]);
      LinksOf(lines[..i + 1], fileName)
      == if m.Some? then LinksOf(lines[..i], fileName) + [LinkLine(m.value, fileName)] else LinksOf(lines[..i], fileName)
  {
    assert lines[..i + 1][..i] == lines[..i];
  }

  /** `generateSectionLinks` on a file's text and base name. */
  function SectionLinks(content: string, fileName: string): string
  {
    Join(LinksOf(Split(content, '\n'), fileName), "\n")
  }

  /** The loop of `generateSectionLinks`: one pass over the lines, pushing
      a link for each heading. */
  method GenerateSectionLinks(content: string, fileName: string) returns (r: string)
    ensures r == SectionLinks(content, fileName)
  {
    var lines := Split(content, '\n');
    var links: seq<string> := [];
    var i := 0;
    while i < |lines|
      invariant 0 <= i <= |lines|
      invariant links == LinksOf(lines[..i], fileName)
    {
      LinksOfNext(lines, i, fileName);
      var m := MatchHeading(lines[i]);
      if m.Some? {
        links := links + [LinkLine(m.value, fileName)];
      }
      i := i + 1;
    }
    assert lines[..|lines|] == lines;
    r := Join(links, "\n");
  }

  /** The links of a text are the links of its parts, in order. */
  lemma {:induction false} LinksOfAppend(a: seq<string>, b: seq<string>, fileName: string)
    ensures LinksOf(a + b, fileName) == LinksOf(a, fileName) + LinksOf(b, fileName)
    decreases |b|
  {
    if b == [] {
      assert a + b == a;
    } else {
      var b' := b[..|b| - 1];
      assert (a + b)[..|a + b| - 1] == a + b';
      assert (a + b)[|a + b| - 1] == b[|b| - 1];
      LinksOfAppend(a, b', fileName);
    }
  }

  /** One line gives one link exactly when it is a heading. */
  lemma LinksOfLine(line: string, fileName: string)
    ensures MatchHeading(line).Some? ==> LinksOf([line], fileName) == [LinkLine(MatchHeading(line).value, fileName)]
    ensures MatchHeading(line).None? ==> LinksOf([line], fileName) == []
  {
    assert [line][..0] == [];
  }

  /** Every link comes from a heading, and every heading gives a link. */
  lemma {:induction false} LinksOfEmpty(lines: seq<string>, fileName: string)
    ensures LinksOf(lines, fileName) == [] <==> NoHeadings(lines)
  {
    if lines != [] {
      var init := lines[..|lines| - 1];
      LinksOfEmpty(init, fileName);
      assert forall i :: 0 <= i < |init| ==> init[i] == lines[i];
    }
  }

  /** A link line is never empty, so joining them is empty only when there
      is none. */
  lemma JoinNonEmpty(parts: seq<string>, sep: string)
    requires forall k :: 0 <= k < |parts| ==> parts[k] != []
    ensures Join(parts, sep) == [] <==> parts == []
  {
  }

  /** A file without a single heading gives no text at all, and a file
      with one gives some. */
  lemma SectionLinksEmpty(content: string, fileName: string)
    ensures SectionLinks(content, fileName) == "" <==> NoHeadings(Split(content, '\n'))
  {
    var lines := Split(content, '\n');
    JoinedLinksEmpty(lines, fileName);
    assert SectionLinks(content, fileName) == Join(LinksOf(lines, fileName), "\n");
  }

  lemma JoinedLinksEmpty(lines: seq<string>, fileName: string)
    ensures Join(LinksOf(lines, fileName), "\n") == "" <==> NoHeadings(lines)
  {
    LinksOfEmpty(lines, fileName);
    LinkLinesAreLines(lines, fileName);
    JoinNonEmpty(LinksOf(lines, fileName), "\n");
  }

  /** No link line is empty, and none holds a newline when the file name
      holds none. */
  lemma {:induction false} LinkLinesAreLines(lines: seq<string>, fileName: string)
    ensures forall k :: 0 <= k < |LinksOf(lines, fileName)| ==> LinksOf(lines, fileName)[k] != []
    ensures '\n' !in fileName ==> forall k :: 0 <= k < |LinksOf(lines, fileName)| ==> '\n' !in LinksOf(lines, fileName)[k]
  {
    if lines != [] {
      var last := lines[|lines| - 1];
      LinkLinesAreLines(lines[..|lines| - 1], fileName);
      if MatchHeading(last).Some? {
        var text := MatchHeading(last).value;
        CaptureHasNoNewline(last);
        LinkLineHasNoNewline(text, fileName);
      }
    }
  }

  lemma LinkLineHasNoNewline(text: string, fileName: string)
    requires '\n' !in text
    ensures LinkLine(text, fileName) != []
    ensures '\n' !in fileName ==> '\n' !in LinkLine(text, fileName)
  {
    var a := Anchor.Anchor(text);
    assert '\n' !in a by {
      assert forall i :: 0 <= i < |a| ==> Anchor.IsSlugChar(a[i]);
    }
  }

  /** Splitting the output at newlines gives back the link lines, one per
      heading in document order. */
  lemma SectionLinksLines(content: string, fileName: string)
    requires '\n' !in fileName
    requires LinksOf(Split(content, '\n'), fileName) != []
    ensures Split(SectionLinks(content, fileName), '\n') == LinksOf(Split(content, '\n'), fileName)
  {
    LinkLinesAreLines(Split(content, '\n'), fileName);
    SplitJoin(LinksOf(Split(content, '\n'), fileName), '\n');
  }
}
