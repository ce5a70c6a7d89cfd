/** The anchor (link fragment) that `generateSectionLinks` derives from a
    heading's text: lower-case it, then apply five regular-expression
    replacements in a row. Each replacement is written out below as a
    function on characters; `Dashify` is an independent one-pass definition
    of the middle three, used to prove what the composed anchor looks like. */
module Anchor {
  import opened Text

  /** The class `[a-z0-9&]` that the first replacement leaves alone. */
  predicate IsKept(c: char) { IsAsciiLower(c) || IsDigit(c) || c == '&' }

  /** The characters an anchor is made of. */
  predicate IsSlugChar(c: char) { IsAsciiLower(c) || IsDigit(c) || c == '-' }

  predicate IsSlugText(s: string) { forall i :: 0 <= i < |s| ==> IsSlugChar(s[i]) }

  /** No two hyphens side by side. */
  predicate NoDoubleHyphen(s: string)
  {
    forall i :: 0 <= i < |s| - 1 ==> !(s[i] == '-' && s[i + 1] == '-')
  }

  /** A slug in normal form: slug characters only, single hyphens between
      non-empty words, none at either end. */
  predicate IsNormalSlug(s: string)
  {
    IsSlugText(s) && NoDoubleHyphen(s) && (s != [] ==> s[0] != '-' && s[|s| - 1] != '-')
  }

  /** What is left once the leading run outside `[a-z0-9&]` is dropped. */
  function SkipOthers(s: string): (r: string)
    ensures |r| <= |s|
    ensures r == [] || IsKept(r[0])
    ensures forall i :: 0 <= i < |s| - |r| ==> !IsKept(s[i])
  {
    if s == [] || IsKept(s[0]) then s else SkipOthers(s[1..])
  }

  lemma {:induction false} SkipOthersIsSuffix(s: string)
    ensures SkipOthers(s) == s[|s| - |SkipOthers(s)|..]
  {
    if s != [] && !IsKept(s[0]) {
      SkipOthersIsSuffix(s[1..]);
    }
  }

  /** `.replace(/[^a-z0-9&]+/g, '_')`: each maximal run of other
      characters becomes one underscore. */
  function ReplaceOthers(s: string): (r: string)
    ensures forall i :: 0 <= i < |r| ==> IsKept(r[i]) || r[i] == '_'
    ensures s != [] && IsKept(s[0]) ==> r != [] && r[0] == s[0]
    ensures s != [] && !IsKept(s[0]) ==> r != [] && r[0] == '_'
    ensures r == [] <==> s == []
    decreases |s|
  {
    if s == [] then ""
    else if IsKept(s[0]) then [s[0]] + ReplaceOthers(s[1..])
    else "_" + ReplaceOthers(SkipOthers(s[1..]))
  }

  /** `.replace(/&/g, '--')`. */
  function ExpandAmpersands(s: string): (r: string)
    ensures '&' !in r
    ensures r == [] <==> s == []
    ensures s != [] ==> r[0] == (if s[0] == '&' then '-' else s[0])
  {
    if s == [] then ""
    else (if s[0] == '&' then "--" else [s[0]]) + ExpandAmpersands(s[1..])
  }

  /** What is left once the leading run of underscores is dropped. */
  function SkipUnderscores(s: string): (r: string)
    ensures |r| <= |s|
    ensures r == [] || r[0] != '_'
    ensures s == [] || s[0] != '_' ==> r == s
  {
    if s == [] || s[0] != '_' then s else SkipUnderscores(s[1..])
  }

  /** `.replace(/_+/g, '-')`: each maximal run of underscores becomes one
      hyphen. */
  function CollapseUnderscores(s: string): (r: string)
    ensures '_' !in r
    decreases |s|
  {
    if s == [] then ""
    else if s[0] == '_' then "-" + CollapseUnderscores(SkipUnderscores(s[1..]))
    else [s[0]] + CollapseUnderscores(s[1..])
  }

  /** `.replace(/(^-|-$)/g, '')`: one hyphen is removed at the start and one
      at the end, if present. */
  function TrimHyphens(s: string): (r: string)
    ensures IsSlugText(s) ==> IsSlugText(r)
    ensures NoDoubleHyphen(s) ==> NoDoubleHyphen(r) && (r != [] ==> r[0] != '-' && r[|r| - 1] != '-')
  {
    var t := if |s| > 0 && s[0] == '-' then s[1..] else s;
    assert NoDoubleHyphen(s) ==> NoDoubleHyphen(t);
    if |t| > 0 && t[|t| - 1] == '-' then t[..|t| - 1] else t
  }

  /** `.replace(/----/g, '--')`: non-overlapping runs of four hyphens,
      left to right, become two. */
  function CollapseQuadHyphens(s: string): (r: string)
    ensures IsSlugText(s) ==> IsSlugText(r)
  {
    if |s| >= 4 && s[..4] == "----" then "--" + CollapseQuadHyphens(s[4..])
    else if s == [] then ""
    else [s[0]] + CollapseQuadHyphens(s[1..])
  }

  /** Steps two to four in one pass: each maximal run outside `[a-z0-9&]`
      becomes one hyphen and each `&` two hyphens. */
  function Dashify(s: string): (r: string)
    ensures IsSlugText(r)
    ensures r == [] <==> s == []
    ensures s != [] && IsKept(s[0]) && s[0] != '&' ==> r[0] == s[0]
    ensures s != [] && !IsKept(s[0]) ==> r[0] == '-'
    decreases |s|
  {
    if s == [] then ""
    else if s[0] == '&' then "--" + Dashify(s[1..])
    else if IsKept(s[0]) then [s[0]] + Dashify(s[1..])
    else "-" + Dashify(SkipOthers(s[1..]))
  }

  /** The anchor of a heading's text: the chain on lines 63-69. Only
      `a`-`z`, `0`-`9` and `-` can appear in it. */
  function Anchor(section: string): (r: string)
    ensures IsSlugText(r)
  {
    var lowered := ToLower(section);
    MiddleStepsAreDashify(lowered);
    CollapseQuadHyphens(TrimHyphens(CollapseUnderscores(ExpandAmpersands(ReplaceOthers(lowered)))))
  }

  lemma CollapseUnderscoresCons(c: char, s: string)
    requires c != '_'
    ensures CollapseUnderscores([c] + s) == [c] + CollapseUnderscores(s)
  {
    assert ([c] + s)[1..] == s;
  }

  lemma ExpandAmpersandsCons(c: char, s: string)
    ensures ExpandAmpersands([c] + s) == (if c == '&' then "--" else [c]) + ExpandAmpersands(s)
  {
    assert ([c] + s)[1..] == s;
  }

  /** The three middle replacements, applied in the source's order, equal
      the one-pass `Dashify`. */
  lemma {:induction false} MiddleStepsAreDashify(s: string)
    ensures CollapseUnderscores(ExpandAmpersands(ReplaceOthers(s))) == Dashify(s)
    decreases |s|
  {
    if s == [] {
    } else if IsKept(s[0]) {
      MiddleStepsAreDashify(s[1..]);
      MiddleStepsKept(s);
    } else {
      MiddleStepsAreDashify(SkipOthers(s[1..]));
      MiddleStepsOther(s);
    }
  }

  lemma MiddleStepsKept(s: string)
    requires s != [] && IsKept(s[0])
    requires CollapseUnderscores(ExpandAmpersands(ReplaceOthers(s[1..]))) == Dashify(s[1..])
    ensures CollapseUnderscores(ExpandAmpersands(ReplaceOthers(s))) == Dashify(s)
  {
    var rest := ReplaceOthers(s[1..]);
    assert ReplaceOthers(s) == [s[0]] + rest;
    ExpandAmpersandsCons(s[0], rest);
    var e := ExpandAmpersands(rest);
    if s[0] == '&' {
      CollapseUnderscoresTwoHyphens(e);
    } else {
      CollapseUnderscoresCons(s[0], e);
    }
  }

  lemma CollapseUnderscoresTwoHyphens(e: string)
    ensures CollapseUnderscores("--" + e) == "--" + CollapseUnderscores(e)
  {
    assert "--" + e == ['-'] + (['-'] + e);
    CollapseUnderscoresCons('-', ['-'] + e);
    CollapseUnderscoresCons('-', e);
  }

  lemma MiddleStepsOther(s: string)
    requires s != [] && !IsKept(s[0])
    requires var t := SkipOthers(s[1..]);
      CollapseUnderscores(ExpandAmpersands(ReplaceOthers(t))) == Dashify(t)
    ensures CollapseUnderscores(ExpandAmpersands(ReplaceOthers(s))) == Dashify(s)
  {
    var t := SkipOthers(s[1..]);
    var e := ExpandAmpersands(ReplaceOthers(t));
    assert ReplaceOthers(s) == "_" + ReplaceOthers(t);
    ExpandAmpersandsCons('_', ReplaceOthers(t));
    assert ("_" + e)[1..] == e;
    assert SkipUnderscores(e) == e;
  }

  // ---------------------------------------------------------------------
  // Headings made of words: the anchor is the lower-cased words joined by
  // single hyphens.

  /** The characters a plain heading is made of. */
  predicate IsPlainChar(c: char) { IsAsciiUpper(c) || IsAsciiLower(c) || IsDigit(c) || c == ' ' }

  /** The characters of a lower-cased plain heading. */
  predicate IsLowerPlainChar(c: char) { IsAsciiLower(c) || IsDigit(c) || c == ' ' }

  /** The leading word: the longest prefix without a space. */
  function TakeWord(s: string): (w: string)
    ensures |w| <= |s|
    ensures ' ' !in w
    ensures |w| < |s| ==> s[|w|] == ' '
    ensures s != [] && s[0] != ' ' ==> w != []
  {
    if s == [] || s[0] == ' ' then "" else [s[0]] + TakeWord(s[1..])
  }

  lemma {:induction false} TakeWordIsPrefix(s: string)
    ensures TakeWord(s) == s[..|TakeWord(s)|]
  {
    if s != [] && s[0] != ' ' {
      TakeWordIsPrefix(s[1..]);
    }
  }

  /** The words of a text: its maximal runs of non-space characters. */
  function Words(s: string): (ws: seq<string>)
    ensures forall k :: 0 <= k < |ws| ==> ws[k] != [] && ' ' !in ws[k]
    decreases |s|
  {
    if s == [] then []
    else if s[0] == ' ' then Words(s[1..])
    else var w := TakeWord(s); [w] + Words(s[|w|..])
  }

  lemma {:induction false} DashifyWordPrefix(w: string, s: string)
    requires forall i :: 0 <= i < |w| ==> IsAsciiLower(w[i]) || IsDigit(w[i])
    ensures Dashify(w + s) == w + Dashify(s)
  {
    if w != [] {
      var ws := w + s;
      assert ws[0] == w[0] && IsKept(w[0]) && w[0] != '&';
      assert ws[1..] == w[1..] + s;
      assert Dashify(ws) == [w[0]] + Dashify(w[1..] + s);
      DashifyWordPrefix(w[1..], s);
      assert [w[0]] + w[1..] == w;
    } else {
      assert w + s == s;
    }
  }

  lemma {:induction false} WordsSkipSpaces(s: string)
    requires forall i :: 0 <= i < |s| ==> IsLowerPlainChar(s[i])
    ensures Words(SkipOthers(s)) == Words(s)
  {
    if s != [] && !IsKept(s[0]) {
      WordsSkipSpaces(s[1..]);
    }
  }

  predicate IsLowerPlain(s: string) { forall i :: 0 <= i < |s| ==> IsLowerPlainChar(s[i]) }

  /** The hyphen a trailing run of spaces leaves behind. */
  function TrailingHyphen(s: string): string
  {
    if s != [] && s[|s| - 1] == ' ' then "-" else ""
  }

  /** For a lower-cased plain text that does not start with a space,
      `Dashify` gives the words joined by hyphens, with one more hyphen when
      the text ends in spaces. */
  lemma {:induction false} DashifyWords(s: string)
    requires IsLowerPlain(s)
    requires s == [] || s[0] != ' '
    ensures Dashify(s) == Join(Words(s), "-") + TrailingHyphen(s)
    decreases |s|
  {
    if s != [] {
      var w := TakeWord(s);
      var rest := s[|w|..];
      WordThenRest(s);
      if rest == [] {
        assert Words(s) == [w] + Words([]);
        assert s == w;
      } else {
        var t := SkipOthers(rest[1..]);
        SuffixIsLowerPlain(s, |w|);
        SuffixIsLowerPlain(rest, 1);
        SkipOthersIsSuffix(rest[1..]);
        SuffixIsLowerPlain(rest[1..], |rest[1..]| - |t|);
        DashifyWords(t);
        DashifyWordsStep(s, w, rest, t);
      }
    }
  }

  /** A text that does not start with a space splits into its first word and
      the rest, and `Dashify` copies the word. */
  lemma WordThenRest(s: string)
    requires IsLowerPlain(s) && s != [] && s[0] != ' '
    ensures var w := TakeWord(s); var rest := s[|w|..];
      s == w + rest && Dashify(s) == w + Dashify(rest) && Words(s) == [w] + Words(rest)
      && (rest != [] ==> rest[0] == ' ')
  {
    var w := TakeWord(s);
    var rest := s[|w|..];
    TakeWordIsPrefix(s);
    assert s == w + rest;
    assert forall i :: 0 <= i < |w| ==> w[i] == s[i] && w[i] != ' ';
    DashifyWordPrefix(w, rest);
  }

  lemma SuffixIsLowerPlain(s: string, k: nat)
    requires IsLowerPlain(s) && k <= |s|
    ensures IsLowerPlain(s[k..])
  {
    assert forall i :: 0 <= i < |s| - k ==> s[k..][i] == s[k + i];
  }

  lemma DashifyWordsStep(s: string, w: string, rest: string, t: string)
    requires IsLowerPlain(s) && s == w + rest && w != []
    requires rest != [] && rest[0] == ' ' && t == SkipOthers(rest[1..])
    requires Dashify(s) == w + Dashify(rest) && Words(s) == [w] + Words(rest)
    requires Dashify(t) == Join(Words(t), "-") + TrailingHyphen(t)
    requires t == [] || t[0] != ' '
    ensures Dashify(s) == Join(Words(s), "-") + TrailingHyphen(s)
  {
    SuffixIsLowerPlain(s, |w|);
    DashifyOther(rest);
    WordsSkipSpaces(rest[1..]);
    TrailingHyphenAfterSpaces(s, w, rest, t);
    WordsOfNonEmpty(t);
    JoinAfterWord(w, Words(t), Dashify(t), TrailingHyphen(t), TrailingHyphen(s));
  }

  lemma WordsOfNonEmpty(t: string)
    requires t == [] || t[0] != ' '
    ensures t == [] <==> Words(t) == []
  {
    if t != [] {
      assert Words(t) == [TakeWord(t)] + Words(t[|TakeWord(t)|..]);
    }
  }

  lemma TrailingHyphenAfterSpaces(s: string, w: string, rest: string, t: string)
    requires IsLowerPlain(rest) && s == w + rest
    requires rest != [] && rest[0] == ' ' && t == SkipOthers(rest[1..])
    ensures TrailingHyphen(s) == if t == [] then "-" else TrailingHyphen(t)
  {
    TrailingHyphenAppend(w, rest);
    if t == [] {
      LastIsSpace(rest, 0);
    } else {
      var u := rest[1..];
      SkipOthersIsSuffix(u);
      TrailingHyphenSuffix(u, t);
      assert rest == [rest[0]] + u;
      TrailingHyphenAppend([rest[0]], u);
    }
  }

  /** Only the last character decides the trailing hyphen. */
  lemma TrailingHyphenAppend(x: string, y: string)
    requires y != []
    ensures TrailingHyphen(x + y) == TrailingHyphen(y)
  {
    assert (x + y)[|x + y| - 1] == y[|y| - 1];
  }

  lemma TrailingHyphenSuffix(u: string, t: string)
    requires t != [] && |t| <= |u| && t == u[|u| - |t|..]
    ensures TrailingHyphen(u) == TrailingHyphen(t)
  {
    assert t[|t| - 1] == u[|u| - 1];
  }

  /** The bookkeeping of one induction step, with the functions abstracted. */
  lemma JoinAfterWord(w: string, ws: seq<string>, d: string, tailT: string, tailS: string)
    requires d == Join(ws, "-") + tailT
    requires ws == [] ==> d == [] && tailS == "-"
    requires ws != [] ==> tailS == tailT
    ensures w + ("-" + d) == Join([w] + ws, "-") + tailS
  {
    if ws != [] {
      JoinCons(w, ws, "-");
    }
  }

  lemma DashifyOther(s: string)
    requires s != [] && !IsKept(s[0])
    ensures Dashify(s) == "-" + Dashify(SkipOthers(s[1..]))
  {
  }

  /** When everything after position `k` is skipped as a run of spaces, the
      text ends in a space. */
  lemma LastIsSpace(s: string, k: nat)
    requires forall i :: 0 <= i < |s| ==> IsLowerPlainChar(s[i])
    requires k < |s| && s[k] == ' ' && SkipOthers(s[k + 1..]) == []
    ensures s[|s| - 1] == ' '
  {
    var r := s[k + 1..];
    if |r| > 0 {
      assert !IsKept(r[|r| - 1]);
      assert r[|r| - 1] == s[|s| - 1];
    }
  }

  lemma JoinCons(w: string, ws: seq<string>, sep: string)
    requires ws != []
    ensures Join([w] + ws, sep) == w + sep + Join(ws, sep)
  {
    assert ([w] + ws)[1..] == ws;
  }

  lemma {:induction false} JoinWordsShape(ws: seq<string>)
    requires forall k :: 0 <= k < |ws| ==> ws[k] != [] && ' ' !in ws[k]
    requires forall k, i :: 0 <= k < |ws| && 0 <= i < |ws[k]| ==> ws[k][i] != '-'
    ensures var j := Join(ws, "-"); NoDoubleHyphen(j) && (ws == [] <==> j == [])
    ensures var j := Join(ws, "-"); j != [] ==> j[0] != '-' && j[|j| - 1] != '-'
  {
    if |ws| > 1 {
      JoinWordsShape(ws[1..]);
      var tail := Join(ws[1..], "-");
      var j := ws[0] + "-" + tail;
      assert Join(ws, "-") == j;
      forall i | 0 <= i < |j| - 1 ensures !(j[i] == '-' && j[i + 1] == '-') {
        if i < |ws[0]| - 1 {
        } else if i == |ws[0]| - 1 {
          assert j[i] == ws[0][i];
        } else if i == |ws[0]| {
          assert j[i + 1] == tail[0];
        } else {
          assert j[i] == tail[i - |ws[0]| - 1];
        }
      }
    }
  }

  lemma {:induction false} WordsAreAlnum(s: string)
    requires IsLowerPlain(s)
    ensures forall k, i :: 0 <= k < |Words(s)| && 0 <= i < |Words(s)[k]| ==> Words(s)[k][i] != '-'
    decreases |s|
  {
    if s != [] {
      if s[0] == ' ' {
        SuffixIsLowerPlain(s, 1);
        WordsAreAlnum(s[1..]);
      } else {
        var w := TakeWord(s);
        TakeWordIsPrefix(s);
        assert forall i :: 0 <= i < |w| ==> w[i] == s[i];
        SuffixIsLowerPlain(s, |w|);
        WordsAreAlnum(s[|w|..]);
        assert Words(s) == [w] + Words(s[|w|..]);
      }
    }
  }

  lemma {:induction false} CollapseQuadHyphensKeepsSingles(s: string)
    requires NoDoubleHyphen(s)
    ensures CollapseQuadHyphens(s) == s
  {
    if s != [] {
      var t := s[1..];
      NoDoubleHyphenTail(s);
      CollapseQuadHyphensKeepsSingles(t);
      assert [s[0]] + t == s;
      if s[0] == '-' {
        CollapseQuadHyphensSingle(t);
      } else {
        CollapseQuadHyphensCons(s[0], t);
      }
    }
  }

  /** A hyphen not followed by another is kept as it is. */
  lemma CollapseQuadHyphensSingle(t: string)
    requires t == [] || t[0] != '-'
    ensures CollapseQuadHyphens(['-'] + t) == ['-'] + CollapseQuadHyphens(t)
  {
    var x := ['-'] + t;
    assert x[1..] == t;
    if |x| >= 4 {
      assert x[..4][1] == t[0];
    }
  }

  /** Dropping the first character keeps a text free of double hyphens. */
  lemma NoDoubleHyphenTail(s: string)
    requires s != [] && NoDoubleHyphen(s)
    ensures NoDoubleHyphen(s[1..])
    ensures |s| >= 2 && s[0] == '-' ==> s[1] != '-'
  {
    var t := s[1..];
    assert forall i :: 0 <= i < |t| ==> t[i] == s[i + 1];
  }

  /** The anchor is the last two replacements applied to `Dashify`. */
  lemma AnchorViaDashify(h: string)
    ensures Anchor(h) == CollapseQuadHyphens(TrimHyphens(Dashify(ToLower(h))))
  {
    MiddleStepsAreDashify(ToLower(h));
  }

  /** A heading of ASCII letters, digits and spaces gets the anchor made of
      its lower-cased words joined by single hyphens. */
  lemma AnchorOfPlainHeading(h: string)
    requires forall i :: 0 <= i < |h| ==> IsPlainChar(h[i])
    ensures Anchor(h) == Join(Words(ToLower(h)), "-")
  {
    var s := ToLower(h);
    assert IsLowerPlain(s);
    AnchorViaDashify(h);
    PlainSlug(s);
  }

  /** On lower-case plain text the last steps turn `Dashify` into the words
      joined by single hyphens. */
  lemma PlainSlug(s: string)
    requires IsLowerPlain(s)
    ensures CollapseQuadHyphens(TrimHyphens(Dashify(s))) == Join(Words(s), "-")
  {
    var t := if s != [] && s[0] == ' ' then SkipOthers(s[1..]) else s;
    var lead := if s != [] && s[0] == ' ' then "-" else "";
    PlainDashify(s, t, lead);
    WordsAreAlnum(s);
    JoinWordsShape(Words(s));
    TrimAndCollapse(lead, Join(Words(s), "-"), TrailingHyphen(t));
  }

  /** `Dashify` on lower-case plain text: an optional hyphen for leading
      spaces, the words joined by hyphens, an optional hyphen for trailing
      spaces. */
  lemma PlainDashify(s: string, t: string, lead: string)
    requires IsLowerPlain(s)
    requires t == if s != [] && s[0] == ' ' then SkipOthers(s[1..]) else s
    requires lead == if s != [] && s[0] == ' ' then "-" else ""
    ensures Dashify(s) == lead + Join(Words(s), "-") + TrailingHyphen(t)
    ensures TrailingHyphen(t) == "" || TrailingHyphen(t) == "-"
  {
    LeadingSpaces(s);
    DashifyWords(t);
    AppendAssoc(lead, Join(Words(t), "-"), TrailingHyphen(t));
  }

  /** The last two steps leave a slug with single hyphens once its optional
      end hyphens are gone. */
  lemma TrimAndCollapse(lead: string, j: string, tail: string)
    requires lead == "" || lead == "-"
    requires tail == "" || tail == "-"
    requires j != [] ==> j[0] != '-' && j[|j| - 1] != '-'
    requires NoDoubleHyphen(j)
    ensures CollapseQuadHyphens(TrimHyphens(lead + j + tail)) == j
  {
    TrimAround(lead, j, tail);
    CollapseQuadHyphensKeepsSingles(j);
  }

  /** A leading run of spaces turns into one hyphen and holds no word. */
  lemma LeadingSpaces(s: string)
    requires IsLowerPlain(s)
    ensures var t := if s != [] && s[0] == ' ' then SkipOthers(s[1..]) else s;
      var lead := if s != [] && s[0] == ' ' then "-" else "";
      && IsLowerPlain(t) && (t == [] || t[0] != ' ')
      && Dashify(s) == lead + Dashify(t) && Words(s) == Words(t)
  {
    if s != [] && s[0] == ' ' {
      var t := SkipOthers(s[1..]);
      SuffixIsLowerPlain(s, 1);
      SkipOthersIsSuffix(s[1..]);
      SuffixIsLowerPlain(s[1..], |s[1..]| - |t|);
      WordsSkipSpaces(s[1..]);
      DashifyOther(s);
    }
  }

  /** Trimming removes at most one hyphen at each end: an optional hyphen
      in front of `j` and one after it come off, and nothing more, so `j`
      may itself start or end with a hyphen when one is in front of it or
      after it. */
  lemma TrimAround(lead: string, j: string, tail: string)
    requires lead == "" || lead == "-"
    requires tail == "" || tail == "-"
    requires lead == "" && j != [] ==> j[0] != '-'
    requires tail == "" && j != [] ==> j[|j| - 1] != '-'
    ensures TrimHyphens(lead + j + tail) == j
  {
    var s := lead + j + tail;
    var t := if |s| > 0 && s[0] == '-' then s[1..] else s;
    if j == [] {
    } else {
      assert t == j + tail;
    }
  }

  // ---------------------------------------------------------------------
  // Idempotence, and where it stops.

  lemma {:induction false} DashifyWithoutAmpersand(s: string)
    requires '&' !in s
    ensures NoDoubleHyphen(Dashify(s))
    decreases |s|
  {
    if s != [] {
      if IsKept(s[0]) {
        DashifyWithoutAmpersand(s[1..]);
      } else {
        SkipOthersIsSuffix(s[1..]);
        DashifyWithoutAmpersand(SkipOthers(s[1..]));
      }
    }
  }

  /** Without an `&`, the anchor is a normal slug. */
  lemma AnchorWithoutAmpersandIsNormal(h: string)
    requires '&' !in h
    ensures IsNormalSlug(Anchor(h))
  {
    var s := ToLower(h);
    assert '&' !in s;
    MiddleStepsAreDashify(s);
    DashifyWithoutAmpersand(s);
    CollapseQuadHyphensKeepsSingles(TrimHyphens(Dashify(s)));
  }

  lemma {:induction false} DashifyKeepsSlug(s: string)
    requires IsSlugText(s) && NoDoubleHyphen(s) && (s != [] ==> s[|s| - 1] != '-')
    ensures Dashify(s) == s
  {
    if s != [] {
      var t := s[1..];
      SlugTail(s);
      DashifyKeepsSlug(t);
      if s[0] == '-' {
        SkipOthersOfKept(t);
        DashifyOther(s);
      } else {
        DashifyKeptHead(s);
      }
      assert [s[0]] + t == s;
    }
  }

  /** The rest of a slug that does not end in a hyphen is one too, and
      after a hyphen comes a kept character. */
  lemma SlugTail(s: string)
    requires IsSlugText(s) && NoDoubleHyphen(s) && s != [] && s[|s| - 1] != '-'
    ensures var t := s[1..];
      IsSlugText(t) && NoDoubleHyphen(t) && (t != [] ==> t[|t| - 1] != '-')
      && (s[0] == '-' ==> t != [] && IsKept(t[0]))
  {
    var t := s[1..];
    NoDoubleHyphenTail(s);
    assert forall i :: 0 <= i < |t| ==> t[i] == s[i + 1];
  }

  lemma DashifyKeptHead(s: string)
    requires s != [] && IsKept(s[0]) && s[0] != '&'
    ensures Dashify(s) == [s[0]] + Dashify(s[1..])
  {
  }

  /** A normal slug is its own anchor. */
  lemma AnchorOfNormalSlug(s: string)
    requires IsNormalSlug(s)
    ensures Anchor(s) == s
  {
    SlugIsLower(s);
    AnchorViaDashify(s);
    NormalSlugSteps(s);
  }

  lemma NormalSlugSteps(s: string)
    requires IsNormalSlug(s)
    ensures CollapseQuadHyphens(TrimHyphens(Dashify(s))) == s
  {
    DashifyKeepsSlug(s);
    TrimAndCollapse("", s, "");
    assert "" + s + "" == s;
  }

  lemma SlugIsLower(s: string)
    requires IsSlugText(s)
    ensures ToLower(s) == s
  {
  }

  /** So the anchor is idempotent on headings without `&`. */
  lemma AnchorIdempotentWithoutAmpersand(h: string)
    requires '&' !in h
    ensures Anchor(Anchor(h)) == Anchor(h)
  {
    AnchorWithoutAmpersandIsNormal(h);
    AnchorOfNormalSlug(Anchor(h));
  }

  // ---------------------------------------------------------------------
  // `&` becomes two hyphens, whether or not spaces surround it.

  predicate IsAlnumWord(w: string)
  {
    w != [] && forall i :: 0 <= i < |w| ==> IsAsciiUpper(w[i]) || IsAsciiLower(w[i]) || IsDigit(w[i])
  }

  /** A non-empty run of lower-case letters and digits. */
  predicate IsLowerWord(w: string)
  {
    w != [] && forall i :: 0 <= i < |w| ==> IsAsciiLower(w[i]) || IsDigit(w[i])
  }

  lemma LowerAlnumWord(w: string)
    requires IsAlnumWord(w)
    ensures IsLowerWord(ToLower(w))
  {
  }

  lemma {:induction false} CollapseQuadHyphensWordPrefix(w: string, s: string)
    requires '-' !in w
    ensures CollapseQuadHyphens(w + s) == w + CollapseQuadHyphens(s)
  {
    if w != [] {
      var t := w[1..] + s;
      var c := CollapseQuadHyphens(s);
      assert w + s == [w[0]] + t;
      CollapseQuadHyphensCons(w[0], t);
      CollapseQuadHyphensWordPrefix(w[1..], s);
      AppendAssoc([w[0]], w[1..], c);
      assert [w[0]] + w[1..] == w;
    } else {
      assert w + s == s;
    }
  }

  lemma CollapseQuadHyphensCons(c: char, t: string)
    requires c != '-'
    ensures CollapseQuadHyphens([c] + t) == [c] + CollapseQuadHyphens(t)
  {
    var x := [c] + t;
    assert x[0] == c;
    assert x[1..] == t;
  }

  lemma DashifyLowerWord(w: string)
    requires IsLowerWord(w)
    ensures Dashify(w) == w
  {
    DashifyWordPrefix(w, "");
    assert w + "" == w;
  }

  /** `&` between two words becomes `--`. */
  lemma DashifyAmpersand(la: string, lb: string)
    requires IsLowerWord(la) && IsLowerWord(lb)
    ensures Dashify(la + ("&" + lb)) == la + ("--" + lb)
  {
    DashifyWordPrefix(la, "&" + lb);
    assert ("&" + lb)[1..] == lb;
    DashifyLowerWord(lb);
  }

  /** ` & ` between two words becomes `----`: one hyphen for the space
      before, two for the `&` and one for the space after. */
  lemma DashifySpacedAmpersand(la: string, lb: string)
    requires IsLowerWord(la) && IsLowerWord(lb)
    ensures Dashify(la + (" & " + lb)) == la + ("----" + lb)
  {
    DashifyWordPrefix(la, " & " + lb);
    DashifySpacedTail(lb);
  }

  lemma DashifySpacedTail(lb: string)
    requires IsLowerWord(lb)
    ensures Dashify(" & " + lb) == "----" + lb
  {
    var t := ['&'] + ([' '] + lb);
    SpacedAmpersandShape(lb);
    DashifyOtherCons(' ', t);
    SkipOthersOfKept(t);
    DashifyAmpersandSpaceWord(lb);
  }

  lemma SpacedAmpersandShape(lb: string)
    ensures " & " + lb == [' '] + (['&'] + ([' '] + lb))
    ensures "-" + ("---" + lb) == "----" + lb
  {
  }

  lemma DashifyAmpersandSpaceWord(lb: string)
    requires IsLowerWord(lb)
    ensures Dashify(['&'] + ([' '] + lb)) == "---" + lb
  {
    DashifyAmpersandCons([' '] + lb);
    DashifySpaceWord(lb);
    assert "--" + ("-" + lb) == "---" + lb;
  }

  lemma DashifySpaceWord(lb: string)
    requires IsLowerWord(lb)
    ensures Dashify([' '] + lb) == "-" + lb
  {
    DashifyOtherCons(' ', lb);
    SkipOthersOfKept(lb);
    DashifyLowerWord(lb);
  }

  /** One character outside `[a-z0-9&]` starts a run that becomes `-`. */
  lemma DashifyOtherCons(c: char, t: string)
    requires !IsKept(c)
    ensures Dashify([c] + t) == "-" + Dashify(SkipOthers(t))
  {
    assert ([c] + t)[1..] == t;
  }

  lemma DashifyAmpersandCons(t: string)
    ensures Dashify(['&'] + t) == "--" + Dashify(t)
  {
    assert (['&'] + t)[1..] == t;
  }

  lemma SkipOthersOfKept(t: string)
    requires t != [] && IsKept(t[0])
    ensures SkipOthers(t) == t
  {
  }

  lemma SkipOthersCons(c: char, t: string)
    requires !IsKept(c)
    ensures SkipOthers([c] + t) == SkipOthers(t)
  {
    assert ([c] + t)[1..] == t;
  }

  /** Trimming leaves a text that neither starts nor ends with a hyphen. */
  lemma TrimKeeps(s: string)
    requires s != [] && s[0] != '-' && s[|s| - 1] != '-'
    ensures TrimHyphens(s) == s
  {
  }

  lemma CollapseDouble(la: string, lb: string)
    requires IsLowerWord(la) && IsLowerWord(lb)
    ensures CollapseQuadHyphens(la + ("--" + lb)) == la + ("--" + lb)
  {
    CollapseQuadHyphensWordPrefix(la, "--" + lb);
    CollapseTwoHyphensWord(lb);
  }

  lemma CollapseTwoHyphensWord(lb: string)
    requires IsLowerWord(lb)
    ensures CollapseQuadHyphens("--" + lb) == "--" + lb
  {
    var x := "--" + lb;
    assert x[2] == lb[0];
    assert x[1..] == "-" + lb;
    CollapseHyphenWord(lb);
  }

  lemma CollapseHyphenWord(lb: string)
    requires IsLowerWord(lb)
    ensures CollapseQuadHyphens("-" + lb) == "-" + lb
  {
    var y := "-" + lb;
    assert !(|y| >= 4 && y[..4] == "----") by {
      assert y[1] == lb[0];
    }
    assert y[1..] == lb;
    CollapseQuadHyphensWordPrefix(lb, "");
    assert lb + "" == lb;
  }

  lemma CollapseQuad(la: string, lb: string)
    requires IsLowerWord(la) && IsLowerWord(lb)
    ensures CollapseQuadHyphens(la + ("----" + lb)) == la + ("--" + lb)
  {
    CollapseQuadHyphensWordPrefix(la, "----" + lb);
    var x := "----" + lb;
    assert x[..4] == "----" && x[4..] == lb;
    CollapseQuadHyphensWordPrefix(lb, "");
    assert lb + "" == lb;
  }

  /** The last two steps on both forms give `a--b`. */
  lemma AmpersandSteps(la: string, lb: string)
    requires IsLowerWord(la) && IsLowerWord(lb)
    ensures CollapseQuadHyphens(TrimHyphens(Dashify(la + ("&" + lb)))) == la + ("--" + lb)
    ensures CollapseQuadHyphens(TrimHyphens(Dashify(la + (" & " + lb)))) == la + ("--" + lb)
  {
    DashifyAmpersand(la, lb);
    TrimKeeps(la + ("--" + lb));
    CollapseDouble(la, lb);
    DashifySpacedAmpersand(la, lb);
    TrimKeeps(la + ("----" + lb));
    CollapseQuad(la, lb);
  }

  lemma ToLowerAround(a: string, m: string, b: string)
    ensures ToLower(a + m + b) == ToLower(a) + (ToLower(m) + ToLower(b))
  {
    ToLowerAppend(a + m, b);
    ToLowerAppend(a, m);
  }

  /** The anchor of a heading from what the last steps make of its
      lower-cased text. */
  lemma AnchorFromLower(h: string, s: string, r: string)
    requires ToLower(h) == s
    requires CollapseQuadHyphens(TrimHyphens(Dashify(s))) == r
    ensures Anchor(h) == r
  {
    AnchorViaDashify(h);
  }

  /** `a & b` and `a&b` both give `a--b`: the last replacement repairs the
      four hyphens that the spaced form produces. */
  lemma AnchorOfAmpersand(a: string, b: string)
    requires IsAlnumWord(a) && IsAlnumWord(b)
    ensures Anchor(a + "&" + b) == ToLower(a) + "--" + ToLower(b)
    ensures Anchor(a + " & " + b) == ToLower(a) + "--" + ToLower(b)
  {
    var la, lb := ToLower(a), ToLower(b);
    LowerAlnumWord(a);
    LowerAlnumWord(b);
    AmpersandSteps(la, lb);
    assert la + ("--" + lb) == la + "--" + lb;
    LowerAroundAmpersand(a, b);
    AnchorFromLower(a + "&" + b, la + ("&" + lb), la + "--" + lb);
    AnchorFromLower(a + " & " + b, la + (" & " + lb), la + "--" + lb);
  }

  lemma LowerAroundAmpersand(a: string, b: string)
    ensures ToLower(a + "&" + b) == ToLower(a) + ("&" + ToLower(b))
    ensures ToLower(a + " & " + b) == ToLower(a) + (" & " + ToLower(b))
  {
    ToLowerAround(a, "&", b);
    assert ToLower("&") == "&";
    ToLowerAround(a, " & ", b);
    assert ToLower(" & ") == " & ";
  }

  /** Applied to an anchor that holds `--`, the anchor collapses it to one
      hyphen: `Q&A` gives `q--a`, whose own anchor is `q-a`. The anchor is
      not idempotent once an `&` was present. */
  lemma AnchorOfAmpersandAnchor(a: string, b: string)
    requires IsAlnumWord(a) && IsAlnumWord(b)
    ensures Anchor(a + "&" + b) == ToLower(a) + "--" + ToLower(b)
    ensures Anchor(Anchor(a + "&" + b)) == ToLower(a) + "-" + ToLower(b)
  {
    var la, lb := ToLower(a), ToLower(b);
    AnchorOfAmpersand(a, b);
    LowerAlnumWord(a);
    LowerAlnumWord(b);
    DoubleHyphenSteps(la, lb);
    SlugIsLower(la + "--" + lb);
    AnchorFromLower(la + "--" + lb, la + "--" + lb, la + "-" + lb);
  }

  /** The last steps fold `--` between two words into one hyphen. */
  lemma DoubleHyphenSteps(la: string, lb: string)
    requires IsLowerWord(la) && IsLowerWord(lb)
    ensures IsSlugText(la + "--" + lb)
    ensures CollapseQuadHyphens(TrimHyphens(Dashify(la + "--" + lb))) == la + "-" + lb
  {
    AppendAssoc(la, "--", lb);
    AppendAssoc(la, "-", lb);
    DoubleHyphenBetween(la, lb);
  }

  lemma DoubleHyphenBetween(la: string, lb: string)
    requires IsLowerWord(la) && IsLowerWord(lb)
    ensures IsSlugText(la + ("--" + lb))
    ensures CollapseQuadHyphens(TrimHyphens(Dashify(la + ("--" + lb)))) == la + ("-" + lb)
  {
    DashifyBetween(la, lb);
    TrimBetween(la, lb);
    CollapseBetween(la, lb);
    SlugBetween(la, lb);
  }

  lemma SlugBetween(la: string, lb: string)
    requires IsLowerWord(la) && IsLowerWord(lb)
    ensures IsSlugText(la + ("--" + lb))
  {
    var x := la + ("--" + lb);
    forall i | 0 <= i < |x|
      ensures IsSlugChar(x[i])
    {
      if i < |la| {
        assert x[i] == la[i];
      } else if i >= |la| + 2 {
        assert x[i] == lb[i - |la| - 2];
      }
    }
  }

  lemma DashifyBetween(la: string, lb: string)
    requires IsLowerWord(la) && IsLowerWord(lb)
    ensures Dashify(la + ("--" + lb)) == la + ("-" + lb)
  {
    DashifyWordPrefix(la, "--" + lb);
    DashifyDoubleHyphen(lb);
  }

  lemma TrimBetween(la: string, lb: string)
    requires IsLowerWord(la) && IsLowerWord(lb)
    ensures TrimHyphens(la + ("-" + lb)) == la + ("-" + lb)
  {
    var y := la + ("-" + lb);
    assert y[0] == la[0] && y[|y| - 1] == lb[|lb| - 1];
    TrimKeeps(y);
  }

  lemma CollapseBetween(la: string, lb: string)
    requires IsLowerWord(la) && IsLowerWord(lb)
    ensures CollapseQuadHyphens(la + ("-" + lb)) == la + ("-" + lb)
  {
    CollapseQuadHyphensWordPrefix(la, "-" + lb);
    CollapseHyphenWord(lb);
  }


  lemma DashifyDoubleHyphen(lb: string)
    requires IsLowerWord(lb)
    ensures Dashify("--" + lb) == "-" + lb
  {
    assert "--" + lb == ['-'] + (['-'] + lb);
    DashifyOtherCons('-', ['-'] + lb);
    SkipOthersCons('-', lb);
    SkipOthersOfKept(lb);
    DashifyLowerWord(lb);
  }

}
