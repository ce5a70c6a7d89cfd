/** What each replacement of the anchor chain keeps, and what it does to a
    text cut in two. A text splits into maximal runs; the laws for a cut
    after a kept character, for a maximal run followed by more text and for
    a text of kept characters only determine each replacement run by run.
    The filter laws say that the letters and digits of a heading survive
    into its anchor, in order. */
module AnchorLaws {
  import opened Text
  import opened Anchor

  /** The letters and digits an anchor keeps. */
  predicate IsLowerAlnum(c: char) { IsAsciiLower(c) || IsDigit(c) }

  /** A text with no character that `p` selects filters to nothing. */
  lemma {:induction false} FilterNone(p: char -> bool, s: string)
    requires forall i :: 0 <= i < |s| ==> !p(s[i])
    ensures Filter(p, s) == ""
    decreases |s|
  {
    if s != [] {
      FilterNone(p, s[1..]);
    }
  }

  // ---------------------------------------------------------------------
  // `[^a-z0-9&]+` becomes `_`.

  /** Dropping a run outside `[a-z0-9&]` drops nothing `p` selects, when
      `p` selects only characters of that class. */
  lemma {:induction false} SkipOthersFilter(p: char -> bool, s: string)
    requires forall c :: p(c) ==> IsKept(c)
    ensures Filter(p, SkipOthers(s)) == Filter(p, s)
    decreases |s|
  {
    if s != [] && !IsKept(s[0]) {
      SkipOthersFilter(p, s[1..]);
    }
  }

  /** The characters of `[a-z0-9&]` survive the first replacement, in
      order (take `p := IsKept`). */
  lemma {:induction false} ReplaceOthersFilter(p: char -> bool, s: string)
    requires forall c :: p(c) ==> IsKept(c)
    ensures Filter(p, ReplaceOthers(s)) == Filter(p, s)
    decreases |s|
  {
    if s != [] {
      if IsKept(s[0]) {
        ReplaceOthersFilter(p, s[1..]);
        FilterCons(p, s[0], ReplaceOthers(s[1..]));
      } else {
        var t := SkipOthers(s[1..]);
        ReplaceOthersFilter(p, t);
        SkipOthersFilter(p, s[1..]);
        FilterCons(p, '_', ReplaceOthers(t));
      }
    }
  }

  /** A run outside the class cannot reach across a kept character. */
  lemma {:induction false} SkipOthersAppend(u: string, v: string)
    requires u != [] && IsKept(u[|u| - 1])
    ensures SkipOthers(u + v) == SkipOthers(u) + v
    ensures SkipOthers(u) != [] && SkipOthers(u)[|SkipOthers(u)| - 1] == u[|u| - 1]
    decreases |u|
  {
    assert (u + v)[0] == u[0];
    if !IsKept(u[0]) {
      assert (u + v)[1..] == u[1..] + v;
      SkipOthersAppend(u[1..], v);
    }
  }

  /** Cut after a kept character, a text is replaced part by part. */
  lemma {:induction false} ReplaceOthersAppend(u: string, v: string)
    requires u == [] || IsKept(u[|u| - 1])
    ensures ReplaceOthers(u + v) == ReplaceOthers(u) + ReplaceOthers(v)
    decreases |u|
  {
    if u == [] {
      assert u + v == v;
    } else {
      assert (u + v)[0] == u[0];
      assert (u + v)[1..] == u[1..] + v;
      if IsKept(u[0]) {
        ReplaceOthersAppend(u[1..], v);
        AppendAssoc([u[0]], ReplaceOthers(u[1..]), ReplaceOthers(v));
      } else {
        var t := SkipOthers(u[1..]);
        SkipOthersAppend(u[1..], v);
        ReplaceOthersAppend(t, v);
        AppendAssoc("_", ReplaceOthers(t), ReplaceOthers(v));
      }
    }
  }

  lemma {:induction false} SkipOthersOfRun(s: string)
    requires forall i :: 0 <= i < |s| ==> !IsKept(s[i])
    ensures SkipOthers(s) == []
    decreases |s|
  {
    if s != [] {
      SkipOthersOfRun(s[1..]);
    }
  }

  /** A whole run outside the class becomes one underscore. */
  lemma ReplaceOthersRun(s: string)
    requires s != [] && forall i :: 0 <= i < |s| ==> !IsKept(s[i])
    ensures ReplaceOthers(s) == "_"
  {
    SkipOthersOfRun(s[1..]);
  }

  /** A run outside the class is skipped up to the kept character that
      ends it. */
  lemma {:induction false} SkipOthersRunThen(r: string, v: string)
    requires forall i :: 0 <= i < |r| ==> !IsKept(r[i])
    requires v == [] || IsKept(v[0])
    ensures SkipOthers(r + v) == v
    decreases |r|
  {
    if r == [] {
      assert r + v == v;
    } else {
      assert (r + v)[0] == r[0];
      assert (r + v)[1..] == r[1..] + v;
      SkipOthersRunThen(r[1..], v);
    }
  }

  /** A maximal run outside the class, followed by more text, becomes one
      underscore in front of what follows. */
  lemma ReplaceOthersRunThen(r: string, v: string)
    requires r != [] && forall i :: 0 <= i < |r| ==> !IsKept(r[i])
    requires v == [] || IsKept(v[0])
    ensures ReplaceOthers(r + v) == "_" + ReplaceOthers(v)
  {
    assert (r + v)[0] == r[0];
    assert (r + v)[1..] == r[1..] + v;
    SkipOthersRunThen(r[1..], v);
  }

  /** A text of kept characters only is left as it is. */
  lemma {:induction false} ReplaceOthersOfKept(s: string)
    requires forall i :: 0 <= i < |s| ==> IsKept(s[i])
    ensures ReplaceOthers(s) == s
    decreases |s|
  {
    if s != [] {
      ReplaceOthersOfKept(s[1..]);
      assert [s[0]] + s[1..] == s;
    }
  }

  // ---------------------------------------------------------------------
  // `&` becomes `--`.

  /** Each `&` becomes `--` and every other character stays: the text is
      expanded part by part. */
  lemma {:induction false} ExpandAmpersandsAppend(u: string, v: string)
    ensures ExpandAmpersands(u + v) == ExpandAmpersands(u) + ExpandAmpersands(v)
    decreases |u|
  {
    if u == [] {
      assert u + v == v;
    } else {
      assert u + v == [u[0]] + (u[1..] + v);
      ExpandAmpersandsCons(u[0], u[1..] + v);
      ExpandAmpersandsAppend(u[1..], v);
      AppendAssoc(if u[0] == '&' then "--" else [u[0]], ExpandAmpersands(u[1..]), ExpandAmpersands(v));
    }
  }

  /** One character: `&` gives `--`, any other itself. */
  lemma ExpandAmpersandsOne(c: char)
    ensures ExpandAmpersands([c]) == if c == '&' then "--" else [c]
  {
    ExpandAmpersandsCons(c, []);
  }

  /** The text grows by one character per `&`. */
  lemma {:induction false} ExpandAmpersandsLength(s: string)
    ensures |ExpandAmpersands(s)| == |s| + Count('&', s)
    decreases |s|
  {
    if s != [] {
      ExpandAmpersandsLength(s[1..]);
    }
  }

  /** The characters other than `&` and `-` survive, in order. */
  lemma {:induction false} ExpandAmpersandsFilter(p: char -> bool, s: string)
    requires !p('&') && !p('-')
    ensures Filter(p, ExpandAmpersands(s)) == Filter(p, s)
    decreases |s|
  {
    if s != [] {
      var x := if s[0] == '&' then "--" else [s[0]];
      ExpandAmpersandsFilter(p, s[1..]);
      FilterAppend(p, x, ExpandAmpersands(s[1..]));
      if s[0] == '&' {
        FilterNone(p, x);
      } else {
        FilterCons(p, s[0], []);
      }
    }
  }

  /** A text without `&` is left as it is. */
  lemma {:induction false} ExpandAmpersandsWithout(s: string)
    requires '&' !in s
    ensures ExpandAmpersands(s) == s
    decreases |s|
  {
    if s != [] {
      ExpandAmpersandsWithout(s[1..]);
      assert [s[0]] + s[1..] == s;
    }
  }

  // ---------------------------------------------------------------------
  // `_+` becomes `-`.

  /** Only a leading run of underscores is dropped. */
  lemma {:induction false} SkipUnderscoresIsSuffix(s: string)
    ensures var r := SkipUnderscores(s);
      r == s[|s| - |r|..] && forall i :: 0 <= i < |s| - |r| ==> s[i] == '_'
    decreases |s|
  {
    if s != [] && s[0] == '_' {
      SkipUnderscoresIsSuffix(s[1..]);
    }
  }

  /** A run of underscores cannot reach across another character. */
  lemma {:induction false} SkipUnderscoresAppend(u: string, v: string)
    requires u != [] && u[|u| - 1] != '_'
    ensures SkipUnderscores(u + v) == SkipUnderscores(u) + v
    ensures SkipUnderscores(u) != [] && SkipUnderscores(u)[|SkipUnderscores(u)| - 1] == u[|u| - 1]
    decreases |u|
  {
    assert (u + v)[0] == u[0];
    if u[0] == '_' {
      assert (u + v)[1..] == u[1..] + v;
      SkipUnderscoresAppend(u[1..], v);
    }
  }

  /** Cut after a character other than `_`, a text is collapsed part by
      part. */
  lemma {:induction false} CollapseUnderscoresAppend(u: string, v: string)
    requires u == [] || u[|u| - 1] != '_'
    ensures CollapseUnderscores(u + v) == CollapseUnderscores(u) + CollapseUnderscores(v)
    decreases |u|
  {
    if u == [] {
      assert u + v == v;
    } else {
      assert (u + v)[0] == u[0];
      assert (u + v)[1..] == u[1..] + v;
      if u[0] != '_' {
        CollapseUnderscoresAppend(u[1..], v);
        AppendAssoc([u[0]], CollapseUnderscores(u[1..]), CollapseUnderscores(v));
      } else {
        var t := SkipUnderscores(u[1..]);
        SkipUnderscoresAppend(u[1..], v);
        CollapseUnderscoresAppend(t, v);
        AppendAssoc("-", CollapseUnderscores(t), CollapseUnderscores(v));
      }
    }
  }

  lemma {:induction false} SkipUnderscoresOfRun(s: string)
    requires forall i :: 0 <= i < |s| ==> s[i] == '_'
    ensures SkipUnderscores(s) == []
    decreases |s|
  {
    if s != [] {
      SkipUnderscoresOfRun(s[1..]);
    }
  }

  /** A whole run of underscores becomes one hyphen. */
  lemma CollapseUnderscoresRun(s: string)
    requires s != [] && forall i :: 0 <= i < |s| ==> s[i] == '_'
    ensures CollapseUnderscores(s) == "-"
  {
    SkipUnderscoresOfRun(s[1..]);
  }

  /** A run of underscores is skipped up to the character that ends it. */
  lemma {:induction false} SkipUnderscoresRunThen(r: string, v: string)
    requires forall i :: 0 <= i < |r| ==> r[i] == '_'
    requires v == [] || v[0] != '_'
    ensures SkipUnderscores(r + v) == v
    decreases |r|
  {
    if r == [] {
      assert r + v == v;
    } else {
      assert (r + v)[0] == r[0];
      assert (r + v)[1..] == r[1..] + v;
      SkipUnderscoresRunThen(r[1..], v);
    }
  }

  /** A maximal run of underscores, followed by more text, becomes one
      hyphen in front of what follows. */
  lemma CollapseUnderscoresRunThen(r: string, v: string)
    requires r != [] && forall i :: 0 <= i < |r| ==> r[i] == '_'
    requires v == [] || v[0] != '_'
    ensures CollapseUnderscores(r + v) == "-" + CollapseUnderscores(v)
  {
    assert (r + v)[0] == r[0];
    assert (r + v)[1..] == r[1..] + v;
    SkipUnderscoresRunThen(r[1..], v);
  }

  /** A text without `_` is left as it is. */
  lemma {:induction false} CollapseUnderscoresWithout(s: string)
    requires '_' !in s
    ensures CollapseUnderscores(s) == s
    decreases |s|
  {
    if s != [] {
      CollapseUnderscoresWithout(s[1..]);
      assert [s[0]] + s[1..] == s;
    }
  }

  lemma {:induction false} SkipUnderscoresFilter(p: char -> bool, s: string)
    requires !p('_')
    ensures Filter(p, SkipUnderscores(s)) == Filter(p, s)
    decreases |s|
  {
    if s != [] && s[0] == '_' {
      SkipUnderscoresFilter(p, s[1..]);
    }
  }

  /** The characters other than `_` and `-` survive, in order. */
  lemma {:induction false} CollapseUnderscoresFilter(p: char -> bool, s: string)
    requires !p('_') && !p('-')
    ensures Filter(p, CollapseUnderscores(s)) == Filter(p, s)
    decreases |s|
  {
    if s != [] {
      if s[0] == '_' {
        var t := SkipUnderscores(s[1..]);
        CollapseUnderscoresFilter(p, t);
        SkipUnderscoresFilter(p, s[1..]);
        FilterCons(p, '-', CollapseUnderscores(t));
      } else {
        CollapseUnderscoresFilter(p, s[1..]);
        FilterCons(p, s[0], CollapseUnderscores(s[1..]));
      }
    }
  }

  // ---------------------------------------------------------------------
  // `(^-|-$)` is removed.

  /** Trimming removes hyphens only. */
  lemma TrimHyphensFilter(p: char -> bool, s: string)
    requires !p('-')
    ensures Filter(p, TrimHyphens(s)) == Filter(p, s)
  {
    var t := if |s| > 0 && s[0] == '-' then s[1..] else s;
    if |s| > 0 && s[0] == '-' {
      assert s == [s[0]] + t;
      FilterCons(p, '-', t);
    }
    if |t| > 0 && t[|t| - 1] == '-' {
      var init := t[..|t| - 1];
      assert t == init + ['-'];
      FilterAppend(p, init, ['-']);
      FilterCons(p, '-', []);
    }
  }

  // ---------------------------------------------------------------------
  // `----` becomes `--`.

  /** Four hyphens at the front become two. */
  lemma CollapseQuadHyphensFour(x: string)
    ensures CollapseQuadHyphens("----" + x) == "--" + CollapseQuadHyphens(x)
  {
    var s := "----" + x;
    assert s[..4] == "----" && s[4..] == x;
  }

  /** Cut after a character other than `-`, a text is collapsed part by
      part: no run of four hyphens reaches across the cut. */
  lemma {:induction false} CollapseQuadHyphensAppend(u: string, v: string)
    requires u == [] || u[|u| - 1] != '-'
    ensures CollapseQuadHyphens(u + v) == CollapseQuadHyphens(u) + CollapseQuadHyphens(v)
    decreases |u|
  {
    if u == [] {
      assert u + v == v;
    } else if |u| >= 4 && u[..4] == "----" {
      assert (u + v)[..4] == u[..4];
      assert (u + v)[4..] == u[4..] + v;
      CollapseQuadHyphensAppend(u[4..], v);
      AppendAssoc("--", CollapseQuadHyphens(u[4..]), CollapseQuadHyphens(v));
    } else {
      assert !(|u + v| >= 4 && (u + v)[..4] == "----") by {
        if |u| >= 4 {
          assert (u + v)[..4] == u[..4];
        } else if |u + v| >= 4 {
          assert (u + v)[..4][|u| - 1] == u[|u| - 1];
        }
      }
      assert (u + v)[0] == u[0];
      assert (u + v)[1..] == u[1..] + v;
      CollapseQuadHyphensAppend(u[1..], v);
      AppendAssoc([u[0]], CollapseQuadHyphens(u[1..]), CollapseQuadHyphens(v));
    }
  }

  /** An occurrence in the tail is an occurrence one place on. */
  lemma OccursInTail(s: string, pat: string, j: int)
    requires s != [] && OccursAt(s[1..], pat, j)
    ensures OccursAt(s, pat, j + 1)
  {
    assert s[1..][j..j + |pat|] == s[j + 1..j + 1 + |pat|];
  }

  /** A text in which `----` does not occur is left as it is. */
  lemma {:induction false} CollapseQuadHyphensWithoutQuad(s: string)
    requires forall j :: !OccursAt(s, "----", j)
    ensures CollapseQuadHyphens(s) == s
    decreases |s|
  {
    if s != [] {
      assert !OccursAt(s, "----", 0);
      if |s| >= 4 {
        assert s[0..4] == s[..4];
      }
      forall j | OccursAt(s[1..], "----", j)
        ensures false
      {
        OccursInTail(s, "----", j);
      }
      CollapseQuadHyphensWithoutQuad(s[1..]);
      assert [s[0]] + s[1..] == s;
    }
  }

  /** The characters other than `-` survive, in order. */
  lemma {:induction false} CollapseQuadHyphensFilter(p: char -> bool, s: string)
    requires !p('-')
    ensures Filter(p, CollapseQuadHyphens(s)) == Filter(p, s)
    decreases |s|
  {
    if |s| >= 4 && s[..4] == "----" {
      CollapseQuadHyphensFilter(p, s[4..]);
      FilterAppend(p, "--", CollapseQuadHyphens(s[4..]));
      FilterNone(p, "--");
      assert s == s[..4] + s[4..];
      FilterAppend(p, s[..4], s[4..]);
      FilterNone(p, s[..4]);
    } else if s != [] {
      CollapseQuadHyphensFilter(p, s[1..]);
      FilterCons(p, s[0], CollapseQuadHyphens(s[1..]));
    }
  }

  // ---------------------------------------------------------------------
  // The whole chain.

  /** The letters and digits of the lower-cased text survive the middle
      steps, in order. */
  lemma DashifyFilter(s: string)
    ensures Filter(IsLowerAlnum, Dashify(s)) == Filter(IsLowerAlnum, s)
  {
    MiddleStepsAreDashify(s);
    ReplaceOthersFilter(IsLowerAlnum, s);
    var r := ReplaceOthers(s);
    ExpandAmpersandsFilter(IsLowerAlnum, r);
    CollapseUnderscoresFilter(IsLowerAlnum, ExpandAmpersands(r));
  }

  /** The anchor holds exactly the letters and digits of the lower-cased
      heading, in their order; only hyphens are added or removed. */
  lemma AnchorFilter(h: string)
    ensures Filter(IsLowerAlnum, Anchor.Anchor(h)) == Filter(IsLowerAlnum, ToLower(h))
  {
    var d := Dashify(ToLower(h));
    AnchorViaDashify(h);
    DashifyFilter(ToLower(h));
    TrimHyphensFilter(IsLowerAlnum, d);
    CollapseQuadHyphensFilter(IsLowerAlnum, TrimHyphens(d));
  }

  // ---------------------------------------------------------------------
  // `&` between two plain headings.

  /** Cut after a kept character, `Dashify` works part by part. */
  lemma {:induction false} DashifyAppend(u: string, v: string)
    requires u == [] || IsKept(u[|u| - 1])
    ensures Dashify(u + v) == Dashify(u) + Dashify(v)
    decreases |u|
  {
    if u == [] {
      assert u + v == v;
    } else {
      assert (u + v)[0] == u[0];
      assert (u + v)[1..] == u[1..] + v;
      if u[0] == '&' {
        DashifyAppend(u[1..], v);
        AppendAssoc("--", Dashify(u[1..]), Dashify(v));
      } else if IsKept(u[0]) {
        DashifyAppend(u[1..], v);
        AppendAssoc([u[0]], Dashify(u[1..]), Dashify(v));
      } else {
        var t := SkipOthers(u[1..]);
        SkipOthersAppend(u[1..], v);
        DashifyAppend(t, v);
        AppendAssoc("-", Dashify(t), Dashify(v));
      }
    }
  }

  /** ` & ` before a kept character gives four hyphens. */
  lemma DashifySpacedCons(x: string)
    requires x != [] && IsKept(x[0])
    ensures Dashify(" & " + x) == "----" + Dashify(x)
  {
    var t := ['&'] + ([' '] + x);
    SpacedShape(x);
    DashifySpaceThen(t);
    DashifyAmpersandSpaceThen(x);
    FourHyphens(Dashify(x));
  }

  lemma SpacedShape(x: string)
    ensures " & " + x == [' '] + (['&'] + ([' '] + x))
  {
  }

  lemma DashifyAmpersandSpaceThen(x: string)
    requires x != [] && IsKept(x[0])
    ensures Dashify(['&'] + ([' '] + x)) == "---" + Dashify(x)
  {
    DashifyAmpersandCons([' '] + x);
    DashifySpaceThen(x);
    ThreeHyphens(Dashify(x));
  }

  lemma DashifySpaceThen(x: string)
    requires x != [] && IsKept(x[0])
    ensures Dashify([' '] + x) == "-" + Dashify(x)
  {
    DashifyOtherCons(' ', x);
    SkipOthersOfKept(x);
  }

  lemma ThreeHyphens(d: string)
    ensures "--" + ("-" + d) == "---" + d
  {
  }

  lemma FourHyphens(d: string)
    ensures "-" + ("---" + d) == "----" + d
  {
  }

  /** The characters of a heading with no `&` or other punctuation. */
  predicate IsPlain(s: string) { forall i :: 0 <= i < |s| ==> IsPlainChar(s[i]) }

  /** `Dashify` on a lower-case plain text that ends in a letter or digit:
      an optional hyphen for leading spaces, then the words joined by
      single hyphens. */
  lemma PlainEndsInWord(s: string)
    requires IsLowerPlain(s) && s != [] && s[|s| - 1] != ' '
    ensures Dashify(s) == (if s[0] == ' ' then "-" else "") + Join(Words(s), "-")
    ensures var j := Join(Words(s), "-");
      j != [] && NoDoubleHyphen(j) && j[0] != '-' && j[|j| - 1] != '-'
  {
    var t := if s[0] == ' ' then SkipOthers(s[1..]) else s;
    var lead := if s[0] == ' ' then "-" else "";
    if s[0] == ' ' {
      SkipOthersAppend(s[1..], []);
      assert s[1..] + [] == s[1..];
    }
    assert t != [] && t[|t| - 1] == s[|s| - 1];
    PlainDashify(s, t, lead);
    LeadingSpaces(s);
    WordsOfNonEmpty(t);
    WordsAreAlnum(s);
    JoinWordsShape(Words(s));
  }

  /** `Dashify` on a lower-case plain text that starts with a letter or
      digit: the words joined by single hyphens, then an optional hyphen
      for trailing spaces. */
  lemma PlainStartsWithWord(s: string)
    requires IsLowerPlain(s) && s != [] && s[0] != ' '
    ensures Dashify(s) == Join(Words(s), "-") + TrailingHyphen(s)
    ensures TrailingHyphen(s) == "" || TrailingHyphen(s) == "-"
    ensures var j := Join(Words(s), "-");
      j != [] && NoDoubleHyphen(j) && j[0] != '-' && j[|j| - 1] != '-'
  {
    DashifyWords(s);
    WordsOfNonEmpty(s);
    WordsAreAlnum(s);
    JoinWordsShape(Words(s));
  }

  /** Regrouping the five parts of a dashified `p & q`. */
  lemma AroundShape(lead: string, jp: string, m: string, jq: string, tail: string)
    ensures (lead + jp) + (m + (jq + tail)) == lead + (jp + (m + jq)) + tail
  {
  }

  /** The last two steps on `jp`, a hyphen run `m`, and `jq`, where the
      run is `--` or `----`. */
  lemma CollapseAround(jp: string, m: string, jq: string)
    requires m == "--" || m == "----"
    requires jp != [] && NoDoubleHyphen(jp) && jp[|jp| - 1] != '-'
    requires jq != [] && NoDoubleHyphen(jq) && jq[0] != '-'
    ensures CollapseQuadHyphens(jp + (m + jq)) == jp + ("--" + jq)
  {
    CollapseQuadHyphensAppend(jp, m + jq);
    CollapseQuadHyphensKeepsSingles(jp);
    CollapseQuadHyphensKeepsSingles(jq);
    if m == "--" {
      CollapseTwoThen(jq);
    } else {
      CollapseQuadHyphensFour(jq);
    }
  }

  /** Two hyphens before a character other than `-` are kept. */
  lemma CollapseTwoThen(x: string)
    requires x != [] && x[0] != '-'
    ensures CollapseQuadHyphens("--" + x) == "--" + CollapseQuadHyphens(x)
  {
    var y := ['-'] + x;
    assert "--" + x == ['-'] + y;
    CollapseQuadHyphensSingle(x);
    CollapseTwoHead(x);
  }

  lemma CollapseTwoHead(x: string)
    requires x != [] && x[0] != '-'
    ensures CollapseQuadHyphens(['-'] + (['-'] + x)) == ['-'] + CollapseQuadHyphens(['-'] + x)
  {
    var z := ['-'] + (['-'] + x);
    if |z| >= 4 {
      assert z[..4][2] == x[0];
    }
    assert z[1..] == ['-'] + x;
  }

  /** Trimming and collapsing `lead`, `jp`, a hyphen run, `jq` and `tail`
      leaves `jp--jq`. */
  lemma StepsAround(lead: string, jp: string, m: string, jq: string, tail: string)
    requires lead == "" || lead == "-"
    requires tail == "" || tail == "-"
    requires m == "--" || m == "----"
    requires jp != [] && NoDoubleHyphen(jp) && jp[0] != '-' && jp[|jp| - 1] != '-'
    requires jq != [] && NoDoubleHyphen(jq) && jq[0] != '-' && jq[|jq| - 1] != '-'
    ensures CollapseQuadHyphens(TrimHyphens((lead + jp) + (m + (jq + tail)))) == jp + ("--" + jq)
  {
    var j := jp + (m + jq);
    AroundShape(lead, jp, m, jq, tail);
    assert j[0] == jp[0] && j[|j| - 1] == jq[|jq| - 1];
    TrimAround(lead, j, tail);
    CollapseAround(jp, m, jq);
  }

  /** The last steps of the chain on `lp&lq` and `lp & lq`, for lower-case
      plain texts that meet the `&` with a letter or digit. */
  lemma AmpersandBetweenPlain(lp: string, lq: string)
    requires IsLowerPlain(lp) && lp != [] && lp[|lp| - 1] != ' '
    requires IsLowerPlain(lq) && lq != [] && lq[0] != ' '
    ensures var jp, jq := Join(Words(lp), "-"), Join(Words(lq), "-");
      CollapseQuadHyphens(TrimHyphens(Dashify(lp + ("&" + lq)))) == jp + ("--" + jq)
  {
    PlainEndsInWord(lp);
    PlainStartsWithWord(lq);
    DashifyAroundAmpersand(lp, lq);
    StepsAround(if lp[0] == ' ' then "-" else "", Join(Words(lp), "-"), "--", Join(Words(lq), "-"), TrailingHyphen(lq));
  }

  lemma DashifyAroundAmpersand(lp: string, lq: string)
    requires IsLowerPlain(lp) && lp != [] && lp[|lp| - 1] != ' '
    requires IsLowerPlain(lq) && lq != [] && lq[0] != ' '
    ensures Dashify(lp + ("&" + lq))
      == ((if lp[0] == ' ' then "-" else "") + Join(Words(lp), "-")) + ("--" + (Join(Words(lq), "-") + TrailingHyphen(lq)))
  {
    PlainEndsInWord(lp);
    PlainStartsWithWord(lq);
    DashifyAppend(lp, "&" + lq);
    assert "&" + lq == ['&'] + lq;
    DashifyAmpersandCons(lq);
  }

  lemma SpacedAmpersandBetweenPlain(lp: string, lq: string)
    requires IsLowerPlain(lp) && lp != [] && lp[|lp| - 1] != ' '
    requires IsLowerPlain(lq) && lq != [] && lq[0] != ' '
    ensures var jp, jq := Join(Words(lp), "-"), Join(Words(lq), "-");
      CollapseQuadHyphens(TrimHyphens(Dashify(lp + (" & " + lq)))) == jp + ("--" + jq)
  {
    PlainEndsInWord(lp);
    PlainStartsWithWord(lq);
    DashifyAroundSpacedAmpersand(lp, lq);
    StepsAround(if lp[0] == ' ' then "-" else "", Join(Words(lp), "-"), "----", Join(Words(lq), "-"), TrailingHyphen(lq));
  }

  lemma DashifyAroundSpacedAmpersand(lp: string, lq: string)
    requires IsLowerPlain(lp) && lp != [] && lp[|lp| - 1] != ' '
    requires IsLowerPlain(lq) && lq != [] && lq[0] != ' '
    ensures Dashify(lp + (" & " + lq))
      == ((if lp[0] == ' ' then "-" else "") + Join(Words(lp), "-")) + ("----" + (Join(Words(lq), "-") + TrailingHyphen(lq)))
  {
    PlainEndsInWord(lp);
    PlainStartsWithWord(lq);
    DashifyAppend(lp, " & " + lq);
    DashifySpacedCons(lq);
  }

  /** Lower-casing keeps a plain text plain and its letters and digits in
      place. */
  lemma LowerPlain(p: string)
    requires IsPlain(p)
    ensures IsLowerPlain(ToLower(p))
    ensures forall i :: 0 <= i < |p| ==> (ToLower(p)[i] == ' ' <==> p[i] == ' ')
  {
  }

  /** Between two plain headings that meet it with a letter or digit, `&`
      and ` & ` both join the two anchors with `--`. */
  lemma AnchorAroundAmpersand(p: string, q: string)
    requires IsPlain(p) && p != [] && p[|p| - 1] != ' '
    requires IsPlain(q) && q != [] && q[0] != ' '
    ensures Anchor.Anchor(p + "&" + q) == Anchor.Anchor(p) + "--" + Anchor.Anchor(q)
    ensures Anchor.Anchor(p + " & " + q) == Anchor.Anchor(p) + "--" + Anchor.Anchor(q)
  {
    var lp, lq := ToLower(p), ToLower(q);
    var jp, jq := Join(Words(lp), "-"), Join(Words(lq), "-");
    LowerPlain(p);
    LowerPlain(q);
    AnchorOfPlainHeading(p);
    AnchorOfPlainHeading(q);
    LowerAroundAmpersand(p, q);
    AmpersandBetweenPlain(lp, lq);
    SpacedAmpersandBetweenPlain(lp, lq);
    AppendAssoc(jp, "--", jq);
    AnchorFromLower(p + "&" + q, lp + ("&" + lq), jp + "--" + jq);
    AnchorFromLower(p + " & " + q, lp + (" & " + lq), jp + "--" + jq);
  }

  /** A heading that opens with `&` before a plain word: `&` gives `--`,
      and trimming takes only one of the two hyphens off, so the anchor is
      the word's anchor after a single hyphen (`&A` gives `-a`). */
  lemma AnchorOfLeadingAmpersand(q: string)
    requires IsPlain(q) && q != [] && q[0] != ' '
    ensures Anchor.Anchor("&" + q) == "-" + Anchor.Anchor(q)
  {
    var lq := ToLower(q);
    LowerPlain(q);
    LowerAfterAmpersand(q);
    LeadingAmpersandSteps(lq);
    AnchorOfPlainHeading(q);
    AnchorFromLower("&" + q, "&" + lq, "-" + Join(Words(lq), "-"));
  }

  lemma LowerAfterAmpersand(q: string)
    ensures ToLower("&" + q) == "&" + ToLower(q)
  {
    ToLowerAppend("&", q);
    assert ToLower("&") == "&";
  }

  /** The last four steps on `&` before a lower-case plain text that
      starts with a letter or digit. */
  lemma LeadingAmpersandSteps(lq: string)
    requires IsLowerPlain(lq) && lq != [] && lq[0] != ' '
    ensures CollapseQuadHyphens(TrimHyphens(Dashify("&" + lq))) == "-" + Join(Words(lq), "-")
  {
    var jq, tl := Join(Words(lq), "-"), TrailingHyphen(lq);
    PlainStartsWithWord(lq);
    assert "&" + lq == ['&'] + lq;
    DashifyAmpersandCons(lq);
    TrimThenCollapseAfterHyphen(jq, tl);
  }

  lemma TrimThenCollapseAfterHyphen(j: string, tl: string)
    requires j != [] && NoDoubleHyphen(j) && j[0] != '-' && j[|j| - 1] != '-'
    requires tl == "" || tl == "-"
    ensures CollapseQuadHyphens(TrimHyphens("--" + (j + tl))) == "-" + j
  {
    assert "--" + (j + tl) == "-" + ("-" + j) + tl;
    TrimAround("-", "-" + j, tl);
    CollapseQuadHyphensSingle(j);
    CollapseQuadHyphensKeepsSingles(j);
  }
}
