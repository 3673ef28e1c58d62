/**
 The two report layouts: `format_summary`, the full report around the
 model's overview, and `create_basic_summary`, the fallback that lists key
 points only. Both are built by appending to a string; the model restates
 each as the list of its lines, and a parser reads a report back into its
 fields, so that formatting and parsing are each other's inverse.
 */
module Report {
  import opened Options
  import opened Text
  import opened Seqs
  import opened KeyPoints

  const Title: string := "\U{1F916} Local AI-Generated Meeting Summary"
  const GeneratedOn: string := "\U{1F4C5} Generated on: "
  const ModelLine: string := "\U{1F4DD} Model: BART Large CNN"
  /** `'=' * 50`. */
  const Rule: string := Repeat('=', 50)
  const OverviewHeading: string := "OVERVIEW:"
  const KeyPointsHeading: string := "KEY POINTS IDENTIFIED:"
  const ActionHeading: string := "POTENTIAL ACTION ITEMS:"
  const Bullet: string := "\U{2022} "
  const Pin: string := "\U{1F4CC} "
  const FallbackTitle: string := "\U{26A0}\U{FE0F} Basic Summary (Fallback Method)"
  const FallbackHeading: string := "Key Points Identified:"
  /** The fallback lists at most this many key points (`key_points[:10]`). */
  const FallbackLimit: nat := 10

  /** What a full report shows. */
  datatype Summary = Summary(timestamp: string, overview: string, keyPoints: seq<string>, actionItems: seq<string>)

  /** What a fallback report shows. */
  datatype BasicSummary = BasicSummary(timestamp: string, keyPoints: seq<string>)

  /** The key points that mention an action word, in order. */
  function ActionItems(points: seq<string>): (r: seq<string>)
    ensures forall i :: 0 <= i < |r| ==> IsActionItem(r[i])
    ensures IsSubsequence(r, points)
    ensures forall x :: multiset(r)[x] == if IsActionItem(x) then multiset(points)[x] else 0
  {
    FilterIsSubsequence(points, IsActionItem);
    FilterCountAll(points, IsActionItem);
    Filter(points, IsActionItem)
  }

  // ---------------------------------------------------------------------------
  // Building the text as the source does

  /** The loop `for p in points: text += f"{prefix}{p}\n"` started on `acc`. */
  function AppendLines(acc: string, prefix: string, points: seq<string>): (r: string)
    ensures r == acc + Unlines(Prefixed(prefix, points))
    decreases |points|
  {
    if points == [] then acc
    else
      var next := acc + prefix + points[0] + "\n";
      assert Prefixed(prefix, points) == [prefix + points[0]] + Prefixed(prefix, points[1..]);
      UnlinesCons(prefix + points[0], Prefixed(prefix, points[1..]));
      AppendLines(next, prefix, points[1..])
  }

  /** `format_summary(summary_text, key_points)` with the clock reading passed in. */
  function FormatSummary(timestamp: string, summaryText: string, keyPoints: seq<string>): (r: string)
    ensures r == Unlines(SummaryLines(Summary(timestamp, summaryText, keyPoints, ActionItems(keyPoints))))
  {
    var top := Title + "\n" + GeneratedOn + timestamp + "\n" + ModelLine + "\n" + Rule + "\n\n";
    var overview := OverviewHeading + "\n" + summaryText + "\n\n" + KeyPointsHeading + "\n";
    var head := top + overview;
    var withPoints := AppendLines(head, Bullet, keyPoints);
    var actions := ActionItems(keyPoints);
    var r := if actions != [] then AppendLines(withPoints + "\n" + ActionHeading + "\n", Pin, actions) else withPoints;
    SummaryHead(timestamp, summaryText, top, overview);
    SummaryAssembly(Summary(timestamp, summaryText, keyPoints, actions), head, withPoints, r);
    r
  }

  /** `create_basic_summary(text)` with the clock reading passed in. */
  function CreateBasicSummary(text: string, timestamp: string): (r: string)
    ensures r == Unlines(BasicLines(Fallback(text, timestamp)))
  {
    var points := ExtractKeyPoints(text);
    var head := FallbackTitle + "\n" + GeneratedOn + timestamp + "\n" + Rule + "\n\n" + FallbackHeading + "\n";
    var shown := FirstPoints(points);
    var r := AppendLines(head, Bullet, shown);
    BasicHead(timestamp, head);
    UnlinesAppend(BasicHeadLines(timestamp), Prefixed(Bullet, shown));
    r
  }

  /** Python's `c * n` for a one-character string `c`. */
  function Repeat(c: char, n: nat): (r: string)
    ensures |r| == n
    ensures forall i :: 0 <= i < n ==> r[i] == c
  {
    seq(n, _ => c)
  }

  function Min(a: nat, b: nat): nat {
    if a < b then a else b
  }

  /** `key_points[:10]`. */
  function FirstPoints(points: seq<string>): (r: seq<string>)
    ensures |r| <= FallbackLimit && |r| <= |points|
    ensures |points| <= FallbackLimit ==> r == points
    ensures |points| > FallbackLimit ==> |r| == FallbackLimit
    ensures forall i :: 0 <= i < |r| ==> r[i] == points[i]
  {
    points[..Min(FallbackLimit, |points|)]
  }

  /** What the fallback report of `text` shows. */
  function Fallback(text: string, timestamp: string): BasicSummary {
    BasicSummary(timestamp, FirstPoints(ExtractKeyPoints(text)))
  }

  // ---------------------------------------------------------------------------
  // The same texts as lists of lines

  /** Lines, each ended by a newline. */
  function Unlines(ls: seq<string>): string {
    if ls == [] then "" else ls[0] + "\n" + Unlines(ls[1..])
  }

  function Prefixed(prefix: string, xs: seq<string>): (r: seq<string>)
    ensures |r| == |xs|
    ensures forall i :: 0 <= i < |xs| ==> r[i] == prefix + xs[i]
  {
    if xs == [] then [] else [prefix + xs[0]] + Prefixed(prefix, xs[1..])
  }

  /** The opening block of `format_summary`: title, date, model, rule, the
      overview under its heading, and the key point heading. */
  function HeadLines(timestamp: string, overview: string): seq<string> {
    [Title, GeneratedOn + timestamp, ModelLine, Rule, "", OverviewHeading, overview, "", KeyPointsHeading]
  }

  /** The action section appears only when there are action items. */
  function ActionSection(items: seq<string>): seq<string> {
    if items != [] then ["", ActionHeading] + Prefixed(Pin, items) else []
  }

  /** The lines of a full report. */
  function SummaryLines(s: Summary): seq<string> {
    HeadLines(s.timestamp, s.overview) + Prefixed(Bullet, s.keyPoints) + ActionSection(s.actionItems)
  }

  /** The opening block of `create_basic_summary`. */
  function BasicHeadLines(timestamp: string): seq<string> {
    [FallbackTitle, GeneratedOn + timestamp, Rule, "", FallbackHeading]
  }

  /** The lines of a fallback report. */
  function BasicLines(b: BasicSummary): seq<string> {
    BasicHeadLines(b.timestamp) + Prefixed(Bullet, b.keyPoints)
  }

  /** A full report opens with its title line. */
  lemma SummaryOpensWithTitle(s: Summary)
    ensures StartsWith(Unlines(SummaryLines(s)), Title + "\n")
  {
    var ls := SummaryLines(s);
    assert ls == [Title] + ls[1..];
    UnlinesCons(Title, ls[1..]);
    PrefixOf(Title + "\n", Unlines(ls[1..]));
  }

  /** A fallback report opens with the fallback title line. */
  lemma BasicOpensWithTitle(b: BasicSummary)
    ensures StartsWith(Unlines(BasicLines(b)), FallbackTitle + "\n")
  {
    var ls := BasicLines(b);
    assert ls == [FallbackTitle] + ls[1..];
    UnlinesCons(FallbackTitle, ls[1..]);
    PrefixOf(FallbackTitle + "\n", Unlines(ls[1..]));
  }

  lemma UnlinesCons(l: string, ls: seq<string>)
    ensures Unlines([l] + ls) == l + "\n" + Unlines(ls)
  {
    assert ([l] + ls)[1..] == ls;
  }

  lemma {:induction false} UnlinesAppend(xs: seq<string>, ys: seq<string>)
    ensures Unlines(xs + ys) == Unlines(xs) + Unlines(ys)
  {
    if xs == [] {
      assert xs + ys == ys;
    } else {
      assert (xs + ys)[1..] == xs[1..] + ys;
      UnlinesAppend(xs[1..], ys);
    }
  }

  /** Newline-terminated lines are the lines joined by newlines plus a final empty line. */
  lemma {:induction false} UnlinesJoin(ls: seq<string>)
    ensures Unlines(ls) == Join(ls + [""], "\n")
  {
    if ls != [] {
      UnlinesJoin(ls[1..]);
      assert ls + [""] == [ls[0]] + (ls[1..] + [""]);
      JoinCons(ls[0], ls[1..] + [""], "\n");
    }
  }

  lemma UnlinesSnoc(ls: seq<string>, l: string)
    ensures Unlines(ls + [l]) == Unlines(ls) + l + "\n"
  {
    UnlinesAppend(ls, [l]);
    assert [l][1..] == [];
  }

  /** The concatenation `create_basic_summary` writes is the opening block's lines. This
      and the two lemmas for the full report's head take the text apart one
      line at a time, so that each step is a small obligation of its own. */
  lemma BasicHead(timestamp: string, head: string)
    requires head == FallbackTitle + "\n" + GeneratedOn + timestamp + "\n" + Rule + "\n\n" + FallbackHeading + "\n"
    ensures head == Unlines(BasicHeadLines(timestamp))
  {
    var l1 := GeneratedOn + timestamp;
    var h1 := FallbackTitle + "\n";
    assert h1 == Unlines([FallbackTitle]) by {
      UnlinesSnoc([], FallbackTitle);
      assert [] + [FallbackTitle] == [FallbackTitle];
    }
    var h2 := h1 + l1 + "\n";
    assert h2 == Unlines([FallbackTitle, l1]) by {
      UnlinesSnoc([FallbackTitle], l1);
      assert [FallbackTitle] + [l1] == [FallbackTitle, l1];
    }
    var h3 := h2 + Rule + "\n";
    assert h3 == Unlines([FallbackTitle, l1, Rule]) by {
      UnlinesSnoc([FallbackTitle, l1], Rule);
      assert [FallbackTitle, l1] + [Rule] == [FallbackTitle, l1, Rule];
    }
    var h4 := h3 + "" + "\n";
    assert h4 == Unlines([FallbackTitle, l1, Rule, ""]) by {
      UnlinesSnoc([FallbackTitle, l1, Rule], "");
      assert [FallbackTitle, l1, Rule] + [""] == [FallbackTitle, l1, Rule, ""];
    }
    var h5 := h4 + FallbackHeading + "\n";
    assert h5 == Unlines([FallbackTitle, l1, Rule, "", FallbackHeading]) by {
      UnlinesSnoc([FallbackTitle, l1, Rule, ""], FallbackHeading);
      assert [FallbackTitle, l1, Rule, ""] + [FallbackHeading] == [FallbackTitle, l1, Rule, "", FallbackHeading];
    }
    assert h1 + GeneratedOn + timestamp == h1 + l1 by {
      ConcatAssoc(h1, GeneratedOn, timestamp);
    }
    assert h2 + Rule + "\n\n" == h4 by {
      assert h3 + "" == h3;
      ConcatAssoc(h2 + Rule, "\n", "\n");
    }
  }

  lemma SummaryHead(timestamp: string, summaryText: string, top: string, overview: string)
    requires top == Title + "\n" + GeneratedOn + timestamp + "\n" + ModelLine + "\n" + Rule + "\n\n"
    requires overview == OverviewHeading + "\n" + summaryText + "\n\n" + KeyPointsHeading + "\n"
    ensures top + overview == Unlines(HeadLines(timestamp, summaryText))
  {
    var t := [Title, GeneratedOn + timestamp, ModelLine, Rule, ""];
    var o := [OverviewHeading, summaryText, "", KeyPointsHeading];
    SummaryTop(timestamp, top);
    SummaryOverview(summaryText, overview);
    UnlinesAppend(t, o);
    assert t + o == HeadLines(timestamp, summaryText);
  }

  /** Title, date, model and rule, one line per step. */
  lemma SummaryTop(timestamp: string, top: string)
    requires top == Title + "\n" + GeneratedOn + timestamp + "\n" + ModelLine + "\n" + Rule + "\n\n"
    ensures top == Unlines([Title, GeneratedOn + timestamp, ModelLine, Rule, ""])
  {
    var l1 := GeneratedOn + timestamp;
    var h1 := Title + "\n";
    assert h1 == Unlines([Title]) by {
      UnlinesSnoc([], Title);
      assert [] + [Title] == [Title];
    }
    var h2 := h1 + l1 + "\n";
    assert h2 == Unlines([Title, l1]) by {
      UnlinesSnoc([Title], l1);
      assert [Title] + [l1] == [Title, l1];
    }
    var h3 := h2 + ModelLine + "\n";
    assert h3 == Unlines([Title, l1, ModelLine]) by {
      UnlinesSnoc([Title, l1], ModelLine);
      assert [Title, l1] + [ModelLine] == [Title, l1, ModelLine];
    }
    var h4 := h3 + Rule + "\n";
    assert h4 == Unlines([Title, l1, ModelLine, Rule]) by {
      UnlinesSnoc([Title, l1, ModelLine], Rule);
      assert [Title, l1, ModelLine] + [Rule] == [Title, l1, ModelLine, Rule];
    }
    var h5 := h4 + "" + "\n";
    assert h5 == Unlines([Title, l1, ModelLine, Rule, ""]) by {
      UnlinesSnoc([Title, l1, ModelLine, Rule], "");
      assert [Title, l1, ModelLine, Rule] + [""] == [Title, l1, ModelLine, Rule, ""];
    }
    assert h1 + GeneratedOn + timestamp == h1 + l1 by {
      ConcatAssoc(h1, GeneratedOn, timestamp);
    }
    assert h3 + Rule + "\n\n" == h5 by {
      assert h4 + "" == h4;
      ConcatAssoc(h3 + Rule, "\n", "\n");
    }
  }

  /** The overview under its heading, and the key point heading, one line
      per step. */
  lemma SummaryOverview(summaryText: string, overview: string)
    requires overview == OverviewHeading + "\n" + summaryText + "\n\n" + KeyPointsHeading + "\n"
    ensures overview == Unlines([OverviewHeading, summaryText, "", KeyPointsHeading])
  {
    var h1 := OverviewHeading + "\n";
    assert h1 == Unlines([OverviewHeading]) by {
      UnlinesSnoc([], OverviewHeading);
      assert [] + [OverviewHeading] == [OverviewHeading];
    }
    var h2 := h1 + summaryText + "\n";
    assert h2 == Unlines([OverviewHeading, summaryText]) by {
      UnlinesSnoc([OverviewHeading], summaryText);
      assert [OverviewHeading] + [summaryText] == [OverviewHeading, summaryText];
    }
    var h3 := h2 + "" + "\n";
    assert h3 == Unlines([OverviewHeading, summaryText, ""]) by {
      UnlinesSnoc([OverviewHeading, summaryText], "");
      assert [OverviewHeading, summaryText] + [""] == [OverviewHeading, summaryText, ""];
    }
    var h4 := h3 + KeyPointsHeading + "\n";
    assert h4 == Unlines([OverviewHeading, summaryText, "", KeyPointsHeading]) by {
      UnlinesSnoc([OverviewHeading, summaryText, ""], KeyPointsHeading);
      assert [OverviewHeading, summaryText, ""] + [KeyPointsHeading] == [OverviewHeading, summaryText, "", KeyPointsHeading];
    }
    assert h1 + summaryText + "\n\n" == h3 by {
      assert h2 + "" == h2;
      ConcatAssoc(h1 + summaryText, "\n", "\n");
    }
  }

  /** The opening block, the key point lines and the action section make up
      the lines of the report. */
  lemma SummaryAssembly(s: Summary, head: string, withPoints: string, r: string)
    requires head == Unlines(HeadLines(s.timestamp, s.overview))
    requires withPoints == head + Unlines(Prefixed(Bullet, s.keyPoints))
    requires r == if s.actionItems != [] then withPoints + "\n" + ActionHeading + "\n" + Unlines(Prefixed(Pin, s.actionItems)) else withPoints
    ensures r == Unlines(SummaryLines(s))
  {
    var h, b, sec := HeadLines(s.timestamp, s.overview), Prefixed(Bullet, s.keyPoints), ActionSection(s.actionItems);
    UnlinesAppend(h + b, sec);
    UnlinesAppend(h, b);
    if s.actionItems != [] {
      var q := Unlines(Prefixed(Pin, s.actionItems));
      var a := "\n" + ActionHeading + "\n";
      ActionSectionLines(Prefixed(Pin, s.actionItems));
      assert r == withPoints + (a + q) by {
        ConcatAssoc(withPoints, "\n", ActionHeading);
        ConcatAssoc(withPoints, "\n" + ActionHeading, "\n");
        ConcatAssoc(withPoints, a, q);
      }
    } else {
      assert withPoints + Unlines(sec) == withPoints;
    }
  }

  /** The action section as lines. */
  lemma ActionSectionLines(p: seq<string>)
    ensures Unlines(["", ActionHeading] + p) == "\n" + ActionHeading + "\n" + Unlines(p)
  {
    var q := Unlines(p);
    assert ["", ActionHeading] + p == [""] + ([ActionHeading] + p);
    UnlinesCons("", [ActionHeading] + p);
    UnlinesCons(ActionHeading, p);
    assert "" + "\n" == "\n";
    ConcatAssoc(ActionHeading, "\n", q);
    ConcatAssoc("\n", ActionHeading + "\n", q);
    ConcatAssoc("\n", ActionHeading, "\n");
  }

  // ---------------------------------------------------------------------------
  // Reading a report back

  predicate StartsWith(s: string, prefix: string) {
    |prefix| <= |s| && s[..|prefix|] == prefix
  }

  lemma PrefixOf(prefix: string, rest: string)
    ensures StartsWith(prefix + rest, prefix) && (prefix + rest)[|prefix|..] == rest
  {
    assert (prefix + rest)[..|prefix|] == prefix;
  }

  /** The leading lines that start with `prefix`, with the prefix removed. */
  function TakePrefixed(lines: seq<string>, prefix: string): (r: seq<string>)
    ensures |r| <= |lines|
    ensures Prefixed(prefix, r) == lines[..|r|]
    ensures |r| < |lines| ==> !StartsWith(lines[|r|], prefix)
  {
    if lines == [] || !StartsWith(lines[0], prefix) then []
    else
      var rest := TakePrefixed(lines[1..], prefix);
      TakePrefixedStep(lines, prefix, rest);
      assert lines[1 + |rest|..] == lines[1..][|rest|..];
      [lines[0][|prefix|..]] + rest
  }

  lemma TakePrefixedStep(lines: seq<string>, prefix: string, rest: seq<string>)
    requires lines != [] && StartsWith(lines[0], prefix)
    requires |rest| < |lines| && Prefixed(prefix, rest) == lines[1..][..|rest|]
    ensures Prefixed(prefix, [lines[0][|prefix|..]] + rest) == lines[..1 + |rest|]
  {
    var x := lines[0][|prefix|..];
    PrefixUnsplit(lines[0], prefix);
    PrefixedCons(prefix, x, rest);
    PrefixCons(lines, |rest|);
  }

  lemma PrefixUnsplit(s: string, prefix: string)
    requires StartsWith(s, prefix)
    ensures prefix + s[|prefix|..] == s
  {
    assert s == s[..|prefix|] + s[|prefix|..];
  }

  lemma PrefixedCons(prefix: string, x: string, xs: seq<string>)
    ensures Prefixed(prefix, [x] + xs) == [prefix + x] + Prefixed(prefix, xs)
  {
    assert ([x] + xs)[1..] == xs;
  }

  /** `TakePrefixed` undoes `Prefixed` up to the first line without the prefix. */
  lemma {:induction false} TakePrefixedOf(prefix: string, xs: seq<string>, rest: seq<string>)
    requires rest == [] || !StartsWith(rest[0], prefix)
    ensures TakePrefixed(Prefixed(prefix, xs) + rest, prefix) == xs
  {
    var ls := Prefixed(prefix, xs) + rest;
    if xs == [] {
      assert ls == rest;
    } else {
      assert ls[0] == prefix + xs[0];
      PrefixOf(prefix, xs[0]);
      assert ls[1..] == Prefixed(prefix, xs[1..]) + rest;
      TakePrefixedOf(prefix, xs[1..], rest);
    }
  }

  /** A block, a body, and the empty text after the last newline. */
  lemma Framed(ls: seq<string>, h: seq<string>, t: seq<string>)
    requires ls == h + t + [""]
    ensures |ls| == |h| + |t| + 1 && ls[|ls| - 1] == ""
    ensures ls[..|h|] == h && ls[|h|..|ls| - 1] == t
  {
    assert ls[..|h|] == h;
    assert ls[|h|..|ls| - 1] == t;
  }

  lemma Unframed(ls: seq<string>, k: nat)
    requires k < |ls| && ls[|ls| - 1] == ""
    ensures ls == ls[..k] + ls[k..|ls| - 1] + [""]
  {
  }

  /** Reads a full report back into its fields; `None` for any text that is
      not laid out as `format_summary` lays it out. */
  function ParseSummary(report: string): Option<Summary> {
    var ls := SplitOn(report, '\n');
    if |ls| < 10 || ls[|ls| - 1] != "" || !StartsWith(ls[1], GeneratedOn) then None
    else
      var timestamp := ls[1][|GeneratedOn|..];
      var body := ls[9..|ls| - 1];
      var points := TakePrefixed(body, Bullet);
      var actions := ParseActions(body[|points|..]);
      if ls[..9] != HeadLines(timestamp, ls[6]) || actions.None? then None
      else Some(Summary(timestamp, ls[6], points, actions.value))
  }

  /** The lines after the key points: nothing, or the action heading after a
      blank line followed by at least one pinned item and nothing else. */
  function ParseActions(rest: seq<string>): Option<seq<string>> {
    if rest == [] then Some([])
    else if |rest| >= 3 && rest[..2] == ["", ActionHeading]
      && |TakePrefixed(rest[2..], Pin)| == |rest| - 2 then Some(TakePrefixed(rest[2..], Pin))
    else None
  }

  lemma ParseActionsSound(rest: seq<string>)
    ensures ParseActions(rest).Some? ==> ActionSection(ParseActions(rest).value) == rest
  {
    if rest != [] && ParseActions(rest).Some? {
      var items := ParseActions(rest).value;
      assert rest == rest[..2] + rest[2..];
      assert Prefixed(Pin, items) == rest[2..];
    }
  }

  lemma ParseActionsOf(items: seq<string>)
    ensures ParseActions(ActionSection(items)) == Some(items)
  {
    if items != [] {
      var sec := ActionSection(items);
      assert sec[..2] == ["", ActionHeading];
      assert sec[2..] == Prefixed(Pin, items) + [];
      TakePrefixedOf(Pin, items, []);
    }
  }

  /** What the parser read: the opening block, the key point lines and the
      action section. */
  lemma ParsedParts(report: string)
    requires ParseSummary(report).Some?
    ensures var r, ls := ParseSummary(report).value, SplitOn(report, '\n');
      |ls| >= 10 && ls[|ls| - 1] == "" && ls[..9] == HeadLines(r.timestamp, r.overview)
      && ls[9..|ls| - 1] == Prefixed(Bullet, r.keyPoints) + ActionSection(r.actionItems)
  {
    var r, ls := ParseSummary(report).value, SplitOn(report, '\n');
    var body := ls[9..|ls| - 1];
    var n := |r.keyPoints|;
    ParseActionsSound(body[n..]);
    TakeDrop(body, n);
  }

  /** Whatever the parser accepts, formatting its result gives the text back. */
  lemma ParseSummarySound(report: string)
    ensures ParseSummary(report).Some? ==> Unlines(SummaryLines(ParseSummary(report).value)) == report
  {
    if ParseSummary(report).Some? {
      var r, ls := ParseSummary(report).value, SplitOn(report, '\n');
      ParsedParts(report);
      Unframed(ls, 9);
      ConcatAssoc(HeadLines(r.timestamp, r.overview), Prefixed(Bullet, r.keyPoints), ActionSection(r.actionItems));
      UnlinesJoin(SummaryLines(r));
      JoinSplitOn(report, '\n');
    }
  }

  /** No line break inside a field. */
  predicate OneLine(s: string) {
    '\n' !in s
  }

  predicate AllOneLine(xs: seq<string>) {
    forall i :: 0 <= i < |xs| ==> OneLine(xs[i])
  }

  lemma AllOneLineAppend(xs: seq<string>, ys: seq<string>)
    requires AllOneLine(xs) && AllOneLine(ys)
    ensures AllOneLine(xs + ys)
  {
    assert forall i :: 0 <= i < |xs + ys| ==> (xs + ys)[i] in xs || (xs + ys)[i] in ys;
  }

  lemma TitlesOneLine()
    ensures OneLine(Title) && OneLine(ModelLine) && OneLine(FallbackTitle)
  {
    TitleOneLine();
    ModelLineOneLine();
    FallbackTitleOneLine();
  }

  lemma TitleOneLine()
    ensures OneLine(Title)
  {
  }

  lemma ModelLineOneLine()
    ensures OneLine(ModelLine)
  {
  }

  lemma FallbackTitleOneLine()
    ensures OneLine(FallbackTitle)
  {
  }

  lemma HeadingsOneLine()
    ensures OneLine(GeneratedOn) && OneLine(Rule)
    ensures OneLine(OverviewHeading) && OneLine(KeyPointsHeading) && OneLine(ActionHeading) && OneLine(FallbackHeading)
  {
  }

  lemma MarksOneLine()
    ensures OneLine(Bullet) && OneLine(Pin)
  {
  }

  /** Every field on one line. */
  predicate SummaryOneLine(s: Summary) {
    OneLine(s.timestamp) && OneLine(s.overview) && AllOneLine(s.keyPoints) && AllOneLine(s.actionItems)
  }

  lemma PrefixedOneLine(prefix: string, xs: seq<string>)
    requires OneLine(prefix) && AllOneLine(xs)
    ensures AllOneLine(Prefixed(prefix, xs))
  {
    forall i | 0 <= i < |xs|
      ensures OneLine(Prefixed(prefix, xs)[i])
    {
      assert Prefixed(prefix, xs)[i] == prefix + xs[i];
    }
  }

  lemma HeadOneLine(timestamp: string, overview: string)
    requires OneLine(timestamp) && OneLine(overview)
    ensures AllOneLine(HeadLines(timestamp, overview))
  {
    TitlesOneLine();
    HeadingsOneLine();
    assert OneLine(GeneratedOn + timestamp);
  }

  lemma BasicHeadOneLine(timestamp: string)
    requires OneLine(timestamp)
    ensures AllOneLine(BasicHeadLines(timestamp))
  {
    TitlesOneLine();
    HeadingsOneLine();
    assert OneLine(GeneratedOn + timestamp);
  }

  lemma ActionSectionOneLine(items: seq<string>)
    requires AllOneLine(items)
    ensures AllOneLine(ActionSection(items))
  {
    if items != [] {
      HeadingsOneLine();
      MarksOneLine();
      PrefixedOneLine(Pin, items);
      AllOneLineAppend(["", ActionHeading], Prefixed(Pin, items));
    }
  }

  /** A report of one-line fields is made of one-line lines. */
  lemma SummaryLinesOneLine(s: Summary)
    requires SummaryOneLine(s)
    ensures AllOneLine(SummaryLines(s))
  {
    var h, p := HeadLines(s.timestamp, s.overview), Prefixed(Bullet, s.keyPoints);
    HeadOneLine(s.timestamp, s.overview);
    MarksOneLine();
    PrefixedOneLine(Bullet, s.keyPoints);
    ActionSectionOneLine(s.actionItems);
    AllOneLineAppend(h, p);
    AllOneLineAppend(h + p, ActionSection(s.actionItems));
  }

  /** Splitting the text of newline-terminated one-line lines gives the lines back. */
  lemma SplitUnlines(ls: seq<string>)
    requires AllOneLine(ls)
    ensures SplitOn(Unlines(ls), '\n') == ls + [""]
  {
    UnlinesJoin(ls);
    SplitOnJoin(ls + [""], '\n');
  }

  /** The lines of a rendered report, as split at its newlines. */
  lemma RenderedLines(s: Summary)
    requires SummaryOneLine(s)
    ensures SplitOn(Unlines(SummaryLines(s)), '\n')
      == HeadLines(s.timestamp, s.overview) + (Prefixed(Bullet, s.keyPoints) + ActionSection(s.actionItems)) + [""]
  {
    SummaryLinesOneLine(s);
    SplitUnlines(SummaryLines(s));
    ConcatAssoc(HeadLines(s.timestamp, s.overview), Prefixed(Bullet, s.keyPoints), ActionSection(s.actionItems));
  }

  /** The fields of a line block laid out as the opening of a full report. */
  lemma HeadFields(ls: seq<string>, timestamp: string, overview: string)
    requires |ls| >= 9 && ls[..9] == HeadLines(timestamp, overview)
    ensures ls[1] == GeneratedOn + timestamp && ls[6] == overview
  {
    assert ls[1] == ls[..9][1];
    assert ls[6] == ls[..9][6];
  }

  /** Reading a rendered report gives back what was rendered. */
  lemma ParseSummaryLines(s: Summary)
    requires SummaryOneLine(s)
    ensures ParseSummary(Unlines(SummaryLines(s))) == Some(s)
  {
    var ls := SplitOn(Unlines(SummaryLines(s)), '\n');
    var p, sec := Prefixed(Bullet, s.keyPoints), ActionSection(s.actionItems);
    RenderedLines(s);
    Framed(ls, HeadLines(s.timestamp, s.overview), p + sec);
    HeadFields(ls, s.timestamp, s.overview);
    PrefixOf(GeneratedOn, s.timestamp);
    assert sec == [] || sec[0] == "";
    TakePrefixedOf(Bullet, s.keyPoints, sec);
    assert (p + sec)[|s.keyPoints|..] == sec;
    ParseActionsOf(s.actionItems);
  }

  /** The full report of one-line fields reads back as those fields with the
      action items picked from the key points. */
  lemma FormatSummaryRoundTrip(timestamp: string, summaryText: string, keyPoints: seq<string>)
    requires OneLine(timestamp) && OneLine(summaryText) && AllOneLine(keyPoints)
    ensures ParseSummary(FormatSummary(timestamp, summaryText, keyPoints))
      == Some(Summary(timestamp, summaryText, keyPoints, ActionItems(keyPoints)))
  {
    var actions := ActionItems(keyPoints);
    forall i | 0 <= i < |actions|
      ensures OneLine(actions[i])
    {
      assert multiset(actions)[actions[i]] > 0;
      assert actions[i] in keyPoints;
    }
    ParseSummaryLines(Summary(timestamp, summaryText, keyPoints, actions));
  }

  /** Reads a fallback report back; `None` for any text not laid out as
      `create_basic_summary` lays it out. */
  function ParseBasic(report: string): Option<BasicSummary> {
    var ls := SplitOn(report, '\n');
    if |ls| < 6 || ls[|ls| - 1] != "" || !StartsWith(ls[1], GeneratedOn) then None
    else
      var timestamp := ls[1][|GeneratedOn|..];
      var body := ls[5..|ls| - 1];
      var points := TakePrefixed(body, Bullet);
      if ls[..5] == BasicHeadLines(timestamp) && |points| == |body| then Some(BasicSummary(timestamp, points))
      else None
  }

  /** Whatever the fallback parser accepts, formatting its result gives the
      text back. */
  lemma ParseBasicSound(report: string)
    ensures ParseBasic(report).Some? ==> Unlines(BasicLines(ParseBasic(report).value)) == report
  {
    if ParseBasic(report).Some? {
      var b, ls := ParseBasic(report).value, SplitOn(report, '\n');
      assert Prefixed(Bullet, b.keyPoints) == ls[5..|ls| - 1];
      Unframed(ls, 5);
      UnlinesJoin(BasicLines(b));
      JoinSplitOn(report, '\n');
    }
  }

  /** The lines of a rendered fallback report, as split at its newlines. */
  lemma BasicRendered(b: BasicSummary)
    requires OneLine(b.timestamp) && AllOneLine(b.keyPoints)
    ensures SplitOn(Unlines(BasicLines(b)), '\n') == BasicHeadLines(b.timestamp) + Prefixed(Bullet, b.keyPoints) + [""]
  {
    BasicHeadOneLine(b.timestamp);
    MarksOneLine();
    PrefixedOneLine(Bullet, b.keyPoints);
    AllOneLineAppend(BasicHeadLines(b.timestamp), Prefixed(Bullet, b.keyPoints));
    SplitUnlines(BasicLines(b));
  }

  /** Reading a rendered fallback report gives back what was rendered. */
  lemma ParseBasicLines(b: BasicSummary)
    requires OneLine(b.timestamp) && AllOneLine(b.keyPoints)
    ensures ParseBasic(Unlines(BasicLines(b))) == Some(b)
  {
    var ls := SplitOn(Unlines(BasicLines(b)), '\n');
    var h := BasicHeadLines(b.timestamp);
    BasicRendered(b);
    Framed(ls, h, Prefixed(Bullet, b.keyPoints));
    assert ls[1] == ls[..5][1];
    PrefixOf(GeneratedOn, b.timestamp);
    TakePrefixedOf(Bullet, b.keyPoints, []);
    assert Prefixed(Bullet, b.keyPoints) + [] == Prefixed(Bullet, b.keyPoints);
  }

  /** The fallback report of a text without line breaks reads back as the
      timestamp and the first ten key points of the text. */
  lemma CreateBasicRoundTrip(text: string, timestamp: string)
    requires OneLine(text) && OneLine(timestamp)
    ensures ParseBasic(CreateBasicSummary(text, timestamp)) == Some(Fallback(text, timestamp))
  {
    var points := ExtractKeyPoints(text);
    KeyPointsAvoid(text, '\n');
    ParseBasicLines(Fallback(text, timestamp));
  }

  /** The first line of lines whose first entry holds no line break. */
  lemma FirstLine(l: string, ls: seq<string>)
    requires OneLine(l)
    ensures SplitOn(Unlines([l] + ls), '\n')[0] == l
  {
    var s := Unlines([l] + ls);
    UnlinesCons(l, ls);
    assert s == l + ("\n" + Unlines(ls));
    FindAppend(l, "\n" + Unlines(ls), '\n');
    assert s[..|l|] == l;
  }

  /** The two layouts cannot be mistaken for each other: whatever the fields,
      a fallback report never reads as a full one, and a full report never
      reads as a fallback one. */
  lemma LayoutsDistinct(s: Summary, b: BasicSummary)
    ensures ParseSummary(Unlines(BasicLines(b))) == None
    ensures ParseBasic(Unlines(SummaryLines(s))) == None
  {
    BasicNotSummary(b);
    SummaryNotBasic(s);
  }

  lemma BasicNotSummary(b: BasicSummary)
    ensures ParseSummary(Unlines(BasicLines(b))) == None
  {
    var bl := BasicLines(b);
    var ls := SplitOn(Unlines(bl), '\n');
    FallbackTitleOneLine();
    assert bl == [FallbackTitle] + bl[1..];
    FirstLine(FallbackTitle, bl[1..]);
    assert Title[0] != FallbackTitle[0];
    if |ls| >= 9 {
      assert ls[..9][0] != Title;
    }
  }

  lemma SummaryNotBasic(s: Summary)
    ensures ParseBasic(Unlines(SummaryLines(s))) == None
  {
    var sl := SummaryLines(s);
    var ls := SplitOn(Unlines(sl), '\n');
    TitleOneLine();
    assert sl == [Title] + sl[1..];
    FirstLine(Title, sl[1..]);
    assert Title[0] != FallbackTitle[0];
    if |ls| >= 5 {
      assert ls[..5][0] != FallbackTitle;
    }
  }
}
