/**
 * The two pieces of the command-line front end that carry logic: choosing
 * the loader from the arguments, and the layout of the failure report.
 */
module Cli {
  import opened Results
  import opened Text
  import opened Audit

  /** The loaders the command accepts, in lower case. */
  const Loaders: seq<string> := ["fabric", "forge", "neoforge", "quilt"]

  /** Why the command refuses its arguments. */
  datatype UsageError = InvalidLoader(arg: string)

  /**
   * The loader, from the arguments after the update version: with exactly one
   * such argument it must name a loader in any letter case, and the loader is
   * its lower-case form; with none (or more than one) there is no loader and
   * the fast search runs.
   */
  function ChooseLoader(extra: seq<string>): Result<Option<string>, UsageError>
  {
    if |extra| == 1 then
      if Lower(extra[0]) in Loaders then Success(Some(Lower(extra[0]))) else Failure(InvalidLoader(extra[0]))
    else Success(None)
  }

  /**
   * A single loader argument is accepted exactly when its lower-case form is
   * one of the four loaders; the chosen loader is that canonical form, so
   * choosing again from it gives the same loader.
   */
  lemma LoaderAccepted(arg: string)
    ensures ChooseLoader([arg]).Success? <==> Lower(arg) in Loaders
    ensures ChooseLoader([arg]).Success? ==>
      var l := ChooseLoader([arg]).value;
      l.Some? && l.value in Loaders && l.value == Lower(arg) && ChooseLoader([l.value]) == Success(l)
  {
    LowerIdempotent(arg);
  }

  /** A rejected loader argument is reported as such; no other argument count is ever rejected. */
  lemma LoaderRejected(extra: seq<string>)
    ensures ChooseLoader(extra).Failure? <==> |extra| == 1 && Lower(extra[0]) !in Loaders
    ensures ChooseLoader(extra).Failure? ==> ChooseLoader(extra).error == InvalidLoader(extra[0])
    ensures |extra| != 1 ==> ChooseLoader(extra) == Success(None)
  {
  }

  /** Letter case never matters: `NeoForge` selects `neoforge`. */
  lemma MixedCaseLoader()
    ensures ChooseLoader(["NeoForge"]) == Success(Some("neoforge"))
  {
    var arg := "NeoForge";
    assert LowerChar('N') == 'n' && LowerChar('F') == 'f';
    assert Lower(arg) == "neoforge";
  }

  /** The indented title lines of one category, in the order given. */
  function TitleLines(titles: seq<string>): seq<string>
  {
    if titles == [] then [] else ["  " + titles[0]] + TitleLines(titles[1..])
  }

  /** The report's lines, without line breaks: per category a header, then its sorted titles. */
  function ReportLines(categories: seq<string>, failed: map<string, seq<string>>): seq<string>
    requires forall k :: k in categories ==> k in failed
  {
    if categories == [] then []
    else SectionLines(categories[0], failed[categories[0]]) + ReportLines(categories[1..], failed)
  }

  /** One category's lines: its capitalized name as a header, then its titles in sorted order. */
  function SectionLines(key: string, titles: seq<string>): seq<string>
  {
    [Capitalize(key) + ":"] + TitleLines(Sort(titles))
  }

  /** What the title loop writes for one category. */
  function TitlesText(titles: seq<string>): string
  {
    if titles == [] then [] else "  " + titles[0] + "\n" + TitlesText(titles[1..])
  }

  /** The text of the report file, categories in dictionary order. */
  function ReportText(categories: seq<string>, failed: map<string, seq<string>>): string
    requires forall k :: k in categories ==> k in failed
  {
    if categories == [] then []
    else SectionText(categories[0], failed[categories[0]]) + ReportText(categories[1..], failed)
  }

  /** What one turn of the category loop writes. */
  function SectionText(key: string, titles: seq<string>): string
  {
    Capitalize(key) + ":\n" + TitlesText(Sort(titles))
  }

  /** Lines, each ended by a line break. */
  function Unlines(lines: seq<string>): string
  {
    if lines == [] then [] else lines[0] + "\n" + Unlines(lines[1..])
  }

  lemma {:induction false} UnlinesAppend(a: seq<string>, b: seq<string>)
    ensures Unlines(a + b) == Unlines(a) + Unlines(b)
  {
    if a != [] {
      assert (a + b)[1..] == a[1..] + b;
      UnlinesAppend(a[1..], b);
    } else {
      assert a + b == b;
    }
  }

  lemma {:induction false} UnlinesIsJoin(lines: seq<string>)
    ensures Unlines(lines) == Join(lines + [[]], '\n')
  {
    if lines != [] {
      UnlinesIsJoin(lines[1..]);
      assert (lines + [[]])[1..] == lines[1..] + [[]];
    }
  }

  lemma {:induction false} TitlesTextLines(titles: seq<string>)
    ensures TitlesText(titles) == Unlines(TitleLines(titles))
    ensures |TitleLines(titles)| == |titles|
    ensures forall k :: 0 <= k < |titles| ==> TitleLines(titles)[k] == "  " + titles[k]
  {
    if titles != [] {
      TitlesTextLines(titles[1..]);
      UnlinesAppend(["  " + titles[0]], TitleLines(titles[1..]));
    }
  }

  lemma SectionTextIsLines(key: string, titles: seq<string>)
    ensures SectionText(key, titles) == Unlines(SectionLines(key, titles))
  {
    var header := Capitalize(key) + ":";
    TitlesTextLines(Sort(titles));
    UnlinesAppend([header], TitleLines(Sort(titles)));
  }

  /** The report text is its lines, each followed by a line break. */
  lemma {:induction false} ReportTextIsLines(categories: seq<string>, failed: map<string, seq<string>>)
    requires forall k :: k in categories ==> k in failed
    ensures ReportText(categories, failed) == Unlines(ReportLines(categories, failed))
  {
    if categories != [] {
      var key := categories[0];
      ReportTextIsLines(categories[1..], failed);
      SectionTextIsLines(key, failed[key]);
      UnlinesAppend(SectionLines(key, failed[key]), ReportLines(categories[1..], failed));
    }
  }

  /** No category name and no filed title contains a line break. */
  predicate SingleLine(categories: seq<string>, failed: map<string, seq<string>>)
    requires forall k :: k in categories ==> k in failed
  {
    forall k :: k in categories ==> '\n' !in k && forall t :: t in failed[k] ==> '\n' !in t
  }

  /** No line holds a line break. */
  predicate NoBreaks(lines: seq<string>)
  {
    forall j :: 0 <= j < |lines| ==> '\n' !in lines[j]
  }

  lemma NoBreaksAppend(a: seq<string>, b: seq<string>)
    requires NoBreaks(a) && NoBreaks(b)
    ensures NoBreaks(a + b)
  {
  }

  lemma {:induction false} TitleLinesSingle(titles: seq<string>)
    requires forall k :: 0 <= k < |titles| ==> '\n' !in titles[k]
    ensures NoBreaks(TitleLines(titles))
  {
    if titles != [] {
      TitleLinesSingle(titles[1..]);
      assert '\n' !in "  " + titles[0];
      NoBreaksAppend(["  " + titles[0]], TitleLines(titles[1..]));
    }
  }

  lemma SectionLinesSingle(key: string, titles: seq<string>)
    requires '\n' !in key && forall t :: t in titles ==> '\n' !in t
    ensures NoBreaks(SectionLines(key, titles))
  {
    var sorted := Sort(titles);
    CapitalizeKeepsNewlines(key);
    forall k | 0 <= k < |sorted|
      ensures '\n' !in sorted[k]
    {
      assert sorted[k] in multiset(sorted);
    }
    TitleLinesSingle(sorted);
    assert '\n' !in Capitalize(key) + ":";
    NoBreaksAppend([Capitalize(key) + ":"], TitleLines(sorted));
  }

  lemma {:induction false} ReportLinesSingle(categories: seq<string>, failed: map<string, seq<string>>)
    requires forall k :: k in categories ==> k in failed
    requires SingleLine(categories, failed)
    ensures NoBreaks(ReportLines(categories, failed))
  {
    if categories != [] {
      var key := categories[0];
      ReportLinesSingle(categories[1..], failed);
      SectionLinesSingle(key, failed[key]);
      NoBreaksAppend(SectionLines(key, failed[key]), ReportLines(categories[1..], failed));
    }
  }

  /**
   * Reading the report back line by line gives exactly its headers and
   * indented titles (and the empty remainder after the final line break).
   */
  lemma ReportReadsBack(categories: seq<string>, failed: map<string, seq<string>>)
    requires forall k :: k in categories ==> k in failed
    requires SingleLine(categories, failed)
    ensures Split(ReportText(categories, failed), '\n') == ReportLines(categories, failed) + [[]]
  {
    var lines := ReportLines(categories, failed);
    ReportTextIsLines(categories, failed);
    UnlinesIsJoin(lines);
    ReportLinesSingle(categories, failed);
    SplitJoin(lines + [[]], '\n');
  }

  /** One header line per category and one line per filed title. */
  lemma {:induction false} ReportLineCount(categories: seq<string>, failed: map<string, seq<string>>)
    requires forall k :: k in categories ==> k in failed
    ensures |ReportLines(categories, failed)| == |categories| + TotalFailed(categories, failed)
  {
    if categories != [] {
      var key := categories[0];
      ReportLineCount(categories[1..], failed);
      TitlesTextLines(Sort(failed[key]));
      assert |Sort(failed[key])| == |multiset(failed[key])|;
    }
  }

  /** For a finished audit the report has a line per failing category plus a line per mod not updatable. */
  lemma AuditReportSize(reg: Resolver.Registry, mods: seq<Manifest.ModEntry>, gameVersion: string, strategy: Resolver.Strategy)
    requires AuditOf(reg, mods, gameVersion, strategy).Success?
    ensures var r := AuditOf(reg, mods, gameVersion, strategy).value;
      (forall k :: k in r.categories ==> k in r.failed) &&
      |ReportLines(r.categories, r.failed)| == |r.categories| + r.modcount - r.updatable
  {
    var r := AuditOf(reg, mods, gameVersion, strategy).value;
    AuditPartition(reg, mods, gameVersion, strategy);
    ReportLineCount(r.categories, r.failed);
  }
}
