/**
 * The audit: both search strategies walk the manifest's `files` list,
 * skip disabled entries, count the rest, count the updatable ones and
 * file the title of every other one under its category.
 *
 * The searches are methods with the loop of `main.py`; what they compute is
 * pinned to the specification functions below (`Outcomes` and `Summary`),
 * about which the lemmas at the end state the audit's guarantees.
 */
module Audit {
  import opened Results
  import opened Manifest
  import opened Resolver

  /**
   * What a search returns: `modcount`, `updatable`, and the `failed`
   * dictionary, whose insertion order (the order categories first failed)
   * is kept in `categories`.
   */
  datatype AuditResult = AuditResult(modcount: nat, updatable: nat, failed: map<string, seq<string>>, categories: seq<string>)

  // ---------------------------------------------------------------------------
  // Specification

  /** The entries that are not disabled, in manifest order. */
  function Enabled(mods: seq<ModEntry>): seq<ModEntry>
  {
    if mods == [] then []
    else
      var last := mods[|mods| - 1];
      Enabled(mods[..|mods| - 1]) + if IsDisabled(last.path) then [] else [last]
  }

  /** `Enabled` keeps exactly the entries that are not disabled. */
  lemma {:induction false} EnabledMembers(mods: seq<ModEntry>)
    ensures forall e :: e in Enabled(mods) <==> e in mods && !IsDisabled(e.path)
  {
    if mods != [] {
      var init := mods[..|mods| - 1];
      EnabledMembers(init);
      assert mods == init + [mods[|mods| - 1]];
    }
  }

  /** The outcomes of the entries, in order; the first failing lookup ends the audit. */
  function Outcomes(reg: Registry, mods: seq<ModEntry>, gameVersion: string, strategy: Strategy): Result<seq<Outcome>, AuditError>
  {
    if mods == [] then Success([])
    else Extend(reg, Outcomes(reg, mods[..|mods| - 1], gameVersion, strategy), mods[|mods| - 1], gameVersion, strategy)
  }

  /** One loop iteration: skip a disabled entry, otherwise append its verdict or stop at its failure. */
  function Extend(reg: Registry, sofar: Result<seq<Outcome>, AuditError>, e: ModEntry, gameVersion: string, strategy: Strategy): Result<seq<Outcome>, AuditError>
  {
    match sofar
    case Failure(err) => Failure(err)
    case Success(os) =>
      if IsDisabled(e.path) then Success(os)
      else match Resolve(reg, e, gameVersion, strategy)
        case Failure(err) => Failure(err)
        case Success(o) => Success(os + [o])
  }

  /** Number of updatable outcomes. */
  function CountUpdatable(os: seq<Outcome>): nat
  {
    if os == [] then 0
    else CountUpdatable(os[..|os| - 1]) + if os[|os| - 1].updatable then 1 else 0
  }

  /** Titles of the failing outcomes of category `c`, in order. */
  function FailedTitles(os: seq<Outcome>, c: string): seq<string>
  {
    if os == [] then []
    else
      var o := os[|os| - 1];
      FailedTitles(os[..|os| - 1], c) + if !o.updatable && o.category == c then [o.title] else []
  }

  /** Categories of the failing outcomes, each once, in the order they first fail. */
  function FailedCategories(os: seq<Outcome>): seq<string>
  {
    if os == [] then []
    else
      var o := os[|os| - 1];
      var cs := FailedCategories(os[..|os| - 1]);
      if !o.updatable && o.category !in cs then cs + [o.category] else cs
  }

  /** The `failed` dictionary: each failing category with its failing titles. */
  function Buckets(os: seq<Outcome>): map<string, seq<string>>
  {
    map c | c in FailedCategories(os) :: FailedTitles(os, c)
  }

  function Summary(os: seq<Outcome>): AuditResult
  {
    AuditResult(|os|, CountUpdatable(os), Buckets(os), FailedCategories(os))
  }

  /** What a search over `mods` under `strategy` returns. */
  function AuditOf(reg: Registry, mods: seq<ModEntry>, gameVersion: string, strategy: Strategy): Result<AuditResult, AuditError>
  {
    match Outcomes(reg, mods, gameVersion, strategy)
    case Failure(err) => Failure(err)
    case Success(os) => Success(Summary(os))
  }

  /** Total number of titles over the given keys of a failure dictionary. */
  function TotalFailed(keys: seq<string>, failed: map<string, seq<string>>): nat
    requires forall k :: k in keys ==> k in failed
  {
    if keys == [] then 0 else |failed[keys[0]]| + TotalFailed(keys[1..], failed)
  }

  // ---------------------------------------------------------------------------
  // The searches

  /**
   * `main.py` lines 17-19 (and 49-51): piece 4 of the first download locator, then the
   * project metadata request. Every way this can raise becomes a Failure.
   */
  method FetchProject(reg: Registry, mod: ModEntry) returns (r: Result<string, AuditError>)
    ensures r == Locate(reg, mod)
    ensures r.Success? ==> r.value in reg.projects && ProjectId(mod.downloads[0]) == Some(r.value)
  {
    if |mod.downloads| == 0 {
      return Failure(MissingDownload(mod.path));
    }
    var id := ProjectId(mod.downloads[0]);
    if id.None? {
      return Failure(MalformedLocator(mod.downloads[0]));
    }
    if id.value !in reg.projects {
      return Failure(ProjectLookupFailed(id.value));
    }
    return Success(id.value);
  }

  /**
   * `fast_search`: a mod is updatable when its project lists the target
   * version. The loader argument is accepted and not used.
   */
  method FastSearch(reg: Registry, modlist: seq<ModEntry>, updateVersion: string, modLoader: Option<string>)
    returns (r: Result<AuditResult, AuditError>)
    ensures r == AuditOf(reg, modlist, updateVersion, Fast)
  {
    var modcount, updatable := 0, 0;
    var failed: map<string, seq<string>> := map[];
    var categories: seq<string> := [];
    ghost var os: seq<Outcome> := [];
    for i := 0 to |modlist|
      invariant Outcomes(reg, modlist[..i], updateVersion, Fast) == Success(os)
      invariant modcount == |os| && updatable == CountUpdatable(os)
      invariant failed == Buckets(os) && categories == FailedCategories(os)
    {
      var mod := modlist[i];
      if IsDisabled(mod.path) {
        OutcomesSkip(reg, modlist, i, updateVersion, Fast);
        continue;
      }
      modcount := modcount + 1;
      var id := FetchProject(reg, mod);
      if id.Failure? {
        r := Failure(id.error);
        OutcomesAbort(reg, modlist, i, updateVersion, Fast, id.error);
        return;
      }
      var modinfo := reg.projects[id.value];
      var category := Category(mod.path);
      ghost var o := Outcome(category, modinfo.title, updateVersion in modinfo.gameVersions);
      OutcomesExtend(reg, modlist, i, updateVersion, Fast, os, o);
      RecordOutcome(os, o, failed, categories);
      if updateVersion in modinfo.gameVersions {
        updatable := updatable + 1;
      } else {
        if category !in failed {
          failed := failed[category := []];
          categories := categories + [category];
        }
        failed := failed[category := failed[category] + [modinfo.title]];
      }
      assert (os + [o])[..|os|] == os;
      os := os + [o];
    }
    assert modlist[..|modlist|] == modlist;
    r := Success(AuditResult(modcount, updatable, failed, categories));
  }

  /**
   * `comprehensive_search`: for a `mods/` entry whose project lists the loader
   * and the version, a mod is updatable when some build lists both, scanning
   * the builds in the order `reverseSearch` picks; any other entry gets the
   * fast test. The result does not depend on `reverseSearch`.
   */
  method ComprehensiveSearch(reg: Registry, modlist: seq<ModEntry>, updateVersion: string, modLoader: string, reverseSearch: bool)
    returns (r: Result<AuditResult, AuditError>)
    ensures r == AuditOf(reg, modlist, updateVersion, Comprehensive(modLoader))
  {
    var modcount, updatable := 0, 0;
    var failed: map<string, seq<string>> := map[];
    var categories: seq<string> := [];
    ghost var os: seq<Outcome> := [];
    for i := 0 to |modlist|
      invariant Outcomes(reg, modlist[..i], updateVersion, Comprehensive(modLoader)) == Success(os)
      invariant modcount == |os| && updatable == CountUpdatable(os)
      invariant failed == Buckets(os) && categories == FailedCategories(os)
    {
      var found := false;
      var mod := modlist[i];
      if IsDisabled(mod.path) {
        OutcomesSkip(reg, modlist, i, updateVersion, Comprehensive(modLoader));
        continue;
      }
      modcount := modcount + 1;
      var id := FetchProject(reg, mod);
      if id.Failure? {
        r := Failure(id.error);
        OutcomesAbort(reg, modlist, i, updateVersion, Comprehensive(modLoader), id.error);
        return;
      }
      var modinfo := reg.projects[id.value];
      var title := modinfo.title;
      var category := Category(mod.path);
      var verdict := JudgeComprehensive(reg, mod, id.value, updateVersion, modLoader, reverseSearch);
      if verdict.Failure? {
        r := Failure(verdict.error);
        OutcomesAbort(reg, modlist, i, updateVersion, Comprehensive(modLoader), verdict.error);
        return;
      }
      found := verdict.value;
      if found {
        updatable := updatable + 1;
      }
      ghost var o := Outcome(category, title, found);
      OutcomesExtend(reg, modlist, i, updateVersion, Comprehensive(modLoader), os, o);
      RecordOutcome(os, o, failed, categories);
      if !found {
        if category !in failed {
          failed := failed[category := []];
          categories := categories + [category];
        }
        failed := failed[category := failed[category] + [title]];
      }
      assert (os + [o])[..|os|] == os;
      os := os + [o];
    }
    assert modlist[..|modlist|] == modlist;
    r := Success(AuditResult(modcount, updatable, failed, categories));
  }

  /**
   * `main.py` lines 20-34: the comprehensive verdict on one mod whose
   * project metadata was fetched; the version list is requested only for a
   * `mods/` entry whose project lists both the loader and the version.
   */
  method JudgeComprehensive(reg: Registry, mod: ModEntry, id: string, updateVersion: string, modLoader: string, reverseSearch: bool)
    returns (r: Result<bool, AuditError>)
    requires Locate(reg, mod) == Success(id)
    ensures r.Failure? ==> Resolve(reg, mod, updateVersion, Comprehensive(modLoader)) == Failure(r.error)
    ensures r.Success? ==>
      Resolve(reg, mod, updateVersion, Comprehensive(modLoader)) == Success(Outcome(Category(mod.path), reg.projects[id].title, r.value))
  {
    var modinfo := reg.projects[id];
    if Category(mod.path) == "mods" && modLoader in modinfo.loaders && updateVersion in modinfo.gameVersions {
      if id !in reg.versions {
        return Failure(VersionsLookupFailed(id));
      }
      var found := ScanVersions(reg.versions[id], updateVersion, modLoader, reverseSearch);
      return Success(found);
    }
    return Success(updateVersion in modinfo.gameVersions);
  }

  /** The run: comprehensive search when a loader was given, fast search otherwise. */
  method RunAudit(reg: Registry, modlist: seq<ModEntry>, updateVersion: string, modLoader: Option<string>, reverseSearch: bool)
    returns (r: Result<AuditResult, AuditError>)
    ensures modLoader.Some? ==> r == AuditOf(reg, modlist, updateVersion, Comprehensive(modLoader.value))
    ensures modLoader.None? ==> r == AuditOf(reg, modlist, updateVersion, Fast)
  {
    if modLoader.Some? {
      r := ComprehensiveSearch(reg, modlist, updateVersion, modLoader.value, reverseSearch);
    } else {
      r := FastSearch(reg, modlist, updateVersion, modLoader);
    }
  }

  // ---------------------------------------------------------------------------
  // Lemmas the searches need

  /** A disabled entry leaves the outcomes as they were. */
  lemma OutcomesSkip(reg: Registry, mods: seq<ModEntry>, i: nat, gameVersion: string, strategy: Strategy)
    requires i < |mods| && IsDisabled(mods[i].path)
    ensures Outcomes(reg, mods[..i + 1], gameVersion, strategy) == Outcomes(reg, mods[..i], gameVersion, strategy)
  {
    assert mods[..i + 1][..i] == mods[..i];
  }

  /** A counted entry appends its outcome. */
  lemma OutcomesExtend(reg: Registry, mods: seq<ModEntry>, i: nat, gameVersion: string, strategy: Strategy, os: seq<Outcome>, o: Outcome)
    requires i < |mods| && !IsDisabled(mods[i].path)
    requires Outcomes(reg, mods[..i], gameVersion, strategy) == Success(os)
    requires Resolve(reg, mods[i], gameVersion, strategy) == Success(o)
    ensures Outcomes(reg, mods[..i + 1], gameVersion, strategy) == Success(os + [o])
  {
    assert mods[..i + 1][..i] == mods[..i];
  }

  /** A counted entry whose lookups fail ends the audit with that failure. */
  lemma OutcomesAbort(reg: Registry, mods: seq<ModEntry>, i: nat, gameVersion: string, strategy: Strategy, err: AuditError)
    requires i < |mods| && !IsDisabled(mods[i].path)
    requires Outcomes(reg, mods[..i], gameVersion, strategy).Success?
    requires Resolve(reg, mods[i], gameVersion, strategy) == Failure(err)
    ensures Outcomes(reg, mods, gameVersion, strategy) == Failure(err)
  {
    assert mods[..i + 1][..i] == mods[..i];
    FailureIsFinal(reg, mods, i + 1, gameVersion, strategy);
  }

  /** An audit that failed on a prefix of the manifest fails the same way on the whole. */
  lemma {:induction false} FailureIsFinal(reg: Registry, mods: seq<ModEntry>, n: nat, gameVersion: string, strategy: Strategy)
    requires n <= |mods| && Outcomes(reg, mods[..n], gameVersion, strategy).Failure?
    ensures Outcomes(reg, mods, gameVersion, strategy) == Outcomes(reg, mods[..n], gameVersion, strategy)
    decreases |mods| - n
  {
    if n < |mods| {
      assert mods[..|mods| - 1][..n] == mods[..n];
      FailureIsFinal(reg, mods[..|mods| - 1], n, gameVersion, strategy);
    } else {
      assert mods[..n] == mods;
    }
  }

  /** A category is listed exactly when some outcome of it failed. */
  lemma {:induction false} CategoriesListFailures(os: seq<Outcome>, c: string)
    ensures c in FailedCategories(os) <==> FailedTitles(os, c) != []
  {
    if os != [] {
      CategoriesListFailures(os[..|os| - 1], c);
    }
  }

  predicate Distinct(cs: seq<string>)
  {
    forall i, j :: 0 <= i < j < |cs| ==> cs[i] != cs[j]
  }

  /** No category is listed twice. */
  lemma {:induction false} CategoriesDistinct(os: seq<Outcome>)
    ensures Distinct(FailedCategories(os))
  {
    if os != [] {
      var init := os[..|os| - 1];
      CategoriesDistinct(init);
      var cs := FailedCategories(init);
      var cs' := FailedCategories(os);
      var o := os[|os| - 1];
      if !o.updatable && o.category !in cs {
        assert cs' == cs + [o.category];
        forall i, j | 0 <= i < j < |cs'|
          ensures cs'[i] != cs'[j]
        {
          if j == |cs| {
            assert cs'[i] == cs[i] && cs'[j] == o.category;
          } else {
            assert cs'[i] == cs[i] && cs'[j] == cs[j];
          }
        }
      }
    }
  }

  /** `main.py` lines 36-38 keep the failure dictionary equal to `Buckets`. */
  lemma RecordOutcome(os: seq<Outcome>, o: Outcome, failed: map<string, seq<string>>, categories: seq<string>)
    requires failed == Buckets(os) && categories == FailedCategories(os)
    ensures o.updatable ==> Buckets(os + [o]) == failed && FailedCategories(os + [o]) == categories
    ensures !o.updatable ==>
      var created := if o.category in failed then failed else failed[o.category := []];
      Buckets(os + [o]) == created[o.category := created[o.category] + [o.title]]
    ensures !o.updatable ==>
      FailedCategories(os + [o]) == if o.category in failed then categories else categories + [o.category]
  {
    BucketsSnoc(os, o);
    assert (os + [o])[..|os|] == os;
  }

  /** How one more outcome changes the failure dictionary: `main.py` lines 36-38. */
  lemma BucketsSnoc(os: seq<Outcome>, o: Outcome)
    ensures var b := Buckets(os);
      Buckets(os + [o]) ==
        if o.updatable then b
        else b[o.category := (if o.category in b then b[o.category] else []) + [o.title]]
  {
    var os' := os + [o];
    assert os'[..|os|] == os;
    CategoriesListFailures(os, o.category);
    var b := Buckets(os);
    var b' := Buckets(os');
    if !o.updatable {
      var expected := b[o.category := (if o.category in b then b[o.category] else []) + [o.title]];
      assert b'.Keys == expected.Keys;
      forall c | c in b'
        ensures b'[c] == expected[c]
      {
      }
    } else {
      assert b'.Keys == b.Keys;
      forall c | c in b'
        ensures b'[c] == b[c]
      {
      }
    }
  }

  // ---------------------------------------------------------------------------
  // What the audit guarantees

  lemma {:induction false} EnabledAppend(a: seq<ModEntry>, b: seq<ModEntry>)
    ensures Enabled(a + b) == Enabled(a) + Enabled(b)
  {
    if b == [] {
      assert a + b == a;
    } else {
      var b' := b[..|b| - 1];
      assert (a + b)[..|a + b| - 1] == a + b';
      assert (a + b)[|a + b| - 1] == b[|b| - 1];
      EnabledAppend(a, b');
    }
  }

  /** The outcomes depend only on the entries that are not disabled. */
  lemma {:induction false} OutcomesOfEnabled(reg: Registry, mods: seq<ModEntry>, gameVersion: string, strategy: Strategy)
    ensures Outcomes(reg, mods, gameVersion, strategy) == Outcomes(reg, Enabled(mods), gameVersion, strategy)
  {
    if mods != [] {
      var init := mods[..|mods| - 1];
      var last := mods[|mods| - 1];
      OutcomesOfEnabled(reg, init, gameVersion, strategy);
      var en := Enabled(init);
      assert Outcomes(reg, mods, gameVersion, strategy) == Extend(reg, Outcomes(reg, en, gameVersion, strategy), last, gameVersion, strategy);
      if !IsDisabled(last.path) {
        assert Enabled(mods) == en + [last];
        assert (en + [last])[..|en|] == en;
        assert Outcomes(reg, en + [last], gameVersion, strategy) == Extend(reg, Outcomes(reg, en, gameVersion, strategy), last, gameVersion, strategy);
      } else {
        assert Enabled(mods) == en;
        assert Extend(reg, Outcomes(reg, en, gameVersion, strategy), last, gameVersion, strategy) == Outcomes(reg, en, gameVersion, strategy);
      }
    }
  }

  /**
   * A disabled entry anywhere in the manifest is not counted, not looked up
   * (even a malformed locator in it raises nothing) and never filed as failed:
   * the audit is that of the manifest without it.
   */
  lemma DisabledEntryIgnored(reg: Registry, a: seq<ModEntry>, d: ModEntry, b: seq<ModEntry>, gameVersion: string, strategy: Strategy)
    requires IsDisabled(d.path)
    ensures AuditOf(reg, a + [d] + b, gameVersion, strategy) == AuditOf(reg, a + b, gameVersion, strategy)
  {
    var with := a + [d] + b;
    EnabledAppend(a + [d], b);
    EnabledAppend(a, [d]);
    EnabledAppend(a, b);
    assert [d][..0] == [];
    assert Enabled([d]) == Enabled([]) + [];
    assert Enabled(with) == Enabled(a + b);
    OutcomesOfEnabled(reg, with, gameVersion, strategy);
    OutcomesOfEnabled(reg, a + b, gameVersion, strategy);
    assert Outcomes(reg, with, gameVersion, strategy) == Outcomes(reg, a + b, gameVersion, strategy);
  }

  /** A successful audit has one outcome per enabled entry: that entry's verdict. */
  lemma {:induction false} OutcomesAreVerdicts(reg: Registry, mods: seq<ModEntry>, gameVersion: string, strategy: Strategy)
    requires Outcomes(reg, mods, gameVersion, strategy).Success?
    ensures var os := Outcomes(reg, mods, gameVersion, strategy).value; var en := Enabled(mods);
      |os| == |en| && forall k :: 0 <= k < |en| ==> Resolve(reg, en[k], gameVersion, strategy) == Success(os[k])
  {
    if mods != [] {
      var init := mods[..|mods| - 1];
      var last := mods[|mods| - 1];
      OutcomesAreVerdicts(reg, init, gameVersion, strategy);
    }
  }

  /** A failed audit reports the failure of the first enabled entry whose lookups fail. */
  lemma {:induction false} FirstFailureReported(reg: Registry, mods: seq<ModEntry>, gameVersion: string, strategy: Strategy)
    requires Outcomes(reg, mods, gameVersion, strategy).Failure?
    ensures var en := Enabled(mods);
      exists k :: 0 <= k < |en| && Resolve(reg, en[k], gameVersion, strategy) == Failure(Outcomes(reg, mods, gameVersion, strategy).error)
        && forall j :: 0 <= j < k ==> Resolve(reg, en[j], gameVersion, strategy).Success?
  {
    var init := mods[..|mods| - 1];
    var last := mods[|mods| - 1];
    var en := Enabled(init);
    var sofar := Outcomes(reg, init, gameVersion, strategy);
    var err := Outcomes(reg, mods, gameVersion, strategy).error;
    assert Outcomes(reg, mods, gameVersion, strategy) == Extend(reg, sofar, last, gameVersion, strategy);
    if sofar.Failure? {
      assert sofar.error == err;
      FirstFailureReported(reg, init, gameVersion, strategy);
      var k :| 0 <= k < |en| && Resolve(reg, en[k], gameVersion, strategy) == Failure(err)
        && forall j :: 0 <= j < k ==> Resolve(reg, en[j], gameVersion, strategy).Success?;
      assert Enabled(mods)[..|en|] == en;
      assert Enabled(mods)[k] == en[k];
    } else {
      assert !IsDisabled(last.path);
      assert Resolve(reg, last, gameVersion, strategy) == Failure(err);
      OutcomesAreVerdicts(reg, init, gameVersion, strategy);
      assert Enabled(mods) == en + [last];
      assert Enabled(mods)[|en|] == last;
    }
  }

  /**
   * The audit succeeds exactly when every enabled entry can be looked up,
   * and then `modcount` is the number of enabled entries.
   */
  lemma AuditCountsEnabled(reg: Registry, mods: seq<ModEntry>, gameVersion: string, strategy: Strategy)
    ensures AuditOf(reg, mods, gameVersion, strategy).Success? <==>
      forall k :: 0 <= k < |Enabled(mods)| ==> Resolve(reg, Enabled(mods)[k], gameVersion, strategy).Success?
    ensures AuditOf(reg, mods, gameVersion, strategy).Success? ==>
      AuditOf(reg, mods, gameVersion, strategy).value.modcount == |Enabled(mods)|
  {
    if Outcomes(reg, mods, gameVersion, strategy).Success? {
      OutcomesAreVerdicts(reg, mods, gameVersion, strategy);
    } else {
      FirstFailureReported(reg, mods, gameVersion, strategy);
    }
  }

  /** Sum over the keys of the number of failing titles under each. */
  function SumTitles(keys: seq<string>, os: seq<Outcome>): nat
  {
    if keys == [] then 0 else |FailedTitles(os, keys[0])| + SumTitles(keys[1..], os)
  }

  lemma {:induction false} SumTitlesAppendKey(keys: seq<string>, k: string, os: seq<Outcome>)
    ensures SumTitles(keys + [k], os) == SumTitles(keys, os) + |FailedTitles(os, k)|
  {
    if keys != [] {
      assert (keys + [k])[1..] == keys[1..] + [k];
      SumTitlesAppendKey(keys[1..], k, os);
    }
  }

  /** One more outcome adds one title under its category when it failed, none otherwise. */
  lemma {:induction false} SumTitlesSnoc(keys: seq<string>, os: seq<Outcome>, o: Outcome)
    requires Distinct(keys)
    ensures SumTitles(keys, os + [o]) == SumTitles(keys, os) + if !o.updatable && o.category in keys then 1 else 0
  {
    if keys != [] {
      assert (os + [o])[..|os|] == os;
      assert Distinct(keys[1..]) by {
        forall i, j | 0 <= i < j < |keys| - 1 ensures keys[1..][i] != keys[1..][j] {
          assert keys[1..][i] == keys[i + 1] && keys[1..][j] == keys[j + 1];
        }
      }
      SumTitlesSnoc(keys[1..], os, o);
      if o.category == keys[0] {
        assert o.category !in keys[1..] by {
          forall j | 0 <= j < |keys| - 1 ensures keys[1..][j] != keys[0] {
            assert keys[1..][j] == keys[j + 1];
          }
        }
      } else {
        assert o.category in keys <==> o.category in keys[1..] by {
          assert keys == [keys[0]] + keys[1..];
        }
      }
    }
  }

  /** Every counted outcome is either updatable or one title in the failure buckets. */
  lemma {:induction false} OutcomesPartition(os: seq<Outcome>)
    ensures CountUpdatable(os) + SumTitles(FailedCategories(os), os) == |os|
  {
    if os != [] {
      var init := os[..|os| - 1];
      var o := os[|os| - 1];
      assert os == init + [o];
      var cs := FailedCategories(init);
      OutcomesPartition(init);
      CategoriesDistinct(init);
      SumTitlesSnoc(cs, init, o);
      if !o.updatable && o.category !in cs {
        SumTitlesAppendKey(cs, o.category, os);
        CategoriesListFailures(init, o.category);
      }
    }
  }

  lemma {:induction false} TotalFailedIsSum(keys: seq<string>, os: seq<Outcome>)
    requires forall k :: k in keys ==> k in FailedCategories(os)
    ensures forall k :: k in keys ==> k in Buckets(os)
    ensures TotalFailed(keys, Buckets(os)) == SumTitles(keys, os)
  {
    if keys != [] {
      TotalFailedIsSum(keys[1..], os);
    }
  }

  /**
   * Every counted mod lands in exactly one place: `updatable` plus the number
   * of titles over all failure buckets is `modcount`.
   */
  lemma AuditPartition(reg: Registry, mods: seq<ModEntry>, gameVersion: string, strategy: Strategy)
    requires AuditOf(reg, mods, gameVersion, strategy).Success?
    ensures var r := AuditOf(reg, mods, gameVersion, strategy).value;
      (forall c :: c in r.categories ==> c in r.failed) &&
      r.updatable + TotalFailed(r.categories, r.failed) == r.modcount &&
      r.updatable <= r.modcount
  {
    var os := Outcomes(reg, mods, gameVersion, strategy).value;
    OutcomesPartition(os);
    TotalFailedIsSum(FailedCategories(os), os);
  }

  lemma {:induction false} FailedTitlesGrow(os: seq<Outcome>, more: seq<Outcome>, c: string)
    ensures FailedTitles(os, c) <= FailedTitles(os + more, c)
    ensures FailedCategories(os) <= FailedCategories(os + more)
    ensures CountUpdatable(os) <= CountUpdatable(os + more)
  {
    if more == [] {
      assert os + more == os;
    } else {
      var more' := more[..|more| - 1];
      assert (os + more)[..|os + more| - 1] == os + more';
      FailedTitlesGrow(os, more', c);
    }
  }

  /** The failing title of an outcome sits in its category's bucket. */
  lemma {:induction false} FailureFiled(os: seq<Outcome>, k: nat)
    requires k < |os| && !os[k].updatable
    ensures os[k].title in FailedTitles(os, os[k].category)
  {
    var init := os[..|os| - 1];
    if k < |os| - 1 {
      FailureFiled(init, k);
      assert os == init + [os[|os| - 1]];
      FailedTitlesGrow(init, [os[|os| - 1]], os[k].category);
    }
  }

  /** A title in a bucket comes from a failing outcome of that very category. */
  lemma {:induction false} FiledFromFailure(os: seq<Outcome>, c: string, t: string)
    requires t in FailedTitles(os, c)
    ensures exists k :: 0 <= k < |os| && os[k] == Outcome(c, t, false)
  {
    var init := os[..|os| - 1];
    if t in FailedTitles(init, c) {
      FiledFromFailure(init, c, t);
      var k :| 0 <= k < |init| && init[k] == Outcome(c, t, false);
      assert os[k] == init[k];
    }
  }

  /**
   * The failure dictionary: its keys are listed once each in insertion order,
   * every bucket is non-empty, the title of every enabled entry that is not
   * updatable is in the bucket of its category, and nothing else is.
   */
  lemma FailuresByCategory(reg: Registry, mods: seq<ModEntry>, gameVersion: string, strategy: Strategy)
    requires AuditOf(reg, mods, gameVersion, strategy).Success?
    ensures var r := AuditOf(reg, mods, gameVersion, strategy).value;
      Distinct(r.categories) && (forall c :: c in r.failed <==> c in r.categories) &&
      (forall c :: c in r.failed ==> r.failed[c] != [])
    ensures var r := AuditOf(reg, mods, gameVersion, strategy).value; var en := Enabled(mods);
      forall k ::
        (0 <= k < |en| && Resolve(reg, en[k], gameVersion, strategy).Success? &&
         !Resolve(reg, en[k], gameVersion, strategy).value.updatable) ==>
        var o := Resolve(reg, en[k], gameVersion, strategy).value;
        o.category in r.failed && o.title in r.failed[o.category]
    ensures var r := AuditOf(reg, mods, gameVersion, strategy).value; var en := Enabled(mods);
      forall c, t :: c in r.failed && t in r.failed[c] ==>
        exists k :: 0 <= k < |en| && Resolve(reg, en[k], gameVersion, strategy) == Success(Outcome(c, t, false))
  {
    var os := Outcomes(reg, mods, gameVersion, strategy).value;
    var en := Enabled(mods);
    var r := Summary(os);
    OutcomesAreVerdicts(reg, mods, gameVersion, strategy);
    CategoriesDistinct(os);
    forall c | c in r.failed
      ensures r.failed[c] != []
    {
      CategoriesListFailures(os, c);
    }
    forall k | 0 <= k < |en| && Resolve(reg, en[k], gameVersion, strategy).Success? &&
        !Resolve(reg, en[k], gameVersion, strategy).value.updatable
      ensures os[k].category in r.failed && os[k].title in r.failed[os[k].category]
    {
      FailureFiled(os, k);
      CategoriesListFailures(os, os[k].category);
    }
    forall c, t | c in r.failed && t in r.failed[c]
      ensures exists k :: 0 <= k < |en| && Resolve(reg, en[k], gameVersion, strategy) == Success(Outcome(c, t, false))
    {
      FiledFromFailure(os, c, t);
    }
  }

  lemma {:induction false} OutcomesOfPrefix(reg: Registry, a: seq<ModEntry>, b: seq<ModEntry>, gameVersion: string, strategy: Strategy)
    requires Outcomes(reg, a + b, gameVersion, strategy).Success?
    ensures Outcomes(reg, a, gameVersion, strategy).Success?
    ensures Outcomes(reg, a, gameVersion, strategy).value <= Outcomes(reg, a + b, gameVersion, strategy).value
  {
    if b == [] {
      assert a + b == a;
    } else {
      var b' := b[..|b| - 1];
      assert (a + b)[..|a + b| - 1] == a + b';
      OutcomesOfPrefix(reg, a, b', gameVersion, strategy);
    }
  }

  /**
   * Titles keep manifest order: auditing more of the manifest only appends,
   * to the category list and to each bucket, and never lowers a count.
   */
  lemma AuditOnlyAppends(reg: Registry, a: seq<ModEntry>, b: seq<ModEntry>, gameVersion: string, strategy: Strategy)
    requires AuditOf(reg, a + b, gameVersion, strategy).Success?
    ensures AuditOf(reg, a, gameVersion, strategy).Success?
    ensures var r1 := AuditOf(reg, a, gameVersion, strategy).value;
      var r2 := AuditOf(reg, a + b, gameVersion, strategy).value;
      r1.modcount <= r2.modcount && r1.updatable <= r2.updatable && r1.categories <= r2.categories &&
      forall c :: c in r1.failed ==> c in r2.failed && r1.failed[c] <= r2.failed[c]
  {
    OutcomesOfPrefix(reg, a, b, gameVersion, strategy);
    var os1 := Outcomes(reg, a, gameVersion, strategy).value;
    var os2 := Outcomes(reg, a + b, gameVersion, strategy).value;
    var more := os2[|os1|..];
    assert os2 == os1 + more;
    FailedTitlesGrow(os1, more, "");
    forall c | c in Buckets(os1)
      ensures c in Buckets(os2) && Buckets(os1)[c] <= Buckets(os2)[c]
    {
      FailedTitlesGrow(os1, more, c);
    }
  }

  /**
   * Comprehensive mode counts the same mods as fast mode and never finds
   * more of them updatable.
   */
  lemma {:induction false} ComprehensiveNoMorePermissive(reg: Registry, mods: seq<ModEntry>, gameVersion: string, loader: string)
    requires AuditOf(reg, mods, gameVersion, Comprehensive(loader)).Success?
    ensures AuditOf(reg, mods, gameVersion, Fast).Success?
    ensures var c := AuditOf(reg, mods, gameVersion, Comprehensive(loader)).value;
      var f := AuditOf(reg, mods, gameVersion, Fast).value;
      c.modcount == f.modcount && c.updatable <= f.updatable
  {
    if mods != [] {
      var init := mods[..|mods| - 1];
      var last := mods[|mods| - 1];
      ComprehensiveNoMorePermissive(reg, init, gameVersion, loader);
      if !IsDisabled(last.path) {
        ComprehensiveStricter(reg, last, gameVersion, loader);
        var oc := Outcomes(reg, init, gameVersion, Comprehensive(loader)).value;
        var of := Outcomes(reg, init, gameVersion, Fast).value;
        var c := Resolve(reg, last, gameVersion, Comprehensive(loader)).value;
        var f := Resolve(reg, last, gameVersion, Fast).value;
        assert (oc + [c])[..|oc|] == oc;
        assert (of + [f])[..|of|] == of;
      }
    }
  }

  /** On a manifest with no enabled `mods/` entry, the two strategies agree on everything. */
  lemma {:induction false} OffPrimaryStrategiesAgree(reg: Registry, mods: seq<ModEntry>, gameVersion: string, loader: string)
    requires forall e :: e in mods && !IsDisabled(e.path) ==> Category(e.path) != "mods"
    ensures Outcomes(reg, mods, gameVersion, Comprehensive(loader)) == Outcomes(reg, mods, gameVersion, Fast)
    ensures AuditOf(reg, mods, gameVersion, Comprehensive(loader)) == AuditOf(reg, mods, gameVersion, Fast)
  {
    if mods != [] {
      var init := mods[..|mods| - 1];
      var last := mods[|mods| - 1];
      OffPrimaryStrategiesAgree(reg, init, gameVersion, loader);
      var sofar := Outcomes(reg, init, gameVersion, Fast);
      assert Outcomes(reg, init, gameVersion, Comprehensive(loader)) == sofar;
      assert Outcomes(reg, mods, gameVersion, Fast) == Extend(reg, sofar, last, gameVersion, Fast);
      assert Outcomes(reg, mods, gameVersion, Comprehensive(loader)) == Extend(reg, sofar, last, gameVersion, Comprehensive(loader));
      assert last in mods;
      if !IsDisabled(last.path) && Locate(reg, last).Success? {
        ComprehensiveFallback(reg, last, gameVersion, loader);
      }
    }
  }
}
