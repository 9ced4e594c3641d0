/** The CSS discovery analysis: find every plugin's `aceEditorCSS` hook,
    run each provider in isolation from the others' failures, normalise the
    paths it returns, and split them into files to bundle and external
    references. Loading and running a provider is foreign code, so it is a
    parameter: `None` stands for a provider that failed to load or threw. */
module CssBundler {
  import opened Wrappers
  import opened Strings
  import opened Sequences
  import opened Hooks

  /** The hook whose provider lists a plugin's CSS files. */
  const CssHookName := "aceEditorCSS"

  /** Loads the module and walks the chain `loadFn` resolved, calls the
      function found there and returns the CSS paths it lists, or `None` when
      any of that throws. */
  type CssProvider = HookTarget -> Option<seq<string>>

  // ---------------------------------------------------------------------------
  // Finding the providers
  // ---------------------------------------------------------------------------

  /** The `aceEditorCSS` declaration of every map that has one, in map order
      (`_.compact` also drops an empty declaration, which is falsy). */
  function CssHookDeclarations(maps: seq<HookMap>): (decls: seq<string>)
    ensures |decls| <= |maps|
    ensures forall d :: d in decls <==>
      d != "" && exists i :: 0 <= i < |maps| && Lookup(maps[i], CssHookName) == Some(d)
  {
    if |maps| == 0 then []
    else
      var rest := CssHookDeclarations(maps[1..]);
      assert forall i :: 0 < i < |maps| ==> maps[1..][i - 1] == maps[i];
      match Lookup(maps[0], CssHookName)
      case Some(d) => if d != "" then [d] + rest else rest
      case None => rest
  }

  /** Finding declarations distributes over concatenation of the map list,
      so they come in map order. */
  lemma {:induction false} CssHookDeclarationsAppend(a: seq<HookMap>, b: seq<HookMap>)
    ensures CssHookDeclarations(a + b) == CssHookDeclarations(a) + CssHookDeclarations(b)
    decreases |a|
  {
    if |a| > 0 {
      assert (a + b)[0] == a[0];
      assert (a + b)[1..] == a[1..] + b;
      CssHookDeclarationsAppend(a[1..], b);
    } else {
      assert a + b == b;
    }
  }

  // ---------------------------------------------------------------------------
  // Cleaning and classifying paths
  // ---------------------------------------------------------------------------

  /** A path that starts with exactly one '/' loses it; every other path,
      including the scheme-relative `//host/...`, is kept as is. Afterwards a
      path starts with '/' only if it starts with "//". */
  function StripLeadingSlash(f: string): (c: string)
    ensures StartsWith(f, "/") && !StartsWith(f, "//") ==> f == "/" + c
    ensures !(StartsWith(f, "/") && !StartsWith(f, "//")) ==> c == f
    ensures StartsWith(c, "/") ==> StartsWith(c, "//")
  {
    if StartsWith(f, "/") && !StartsWith(f, "//") then
      assert f == "/" + f[1..];
      f[1..]
    else f
  }

  /** Cleaning a cleaned path changes nothing. */
  lemma StripLeadingSlashIdempotent(f: string)
    ensures StripLeadingSlash(StripLeadingSlash(f)) == StripLeadingSlash(f)
  {
  }

  /** The optional group `(https?:)` of the external-file pattern, matched
      greedily at the start of `f` with backtracking on the optional 's': the
      rest of `f` after the group, or `None` when the group cannot match. */
  function MatchSchemeGroup(f: string): Option<string> {
    if !StartsWith(f, "http") then None
    else if StartsWith(f[4..], "s:") then Some(f[6..])
    else if StartsWith(f[4..], ":") then Some(f[5..])
    else None
  }

  /** `/^(https?:)?\/\//.test(f)`: the optional group, when it matches, must be
      followed by "//"; otherwise the pattern is tried without the group. */
  predicate MatchesExternalPattern(f: string) {
    var afterGroup := MatchSchemeGroup(f);
    (afterGroup.Some? && StartsWith(afterGroup.value, "//")) || StartsWith(f, "//")
  }

  /** An external reference: scheme-relative, or an absolute http or https URL. */
  predicate IsExternal(f: string) {
    StartsWith(f, "//") || StartsWith(f, "http://") || StartsWith(f, "https://")
  }

  /** The pattern matches exactly the three external prefixes. */
  lemma ExternalPatternMeaning(f: string)
    ensures MatchesExternalPattern(f) <==> IsExternal(f)
  {
    if StartsWith(f, "http") {
      assert f == "http" + f[4..];
      if StartsWith(f[4..], "s:") {
        assert f[..6] == "https:" && f[6..] == f[4..][2..];
        StartsWithAppend(f, "https:", "//");
        assert "https:" + "//" == "https://";
        assert !StartsWith(f, "http://") by {
          assert f[4] == 's';
        }
      } else if StartsWith(f[4..], ":") {
        assert f[..5] == "http:" && f[5..] == f[4..][1..];
        StartsWithAppend(f, "http:", "//");
        assert "http:" + "//" == "http://";
        assert !StartsWith(f, "https://") by {
          assert f[4] == ':';
        }
      } else {
        assert !StartsWith(f, "http://") && !StartsWith(f, "https://") by {
          assert |f| > 4 ==> f[4] != ':';
          assert |f| > 5 ==> (f[4] != 's' || f[5] != ':');
        }
      }
    } else {
      StartsWithShorter(f, "http", "://");
      StartsWithShorter(f, "http", "s://");
    }
  }

  // ---------------------------------------------------------------------------
  // Running the providers
  // ---------------------------------------------------------------------------

  /** Every path of a provider's list with a single leading slash removed,
      in order. */
  function CleanPaths(files: seq<string>): (r: seq<string>)
    ensures |r| == |files|
    ensures forall k :: 0 <= k < |r| ==> StartsWith(r[k], "/") ==> StartsWith(r[k], "//")
    ensures forall k :: 0 <= k < |r| ==> r[k] == StripLeadingSlash(files[k])
  {
    seq(|files|, k requires 0 <= k < |files| => StripLeadingSlash(files[k]))
  }

  /** One provider's contribution: load the function `loadFn` resolves for the
      declaration (defaulting to the `aceEditorCSS` export), run it, and clean
      the paths it returns; `None` when that fails. */
  function LoadCssFiles(decl: string, load: CssProvider): Option<seq<string>> {
    match load(ResolveHookPath(decl, CssHookName))
    case None => None
    case Some(files) => Some(CleanPaths(files))
  }

  /** The files collected from the providers that ran and the declarations
      of those that failed, each in declaration order. */
  datatype Collected = Collected(files: seq<string>, skipped: seq<string>)

  /** The providers as the loader sees them: each declaration either fails
      or yields its cleaned files. */
  function Providers(load: CssProvider): string -> Option<seq<string>> {
    decl => LoadCssFiles(decl, load)
  }

  /** The `map` with `try`/`catch` followed by `flatten`, one provider at a
      time: a failing provider adds its declaration to the skipped list and no
      files; the others add their files. */
  function RunProviders(decls: seq<string>, run: string -> Option<seq<string>>): Collected {
    if |decls| == 0 then Collected([], [])
    else
      var rest := RunProviders(decls[1..], run);
      match run(decls[0])
      case None => Collected(rest.files, [decls[0]] + rest.skipped)
      case Some(files) => Collected(files + rest.files, rest.skipped)
  }

  /** Failure isolation: what a list of providers yields is what each part
      of the list yields on its own, concatenated. */
  lemma {:induction false} RunProvidersAppend(a: seq<string>, b: seq<string>, run: string -> Option<seq<string>>)
    ensures var ra, rb := RunProviders(a, run), RunProviders(b, run);
      RunProviders(a + b, run) == Collected(ra.files + rb.files, ra.skipped + rb.skipped)
    decreases |a|
  {
    if |a| > 0 {
      assert (a + b)[0] == a[0];
      assert (a + b)[1..] == a[1..] + b;
      RunProvidersAppend(a[1..], b, run);
      var ra, rb := RunProviders(a[1..], run), RunProviders(b, run);
      match run(a[0])
      case None =>
        assert [a[0]] + (ra.skipped + rb.skipped) == ([a[0]] + ra.skipped) + rb.skipped;
      case Some(files) =>
        assert files + (ra.files + rb.files) == (files + ra.files) + rb.files;
    } else {
      assert a + b == b;
    }
  }

  /** A single provider either fails, adding its declaration and no files,
      or runs, adding exactly its files. */
  lemma RunOneProvider(decl: string, run: string -> Option<seq<string>>)
    ensures run(decl).None? ==> RunProviders([decl], run) == Collected([], [decl])
    ensures run(decl).Some? ==> RunProviders([decl], run) == Collected(run(decl).value, [])
  {
    assert [decl][1..] == [];
    assert RunProviders([decl][1..], run) == Collected([], []);
    match run(decl)
    case None =>
      assert [decl] + [] == [decl];
    case Some(files) =>
      assert files + [] == files;
  }

  /** What each provider contributes, in declaration order: its files, or
      nothing when it fails. */
  function ProviderOutputs(decls: seq<string>, run: string -> Option<seq<string>>): seq<seq<string>> {
    seq(|decls|, k requires 0 <= k < |decls| => run(decls[k]).GetOr([]))
  }

  /** Whether the provider of a declaration fails. */
  function Fails(run: string -> Option<seq<string>>): string -> bool {
    d => run(d).None?
  }

  /** What the providers yield, against an independent description: the
      files are every provider's output concatenated in declaration order,
      the skipped list is the declarations whose provider failed, in order;
      hence a declaration is skipped exactly when its provider fails, every
      file comes from a provider that ran, and every file of a provider that
      ran is collected. */
  lemma {:induction false} RunProvidersContents(decls: seq<string>, run: string -> Option<seq<string>>)
    ensures RunProviders(decls, run).files == Flatten(ProviderOutputs(decls, run))
    ensures RunProviders(decls, run).skipped == Filter(decls, Fails(run))
    ensures forall d :: d in RunProviders(decls, run).skipped <==> d in decls && run(d).None?
    ensures forall f :: f in RunProviders(decls, run).files <==>
      exists k :: 0 <= k < |decls| && run(decls[k]).Some? && f in run(decls[k]).value
    decreases |decls|
  {
    if |decls| > 0 {
      RunProvidersContents(decls[1..], run);
      assert ProviderOutputs(decls, run)[1..] == ProviderOutputs(decls[1..], run);
      assert Fails(run)(decls[0]) == run(decls[0]).None?;
      assert forall k :: 0 < k < |decls| ==> decls[1..][k - 1] == decls[k];
      assert decls == [decls[0]] + decls[1..];
    }
  }

  /** The files collected from the providers that ran, and the declarations of
      those that failed: a declaration is skipped exactly when its provider
      fails, the files are exactly those of the providers that ran, in
      declaration order, and no file starts with a single '/'. */
  function CollectCssFiles(decls: seq<string>, load: CssProvider): (r: Collected)
    ensures r.files == Flatten(ProviderOutputs(decls, Providers(load)))
    ensures r.skipped == Filter(decls, Fails(Providers(load)))
    ensures forall d :: d in r.skipped <==> d in decls && LoadCssFiles(d, load).None?
    ensures forall f :: f in r.files <==>
      exists k :: 0 <= k < |decls| && LoadCssFiles(decls[k], load).Some? && f in LoadCssFiles(decls[k], load).value
    ensures forall f :: f in r.files ==> StartsWith(f, "/") ==> StartsWith(f, "//")
  {
    RunProvidersContents(decls, Providers(load));
    var r := RunProviders(decls, Providers(load));
    forall f | f in r.files ensures StartsWith(f, "/") ==> StartsWith(f, "//") {
      var k :| 0 <= k < |decls| && LoadCssFiles(decls[k], load).Some? && f in LoadCssFiles(decls[k], load).value;
      LoadedFileClean(decls[k], load, f);
    }
    r
  }

  /** No path a provider contributes starts with a single '/'. */
  lemma LoadedFileClean(decl: string, load: CssProvider, f: string)
    requires LoadCssFiles(decl, load).Some? && f in LoadCssFiles(decl, load).value
    ensures StartsWith(f, "/") ==> StartsWith(f, "//")
  {
    var files := LoadCssFiles(decl, load).value;
    var j :| 0 <= j < |files| && files[j] == f;
  }

  // ---------------------------------------------------------------------------
  // Grouping
  // ---------------------------------------------------------------------------

  /** `_.groupBy` on the pattern test, in one pass: the internal and the
      external files, each in collection order. */
  function GroupByKind(files: seq<string>): (groups: (seq<string>, seq<string>))
    ensures |groups.0| + |groups.1| == |files|
  {
    if |files| == 0 then ([], [])
    else
      var (internal, external) := GroupByKind(files[1..]);
      if MatchesExternalPattern(files[0]) then (internal, [files[0]] + external)
      else ([files[0]] + internal, external)
  }

  /** The grouping is the pair of order-keeping filters by the pattern and
      its complement, so together the groups hold every file exactly once. */
  lemma {:induction false} GroupByKindIsPartition(files: seq<string>)
    ensures GroupByKind(files).0 == Filter(files, Not(MatchesExternalPattern))
    ensures GroupByKind(files).1 == Filter(files, MatchesExternalPattern)
    ensures multiset(GroupByKind(files).0) + multiset(GroupByKind(files).1) == multiset(files)
    decreases |files|
  {
    if |files| > 0 {
      GroupByKindIsPartition(files[1..]);
      assert Not(MatchesExternalPattern)(files[0]) == !MatchesExternalPattern(files[0]);
    }
    FilterPartition(files, MatchesExternalPattern);
  }

  /** Each group holds exactly the files of its kind. */
  lemma GroupByKindMembers(files: seq<string>)
    ensures forall f :: f in GroupByKind(files).0 <==> f in files && !MatchesExternalPattern(f)
    ensures forall f :: f in GroupByKind(files).1 <==> f in files && MatchesExternalPattern(f)
  {
    GroupByKindIsPartition(files);
    FilterMembers(files, Not(MatchesExternalPattern));
    FilterMembers(files, MatchesExternalPattern);
  }

  /** A group `_.groupBy` never created is `undefined`, not an empty array. */
  function NonEmpty(group: seq<string>): (r: Option<seq<string>>)
    ensures r.None? <==> |group| == 0
    ensures r.GetOr([]) == group
  {
    if |group| == 0 then None else Some(group)
  }

  // ---------------------------------------------------------------------------
  // The analysis
  // ---------------------------------------------------------------------------

  /** The object `analyzeListOfCssFilesToBundle` returns. */
  datatype CssAnalysis = CssAnalysis(
    cssFilesToBundle: Option<seq<string>>,
    externalCssFiles: Option<seq<string>>,
    cssHooksToBeSkipped: seq<string>)

  /** `analyzeListOfCssFilesToBundle`: the files to bundle and the external
      references are the collected files of each kind, in collection order,
      and together hold every collected file exactly once; the files to
      bundle are internal and none starts with '/'; a group with no member is
      absent; the skipped list is the declarations whose provider failed, in
      declaration order, one entry per declaration. */
  function AnalyzeListOfCssFilesToBundle(maps: seq<HookMap>, load: CssProvider): (r: CssAnalysis)
    ensures var files := CollectCssFiles(CssHookDeclarations(maps), load).files;
      && r.cssFilesToBundle.GetOr([]) == Filter(files, Not(MatchesExternalPattern))
      && r.externalCssFiles.GetOr([]) == Filter(files, MatchesExternalPattern)
    ensures var collected := CollectCssFiles(CssHookDeclarations(maps), load);
      multiset(r.cssFilesToBundle.GetOr([])) + multiset(r.externalCssFiles.GetOr([]))
        == multiset(collected.files)
    ensures r.cssFilesToBundle.Some? ==> |r.cssFilesToBundle.value| > 0
    ensures r.externalCssFiles.Some? ==> |r.externalCssFiles.value| > 0
    ensures forall f :: f in r.cssFilesToBundle.GetOr([]) ==> !IsExternal(f) && !StartsWith(f, "/")
    ensures forall f :: f in r.externalCssFiles.GetOr([]) ==> IsExternal(f)
    ensures r.cssHooksToBeSkipped == Filter(CssHookDeclarations(maps), Fails(Providers(load)))
    ensures forall d :: d in r.cssHooksToBeSkipped <==>
      d in CssHookDeclarations(maps) && LoadCssFiles(d, load).None?
  {
    var decls := CssHookDeclarations(maps);
    var collected := CollectCssFiles(decls, load);
    var (internal, external) := GroupByKind(collected.files);
    GroupByKindIsPartition(collected.files);
    GroupByKindMembers(collected.files);
    forall f | f in internal ensures !IsExternal(f) && !StartsWith(f, "/") {
      ExternalPatternMeaning(f);
    }
    forall f | f in external ensures IsExternal(f) {
      ExternalPatternMeaning(f);
    }
    CssAnalysis(NonEmpty(internal), NonEmpty(external), collected.skipped)
  }
}
