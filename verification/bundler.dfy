/** The bundler pipeline: gather every plugin part's client hooks, list each
    hooked module once, generate the entry module that re-exports them as
    `f0`, `f1`, ..., and, once the bundle is built, point every hook at its
    export in the bundle. */
module Bundler {
  import opened Wrappers
  import opened Strings
  import opened Sequences
  import opened Hooks

  /** A plugin part as the host's registry lists it: its name and its
      `client_hooks` object, absent (`undefined`) for parts that declare none. */
  datatype PluginPart = PluginPart(name: string, clientHooks: Option<HookMap>)

  // ---------------------------------------------------------------------------
  // Collecting hooks
  // ---------------------------------------------------------------------------

  /** `getAllClientHooks`: the `client_hooks` object of every part that has
      one, in part order; parts without hooks contribute nothing. */
  function GetAllClientHooks(parts: seq<PluginPart>): (maps: seq<HookMap>)
    ensures |maps| <= |parts|
    ensures forall m :: m in maps <==> exists i :: 0 <= i < |parts| && parts[i].clientHooks == Some(m)
  {
    if |parts| == 0 then []
    else
      var rest := GetAllClientHooks(parts[1..]);
      assert forall i :: 0 < i < |parts| ==> parts[1..][i - 1] == parts[i];
      match parts[0].clientHooks
      case Some(m) => [m] + rest
      case None => rest
  }

  /** Collecting distributes over concatenation of the part list, so the
      collected maps keep the relative order of their parts. */
  lemma {:induction false} GetAllClientHooksAppend(a: seq<PluginPart>, b: seq<PluginPart>)
    ensures GetAllClientHooks(a + b) == GetAllClientHooks(a) + GetAllClientHooks(b)
    decreases |a|
  {
    if |a| > 0 {
      assert (a + b)[0] == a[0];
      assert (a + b)[1..] == a[1..] + b;
      GetAllClientHooksAppend(a[1..], b);
    } else {
      assert a + b == b;
    }
  }

  // ---------------------------------------------------------------------------
  // Listing the files to bundle
  // ---------------------------------------------------------------------------

  /** The module path of every hook, in traversal order, aliases removed:
      every hook of every map, map order first and then property order within
      a map (`_.map(values)` followed by `_.flatten`), cut at its first ':'. */
  function HookModulePaths(maps: seq<HookMap>): seq<string> {
    var hooks := Flatten(maps);
    seq(|hooks|, k requires 0 <= k < |hooks| => ModulePath(hooks[k].path))
  }

  /** A module path occurs in the traversal exactly when some hook points into it. */
  lemma HookModulePathsMembership(maps: seq<HookMap>, f: string)
    ensures f in HookModulePaths(maps) <==>
      exists i, j :: 0 <= i < |maps| && 0 <= j < |maps[i]| && ModulePath(maps[i][j].path) == f
  {
    var hooks := Flatten(maps);
    var paths := HookModulePaths(maps);
    if f in paths {
      var k :| 0 <= k < |paths| && paths[k] == f;
      assert hooks[k] in hooks;
      var i :| 0 <= i < |maps| && hooks[k] in maps[i];
      var j :| 0 <= j < |maps[i]| && maps[i][j] == hooks[k];
      assert ModulePath(maps[i][j].path) == f;
    }
    if exists i, j :: 0 <= i < |maps| && 0 <= j < |maps[i]| && ModulePath(maps[i][j].path) == f {
      var i, j :| 0 <= i < |maps| && 0 <= j < |maps[i]| && ModulePath(maps[i][j].path) == f;
      assert maps[i][j] in maps[i];
      assert maps[i][j] in hooks;
      var k :| 0 <= k < |hooks| && hooks[k] == maps[i][j];
      assert paths[k] == f;
    }
  }

  /** `getListOfFilesToBundle`: each module path pointed at by some hook,
      listed once, in the order of first occurrence. No entry holds a ':' (the
      function alias is gone), and a module hooked several times is listed once. */
  function GetListOfFilesToBundle(maps: seq<HookMap>): (files: seq<string>)
    ensures NoDuplicates(files)
    ensures forall k :: 0 <= k < |files| ==> ':' !in files[k]
    ensures forall f :: f in files <==>
      exists i, j :: 0 <= i < |maps| && 0 <= j < |maps[i]| && ModulePath(maps[i][j].path) == f
  {
    var files := Uniq(HookModulePaths(maps));
    assert forall k :: 0 <= k < |HookModulePaths(maps)| ==> ':' !in HookModulePaths(maps)[k];
    assert forall k :: 0 <= k < |files| ==> files[k] in HookModulePaths(maps);
    forall f ensures f in files <==>
      exists i, j :: 0 <= i < |maps| && 0 <= j < |maps[i]| && ModulePath(maps[i][j].path) == f
    {
      HookModulePathsMembership(maps, f);
    }
    files
  }

  /** Maps whose hooks all point into one module list that module exactly
      once, however many hooks share it. */
  lemma SingleModuleListedOnce(maps: seq<HookMap>, m: string)
    requires exists i :: 0 <= i < |maps| && |maps[i]| > 0
    requires forall i, j :: 0 <= i < |maps| && 0 <= j < |maps[i]| ==> ModulePath(maps[i][j].path) == m
    ensures GetListOfFilesToBundle(maps) == [m]
  {
    var files := GetListOfFilesToBundle(maps);
    var i :| 0 <= i < |maps| && |maps[i]| > 0;
    assert ModulePath(maps[i][0].path) == m;
    assert m in files;
    assert forall k :: 0 <= k < |files| ==> files[k] == m by {
      forall k | 0 <= k < |files| ensures files[k] == m {
        assert files[k] in files;
      }
    }
    if |files| > 1 {
      NoDuplicatesFirstTwo(files);
      assert false;
    }
  }

  /** Files are listed in the order their modules are first hooked. */
  lemma FilesInFirstSeenOrder(maps: seq<HookMap>, a: nat, b: nat)
    requires a < b < |GetListOfFilesToBundle(maps)|
    ensures var files, paths := GetListOfFilesToBundle(maps), HookModulePaths(maps);
      IndexOf(paths, files[a]) < IndexOf(paths, files[b])
  {
    UniqFirstSeenOrder(HookModulePaths(maps), a, b);
  }

  /** A module's position in the file list, and so its `f<k>` alias, is the
      number of distinct modules hooked before its first hook. */
  lemma FileIndexIsFirstSeen(maps: seq<HookMap>, f: string)
    requires f in HookModulePaths(maps)
    ensures var paths := HookModulePaths(maps);
      IndexOf(GetListOfFilesToBundle(maps), f) == |Uniq(paths[..IndexOf(paths, f)])|
  {
    UniqIndex(HookModulePaths(maps), f);
  }

  // ---------------------------------------------------------------------------
  // The generated entry module
  // ---------------------------------------------------------------------------

  const IndexLinePrefix := "exports.f"
  const RequireOpen := " = require(\""
  const RequireClose := "\");"

  /** The line of the entry module that re-exports `file` as `f<i>`. */
  function IndexLine(i: nat, file: string): string {
    IndexLinePrefix + NatToString(i) + RequireOpen + file + RequireClose
  }

  /** `generateClientIndex` (the text it writes): one re-export line per file,
      in list order, joined by newlines; no file gives the empty text. */
  function GenerateClientIndex(files: seq<string>): (text: string)
    ensures |files| == 0 <==> text == ""
  {
    var lines := seq(|files|, i requires 0 <= i < |files| => IndexLine(i, files[i]));
    if |files| == 0 then "" else
      assert |IndexLine(0, files[0])| > 0;
      JoinFirst(lines, '\n');
      Join(lines, '\n')
  }

  /** A join starts with its first part. */
  lemma JoinFirst(parts: seq<string>, c: char)
    requires |parts| > 0
    ensures StartsWith(Join(parts, c), parts[0])
  {
  }

  /** The number of leading decimal digits of `s`. */
  function LeadingDigits(s: string): (n: nat)
    ensures n <= |s| && AllDigits(s[..n])
    ensures n < |s| ==> !IsDigit(s[n])
  {
    if |s| == 0 || !IsDigit(s[0]) then 0
    else
      assert s[..1 + LeadingDigits(s[1..])] == [s[0]] + s[1..][..LeadingDigits(s[1..])];
      1 + LeadingDigits(s[1..])
  }

  /** `s` without its prefix `p`, when it has one. */
  function DropPrefix(s: string, p: string): (r: Option<string>)
    ensures r.Some? <==> StartsWith(s, p)
    ensures r.Some? ==> s == p + r.value
  {
    if StartsWith(s, p) then
      assert s == s[..|p|] + s[|p|..];
      Some(s[|p|..])
    else None
  }

  /** `s` without its suffix `q`, when it has one. */
  function DropSuffix(s: string, q: string): (r: Option<string>)
    ensures r.Some? <==> |q| <= |s| && s[|s| - |q|..] == q
    ensures r.Some? ==> s == r.value + q
  {
    if |q| <= |s| && s[|s| - |q|..] == q then
      assert s == s[..|s| - |q|] + s[|s| - |q|..];
      Some(s[..|s| - |q|])
    else None
  }

  /** Dropping a prefix from a text that starts with it leaves the rest. */
  lemma DropPrefixOf(p: string, s: string)
    ensures DropPrefix(p + s, p) == Some(s)
  {
    assert (p + s)[..|p|] == p;
    assert (p + s)[|p|..] == s;
  }

  /** Dropping a suffix from a text that ends with it leaves the rest. */
  lemma DropSuffixOf(s: string, q: string)
    ensures DropSuffix(s + q, q) == Some(s)
  {
    assert (s + q)[|s + q| - |q|..] == q;
    assert (s + q)[..|s + q| - |q|] == s;
  }

  /** Reads a line of the entry module back into its index and file: the
      prefix `exports.f`, the canonical digits of a number, then
      `= require("<file>");`. */
  function ParseIndexLine(line: string): Option<(nat, string)> {
    ParseFramed(line, IndexLinePrefix, RequireOpen, RequireClose)
  }

  /** Reads `<prefix><digits><open><file><close>` back into the number the
      digits spell and the file. Digits with a superfluous leading zero are
      refused, since no number prints that way. */
  function ParseFramed(line: string, prefix: string, open: string, close: string): Option<(nat, string)> {
    match DropPrefix(line, prefix)
    case None => None
    case Some(rest) =>
      var n := LeadingDigits(rest);
      if !CanonicalDigits(rest[..n]) then None
      else match DropPrefix(rest[n..], open)
        case None => None
        case Some(quoted) =>
          match DropSuffix(quoted, close)
          case None => None
          case Some(file) => Some((ParseDecimal(rest[..n]), file))
  }

  /** Every generated line reads back as the index and file it was made from. */
  lemma ParseIndexLineInverse(i: nat, file: string)
    ensures ParseIndexLine(IndexLine(i, file)) == Some((i, file))
  {
    ParseAssembledLine(NatToString(i), file);
    ParseNatToString(i);
  }

  /** A line reads back as `(i, file)` exactly when it is the line generated
      for index `i` and `file`: the parse accepts nothing else, so a line
      that reads back as `i` exports exactly the name `f<i>`. */
  lemma ParseIndexLineExact(line: string, i: nat, file: string)
    ensures ParseIndexLine(line) == Some((i, file)) <==> line == IndexLine(i, file)
  {
    ParseIndexLineInverse(i, file);
    ParseFramedExact(line, IndexLinePrefix, RequireOpen, RequireClose);
  }

  /** A line assembled from canonical digits reads back as the number those
      digits spell and the file. */
  lemma ParseAssembledLine(digits: string, file: string)
    requires CanonicalDigits(digits)
    ensures ParseIndexLine(IndexLinePrefix + digits + RequireOpen + file + RequireClose)
      == Some((ParseDecimal(digits), file))
  {
    assert !IsDigit(RequireOpen[0]);
    ParseFramedAssembled(IndexLinePrefix, digits, RequireOpen, file, RequireClose);
  }

  /** The framing reads back whenever the text after the digits does not
      start with a digit. */
  lemma ParseFramedAssembled(prefix: string, digits: string, open: string, file: string, close: string)
    requires CanonicalDigits(digits)
    requires |open| > 0 && !IsDigit(open[0])
    ensures ParseFramed(prefix + digits + open + file + close, prefix, open, close)
      == Some((ParseDecimal(digits), file))
  {
    var line := prefix + digits + open + file + close;
    var tail := open + file + close;
    var rest := digits + tail;
    assert DropPrefix(line, prefix) == Some(rest) by {
      Regroup(prefix, digits, open, file, close);
      DropPrefixOf(prefix, rest);
    }
    assert LeadingDigits(rest) == |digits| && rest[..|digits|] == digits && rest[|digits|..] == tail by {
      assert tail[0] == open[0];
      LeadingDigitsOf(digits, tail);
    }
    assert DropPrefix(tail, open) == Some(file + close) by {
      Associate(open, file, close);
      DropPrefixOf(open, file + close);
    }
    DropSuffixOf(file, close);
    ParseFramedSteps(line, prefix, open, close, rest, digits, tail, file);
  }

  /** Whatever the framing reads back is the only text that reads back so:
      the line is the prefix, the printed number, the opening, the file and
      the closing. */
  lemma ParseFramedExact(line: string, prefix: string, open: string, close: string)
    ensures match ParseFramed(line, prefix, open, close)
      case None => true
      case Some((i, file)) => line == prefix + NatToString(i) + open + file + close
  {
    match DropPrefix(line, prefix)
    case None =>
    case Some(rest) =>
      var n := LeadingDigits(rest);
      var digits := rest[..n];
      if CanonicalDigits(digits) {
        match DropPrefix(rest[n..], open)
        case None =>
        case Some(quoted) =>
          match DropSuffix(quoted, close)
          case None =>
          case Some(file) =>
            NatToStringParse(digits);
            assert rest == digits + rest[n..];
            Associate(open, file, close);
            Regroup(prefix, digits, open, file, close);
        }
  }

  /** `ParseFramed` taken one stage at a time: stating each stage's outcome
      separately keeps the concatenations out of the final unfolding. */
  lemma ParseFramedSteps(line: string, prefix: string, open: string, close: string,
                         rest: string, digits: string, tail: string, file: string)
    requires DropPrefix(line, prefix) == Some(rest)
    requires CanonicalDigits(digits) && LeadingDigits(rest) == |digits|
    requires rest[..|digits|] == digits && rest[|digits|..] == tail
    requires DropPrefix(tail, open) == Some(file + close)
    requires DropSuffix(file + close, close) == Some(file)
    ensures ParseFramed(line, prefix, open, close) == Some((ParseDecimal(digits), file))
  {
  }

  /** Regrouping a five-part concatenation, named so that a proof can ask for
      exactly this shape rather than leave the solver to search for it. */
  lemma Regroup(a: string, b: string, c: string, d: string, e: string)
    ensures a + b + c + d + e == a + (b + (c + d + e))
  {
  }

  /** Associativity for three parts, named for the same reason. */
  lemma Associate(a: string, b: string, c: string)
    ensures a + b + c == a + (b + c)
  {
  }

  /** The digit run of `digits + tail` is `digits` when `tail` starts with a
      non-digit. */
  lemma LeadingDigitsOf(digits: string, tail: string)
    requires AllDigits(digits)
    requires |tail| > 0 && !IsDigit(tail[0])
    ensures LeadingDigits(digits + tail) == |digits|
  {
    if |digits| > 0 {
      assert (digits + tail)[1..] == digits[1..] + tail;
      LeadingDigitsOf(digits[1..], tail);
    } else {
      assert digits + tail == tail;
    }
  }

  /** The entry module is exactly one line per file: split at its newlines it
      gives, in list order, the line re-exporting `files[i]` as `f<i>`, which
      reads back as exactly that index and file. Needs at least one file,
      since "".split("\n") is [""], and files without newlines, since a
      newline inside a file name would split its line. */
  lemma ClientIndexLines(files: seq<string>)
    requires |files| > 0
    requires forall k :: 0 <= k < |files| ==> '\n' !in files[k]
    ensures var lines := Split(GenerateClientIndex(files), '\n');
      && |lines| == |files|
      && forall i :: 0 <= i < |lines| ==>
           lines[i] == IndexLine(i, files[i]) && ParseIndexLine(lines[i]) == Some((i, files[i]))
  {
    var lines := seq(|files|, i requires 0 <= i < |files| => IndexLine(i, files[i]));
    assert GenerateClientIndex(files) == Join(lines, '\n');
    forall i | 0 <= i < |lines| ensures '\n' !in lines[i] {
      IndexLineSingle(i, files[i]);
    }
    SplitJoin(lines, '\n');
    forall i | 0 <= i < |lines| ensures ParseIndexLine(lines[i]) == Some((i, files[i])) {
      ParseIndexLineInverse(i, files[i]);
    }
  }

  /** A generated line holds a newline only if its file name does. */
  lemma IndexLineSingle(i: nat, file: string)
    requires '\n' !in file
    ensures '\n' !in IndexLine(i, file)
  {
    var digits := NatToString(i);
    assert '\n' !in digits by {
      assert forall k :: 0 <= k < |digits| ==> IsDigit(digits[k]);
    }
    assert '\n' !in IndexLinePrefix && '\n' !in RequireOpen && '\n' !in RequireClose;
  }

  // ---------------------------------------------------------------------------
  // Rewriting the hooks
  // ---------------------------------------------------------------------------

  /** The module the bundle is published as. */
  const BundledModule := "ep_webpack/static/js/dist/index"

  /** The export name of the file at position `k`, `f${k}`; -1 (a file not in
      the list) would print as "f-1". */
  function FileAlias(k: int): string {
    "f" + IntToString(k)
  }

  /** The hook path that reaches `hookName` on export `fileAlias` of the bundle. */
  function BundledHookPath(fileAlias: string, hookName: string): string {
    Declaration(BundledModule, Some(fileAlias + "." + hookName))
  }

  /** The bundle's module path reads back unchanged through `loadFn`. */
  lemma BundledModuleLoadable()
    ensures LoadableModulePath(BundledModule)
  {
    assert forall k :: 0 <= k < |BundledModule| ==> BundledModule[k] != ':';
  }

  /** The name a rewritten hook walks to on its file's export. The source
      writes the hook name; the function name `loadFn` would have used on the
      original path (its alias, or the hook name when it has none) is what
      keeps an aliased hook reaching its function. */
  datatype ExportNaming = HookNameExport | FunctionNameExport

  /** The export name the chosen naming gives a hook. */
  function ExportName(naming: ExportNaming, h: Hook): string {
    match naming
    case HookNameExport => h.name
    case FunctionNameExport => FunctionName(h.path, h.name)
  }

  /** One hook after rewriting: same name, path into the bundle through the
      alias of its module's position, then the export name. Whatever the
      original path, the module part (`split(':')[0]`) of the new one is the
      bundle module. */
  function RewriteHook(h: Hook, files: seq<string>, naming: ExportNaming): (r: Hook)
    ensures r.name == h.name
    ensures ModulePath(r.path) == BundledModule
  {
    var exportName := FileAlias(IndexOf(files, ModulePath(h.path))) + "." + ExportName(naming, h);
    assert ':' !in BundledModule by {
      assert forall k :: 0 <= k < |BundledModule| ==> BundledModule[k] != ':';
    }
    ModulePathOfDeclaration(BundledModule, Some(exportName));
    Hook(h.name, BundledHookPath(FileAlias(IndexOf(files, ModulePath(h.path))), ExportName(naming, h)))
  }

  /** A hook `hookName: "m:fn"` whose function alias `fn` differs from its
      name resolves to the chain `fn` in module `m`; after the rewrite as
      written it walks `f<k>` and then the hook name instead, so it reaches a
      different export than the function it declared. */
  lemma AliasDroppedAsWritten(m: string, fn: string, hookName: string, files: seq<string>)
    requires ':' !in m && |m| != 1 && m in files
    requires ':' !in fn && fn != "" && ':' !in hookName && fn != hookName
    ensures var h := Hook(hookName, Declaration(m, Some(fn)));
      var before := ResolveHookPath(h.path, hookName);
      var after := ResolveHookPath(RewriteHook(h, files, HookNameExport).path, hookName);
      && before == HookTarget(m, Split(fn, '.'))
      && after == HookTarget(BundledModule, [FileAlias(IndexOf(files, m))] + Split(hookName, '.'))
      && after.lookupChain[1..] != before.lookupChain
  {
    var path := Declaration(m, Some(fn));
    ParseDeclaration(m, Some(fn));
    ModulePathOfDeclaration(m, Some(fn));
    var k := IndexOf(files, m);
    FileAliasShape(k);
    RewrittenHookResolves(FileAlias(k), hookName, hookName);
    assert ([FileAlias(k)] + Split(hookName, '.'))[1..] == Split(hookName, '.');
    JoinSplit(hookName, '.');
    JoinSplit(fn, '.');
  }

  /** The two namings give the same rewritten hook exactly when the function
      `loadFn` would use is the hook name itself, that is, when the original
      path has no alias, an empty one, or one equal to the hook name. */
  lemma NamingsAgreeIffNoAlias(h: Hook, files: seq<string>)
    ensures RewriteHook(h, files, HookNameExport) == RewriteHook(h, files, FunctionNameExport)
      <==> FunctionName(h.path, h.name) == h.name
  {
    var alias := FileAlias(IndexOf(files, ModulePath(h.path)));
    var fn := FunctionName(h.path, h.name);
    if RewriteHook(h, files, HookNameExport) == RewriteHook(h, files, FunctionNameExport) {
      BundledHookPathEnds(alias, h.name);
      BundledHookPathEnds(alias, fn);
      SameSuffix(BundledModule + ":" + alias + ".", h.name, fn);
    }
  }

  /** A bundle path is a head fixed by the alias, followed by the export name. */
  lemma BundledHookPathEnds(alias: string, exportName: string)
    ensures BundledHookPath(alias, exportName) == (BundledModule + ":" + alias + ".") + exportName
  {
    Regroup(BundledModule, ":", alias, ".", exportName);
  }

  /** Two texts with a common head are equal only if their tails are. */
  lemma SameSuffix(head: string, x: string, y: string)
    requires head + x == head + y
    ensures x == y
  {
    assert (head + x)[|head|..] == x;
    assert (head + y)[|head|..] == y;
  }

  /** One `client_hooks` object after rewriting: the same keys in the same
      order, only the values replaced. */
  function RewriteHookMap(m: HookMap, files: seq<string>, naming: ExportNaming): (r: HookMap)
    ensures |r| == |m|
    ensures Names(r) == Names(m)
    ensures DistinctNames(m) ==> DistinctNames(r)
  {
    seq(|m|, i requires 0 <= i < |m| => RewriteHook(m[i], files, naming))
  }

  /** `replaceOriginalHookWithBundledHooks`: every map rewritten, none added,
      dropped or reordered. */
  function ReplaceOriginalHookWithBundledHooks(maps: seq<HookMap>, files: seq<string>, naming: ExportNaming): (r: seq<HookMap>)
    ensures |r| == |maps|
    ensures forall i :: 0 <= i < |r| ==> Names(r[i]) == Names(maps[i]) && |r[i]| == |maps[i]|
    ensures forall i, j :: 0 <= i < |maps| && 0 <= j < |maps[i]| ==> r[i][j] == RewriteHook(maps[i][j], files, naming)
  {
    seq(|maps|, i requires 0 <= i < |maps| => RewriteHookMap(maps[i], files, naming))
  }

  /** With the file list built from the same maps, every hook's module is in
      the list, so its alias is `f<k>` for the in-range position `k` of that
      module (never "f-1"). As the source writes it, the hook's new path is
      `ep_webpack/static/js/dist/index:f<k>.<hookName>`; keeping the alias, it
      is `...:f<k>.<functionName>`. */
  lemma RewrittenHookPath(maps: seq<HookMap>, i: nat, j: nat, naming: ExportNaming)
    requires i < |maps| && j < |maps[i]|
    ensures var files := GetListOfFilesToBundle(maps);
      var h := maps[i][j];
      var k := IndexOf(files, ModulePath(h.path));
      var r := ReplaceOriginalHookWithBundledHooks(maps, files, naming)[i][j];
      && 0 <= k < |files|
      && files[k] == ModulePath(h.path)
      && (naming == HookNameExport ==>
           r == Hook(h.name, "ep_webpack/static/js/dist/index:f" + NatToString(k) + "." + h.name))
      && (naming == FunctionNameExport ==>
           r == Hook(h.name, "ep_webpack/static/js/dist/index:f" + NatToString(k) + "." + FunctionName(h.path, h.name)))
  {
    var files := GetListOfFilesToBundle(maps);
    var h := maps[i][j];
    assert ModulePath(h.path) in files;
    var k := IndexOf(files, ModulePath(h.path));
    var digits := NatToString(k);
    assert FileAlias(k) == "f" + digits;
    BundledHookPathText(digits, ExportName(naming, h));
  }

  /** The bundle path of export `f<digits>` spelled out as one text. */
  lemma BundledHookPathText(digits: string, exportName: string)
    ensures BundledHookPath("f" + digits, exportName)
      == "ep_webpack/static/js/dist/index:f" + digits + "." + exportName
  {
    var head := BundledModule + ":";
    assert BundledHookPath("f" + digits, exportName) == head + ("f" + digits + "." + exportName);
    assert head + "f" == "ep_webpack/static/js/dist/index:f";
    assert head + ("f" + digits + "." + exportName) == head + "f" + digits + "." + exportName;
  }

  /** Two hooks get the same `f<k>` alias exactly when they point into the same
      module, whatever their hook names and function aliases. */
  lemma SameAliasIffSameModule(maps: seq<HookMap>, i1: nat, j1: nat, i2: nat, j2: nat)
    requires i1 < |maps| && j1 < |maps[i1]|
    requires i2 < |maps| && j2 < |maps[i2]|
    ensures var files := GetListOfFilesToBundle(maps);
      var h1, h2 := maps[i1][j1], maps[i2][j2];
      (FileAlias(IndexOf(files, ModulePath(h1.path))) == FileAlias(IndexOf(files, ModulePath(h2.path))))
      <==> ModulePath(h1.path) == ModulePath(h2.path)
  {
    var files := GetListOfFilesToBundle(maps);
    var m1, m2 := ModulePath(maps[i1][j1].path), ModulePath(maps[i2][j2].path);
    assert m1 in files && m2 in files;
    var k1, k2 := IndexOf(files, m1), IndexOf(files, m2);
    if FileAlias(k1) == FileAlias(k2) {
      assert NatToString(k1) == FileAlias(k1)[1..];
      assert NatToString(k2) == FileAlias(k2)[1..];
      NatToStringInjective(k1, k2);
    }
  }

  /** The rewritten path resolves, through the host's `loadFn`, to the bundle
      module and then the chain `f<k>`, followed by the hook name's
      dot-separated parts. A hook name containing ':' would be cut by the
      parser, so it is excluded. */
  lemma RewrittenHookResolves(fileAlias: string, exportName: string, hookName: string)
    requires |fileAlias| > 0 && ':' !in fileAlias && '.' !in fileAlias
    requires ':' !in exportName
    ensures ResolveHookPath(BundledHookPath(fileAlias, exportName), hookName)
      == HookTarget(BundledModule, [fileAlias] + Split(exportName, '.'))
  {
    var name := fileAlias + "." + exportName;
    assert ':' !in name;
    BundledModuleLoadable();
    ParseDeclaration(BundledModule, Some(name));
    SplitAfter(fileAlias, '.', exportName);
  }

  /** The alias the rewrite produces for a position in the list is a valid
      first link of that chain. */
  lemma FileAliasShape(k: nat)
    ensures var a := FileAlias(k); |a| > 0 && ':' !in a && '.' !in a
  {
    var digits := NatToString(k);
    assert forall x :: 0 <= x < |digits| ==> IsDigit(digits[x]);
  }

  /** As the source writes it, every hook whose name has no ':' reaches,
      through `loadFn`, the bundle module, the export `f<k>` of the hook's
      original module (at position `k` of the file list), and then the hook
      name's dot-separated parts, whatever function its original path named. */
  lemma RewrittenHookTargetAsWritten(maps: seq<HookMap>, i: nat, j: nat)
    requires i < |maps| && j < |maps[i]|
    requires ':' !in maps[i][j].name
    ensures var files := GetListOfFilesToBundle(maps);
      var h := maps[i][j];
      exists k :: 0 <= k < |files| && files[k] == ModulePath(h.path)
        && ResolveHookPath(ReplaceOriginalHookWithBundledHooks(maps, files, HookNameExport)[i][j].path, h.name)
           == HookTarget(BundledModule, ["f" + NatToString(k)] + Split(h.name, '.'))
  {
    var files := GetListOfFilesToBundle(maps);
    var h := maps[i][j];
    RewrittenHookPath(maps, i, j, HookNameExport);
    var k := IndexOf(files, ModulePath(h.path));
    FileAliasShape(k);
    assert FileAlias(k) == "f" + NatToString(k);
    RewrittenHookResolves("f" + NatToString(k), h.name, h.name);
  }

  /** Keeping the alias, every hook whose name has no ':' reaches, through
      `loadFn`, the same function as before, now inside the bundle: the bundle
      module, the export `f<k>` of the hook's original module (at position `k`
      of the file list), then the lookup chain the original path had. */
  lemma RewrittenHookTarget(maps: seq<HookMap>, i: nat, j: nat)
    requires i < |maps| && j < |maps[i]|
    requires ':' !in maps[i][j].name
    ensures var files := GetListOfFilesToBundle(maps);
      var h := maps[i][j];
      exists k :: 0 <= k < |files| && files[k] == ModulePath(h.path)
        && ResolveHookPath(ReplaceOriginalHookWithBundledHooks(maps, files, FunctionNameExport)[i][j].path, h.name)
           == HookTarget(BundledModule, ["f" + NatToString(k)] + ResolveHookPath(h.path, h.name).lookupChain)
  {
    var files := GetListOfFilesToBundle(maps);
    var h := maps[i][j];
    RewrittenHookPath(maps, i, j, FunctionNameExport);
    var k := IndexOf(files, ModulePath(h.path));
    FileAliasShape(k);
    assert FileAlias(k) == "f" + NatToString(k);
    var name := FunctionName(h.path, h.name);
    RewrittenHookResolves("f" + NatToString(k), name, h.name);
    SplitJoin(ResolveHookPath(h.path, h.name).lookupChain, '.');
  }

  /** The parts after the rewrite: each part's hook map is replaced by its
      rewritten version, in place, as the source mutates the objects it
      collected. */
  function RewriteParts(parts: seq<PluginPart>, files: seq<string>, naming: ExportNaming): (r: seq<PluginPart>)
    ensures |r| == |parts|
    ensures forall i :: 0 <= i < |r| ==>
      && r[i].name == parts[i].name
      && r[i].clientHooks.Some? == parts[i].clientHooks.Some?
  {
    seq(|parts|, i requires 0 <= i < |parts| =>
      match parts[i].clientHooks
      case None => parts[i]
      case Some(m) => PluginPart(parts[i].name, Some(RewriteHookMap(m, files, naming))))
  }

  /** Rewriting the parts in place is rewriting the collected maps: what the
      source changes through the collected references is what the parts then
      hold. */
  lemma {:induction false} RewritePartsCollects(parts: seq<PluginPart>, files: seq<string>, naming: ExportNaming)
    ensures GetAllClientHooks(RewriteParts(parts, files, naming))
      == ReplaceOriginalHookWithBundledHooks(GetAllClientHooks(parts), files, naming)
    decreases |parts|
  {
    if |parts| > 0 {
      RewritePartsCollects(parts[1..], files, naming);
      var r := RewriteParts(parts, files, naming);
      assert r == RewriteParts([parts[0]], files, naming) + RewriteParts(parts[1..], files, naming);
      GetAllClientHooksAppend(RewriteParts([parts[0]], files, naming), RewriteParts(parts[1..], files, naming));
      assert parts == [parts[0]] + parts[1..];
      GetAllClientHooksAppend([parts[0]], parts[1..]);
      ReplaceAppend(GetAllClientHooks([parts[0]]), GetAllClientHooks(parts[1..]), files, naming);
      RewriteOnePartCollects(parts[0], files, naming);
    }
  }

  /** `RewritePartsCollects` for a single part, with or without hooks. */
  lemma RewriteOnePartCollects(part: PluginPart, files: seq<string>, naming: ExportNaming)
    ensures GetAllClientHooks(RewriteParts([part], files, naming))
      == ReplaceOriginalHookWithBundledHooks(GetAllClientHooks([part]), files, naming)
  {
    var r := RewriteParts([part], files, naming);
    assert [part][1..] == [] && r[1..] == [];
    match part.clientHooks
    case None =>
      assert r[0] == part;
    case Some(m) =>
      var rm := RewriteHookMap(m, files, naming);
      assert r[0] == PluginPart(part.name, Some(rm));
      assert GetAllClientHooks([part]) == [m];
      assert GetAllClientHooks(r) == [rm];
      var replaced := ReplaceOriginalHookWithBundledHooks([m], files, naming);
      assert replaced[0] == rm;
  }

  /** Rewriting a list of maps is rewriting each half of it. */
  lemma ReplaceAppend(a: seq<HookMap>, b: seq<HookMap>, files: seq<string>, naming: ExportNaming)
    ensures ReplaceOriginalHookWithBundledHooks(a + b, files, naming)
      == ReplaceOriginalHookWithBundledHooks(a, files, naming) + ReplaceOriginalHookWithBundledHooks(b, files, naming)
  {
    var whole := ReplaceOriginalHookWithBundledHooks(a + b, files, naming);
    var parts := ReplaceOriginalHookWithBundledHooks(a, files, naming) + ReplaceOriginalHookWithBundledHooks(b, files, naming);
    forall i | 0 <= i < |whole| ensures whole[i] == parts[i] {
      if i < |a| {
        assert (a + b)[i] == a[i];
      } else {
        assert (a + b)[i] == b[i - |a|];
      }
    }
  }

  // ---------------------------------------------------------------------------
  // The whole run
  // ---------------------------------------------------------------------------

  /** What the bundler build reports: an error of its own, or the finished
      compilation with its `stats.hasErrors()` answer and its
      `stats.compilation.errors` list, read separately as the source reads
      them (errors of child compilations count for the first only). */
  datatype BuildReport = BuildCrashed(err: string) | BuildFinished(hasErrors: bool, compilationErrors: seq<string>)

  /** The error a run throws. */
  datatype BundleError =
    | IndexWriteFailed(cause: string)
    | BuildFailed(cause: string)
    | CompilationFailed(errors: seq<string>)

  /** What a run produces: the entry-module text it writes, and either the
      parts with rewritten hooks or the error it throws. */
  datatype BundleRun = BundleRun(clientIndex: string, outcome: Result<seq<PluginPart>, BundleError>)

  /** `generateBundle`: collect, list, write the entry module, build, and only
      when the write and the build both succeed, rewrite the hooks. The write's
      error and the build's report are inputs, since both are I/O; the source
      rewrites with `HookNameExport`. */
  function GenerateBundle(parts: seq<PluginPart>, writeError: Option<string>, build: BuildReport, naming: ExportNaming): (run: BundleRun)
    ensures var files := GetListOfFilesToBundle(GetAllClientHooks(parts));
      run.clientIndex == GenerateClientIndex(files)
    ensures run.outcome.Success? <==> writeError.None? && build.BuildFinished? && !build.hasErrors
    ensures writeError.Some? ==> run.outcome == Failure(IndexWriteFailed(writeError.value))
    ensures writeError.None? && build.BuildCrashed? ==> run.outcome == Failure(BuildFailed(build.err))
    ensures writeError.None? && build.BuildFinished? && build.hasErrors ==>
      run.outcome == Failure(CompilationFailed(build.compilationErrors))
    ensures run.outcome.Success? ==>
      var maps := GetAllClientHooks(parts);
      GetAllClientHooks(run.outcome.value)
        == ReplaceOriginalHookWithBundledHooks(maps, GetListOfFilesToBundle(maps), naming)
    ensures run.outcome.Success? ==>
      && |run.outcome.value| == |parts|
      && forall i :: 0 <= i < |parts| ==>
           && run.outcome.value[i].name == parts[i].name
           && run.outcome.value[i].clientHooks.Some? == parts[i].clientHooks.Some?
  {
    var allClientHooks := GetAllClientHooks(parts);
    var filesToBundle := GetListOfFilesToBundle(allClientHooks);
    var text := GenerateClientIndex(filesToBundle);
    RewritePartsCollects(parts, filesToBundle, naming);
    if writeError.Some? then BundleRun(text, Failure(IndexWriteFailed(writeError.value)))
    else if build.BuildCrashed? then BundleRun(text, Failure(BuildFailed(build.err)))
    else if build.hasErrors then BundleRun(text, Failure(CompilationFailed(build.compilationErrors)))
    else BundleRun(text, Success(RewriteParts(parts, filesToBundle, naming)))
  }

  /** A failed write stops the run before the build: its report is never read. */
  lemma WriteFailureSkipsBuild(parts: seq<PluginPart>, err: string, b1: BuildReport, b2: BuildReport, naming: ExportNaming)
    ensures GenerateBundle(parts, Some(err), b1, naming) == GenerateBundle(parts, Some(err), b2, naming)
  {
  }
}
