/** Plugin hook declarations and the two ways the source reads them: the
    bundler's `hookPath.split(':')[0]` and the resolver `loadFn`, which turns a
    hook path into the module to load and the property chain to walk on it. */
module Hooks {
  import opened Wrappers
  import opened Strings
  import opened Sequences

  /** One property of a plugin part's `client_hooks` object: the hook name
      (the key) and the hook path (the value), written `module/path` or
      `module/path:functionName`. */
  datatype Hook = Hook(name: string, path: string)

  /** A `client_hooks` object. The order is JavaScript's property order,
      which for these string keys is insertion order. */
  type HookMap = seq<Hook>

  /** The keys of a hook map, in order. */
  function Names(m: HookMap): seq<string> {
    seq(|m|, i requires 0 <= i < |m| => m[i].name)
  }

  /** A JavaScript object cannot hold one key twice. */
  predicate DistinctNames(m: HookMap) {
    forall i, j :: 0 <= i < j < |m| ==> m[i].name != m[j].name
  }

  /** `hooks[name]`: the path stored under `name`, or `undefined`. */
  function Lookup(m: HookMap, name: string): (r: Option<string>)
    ensures r.None? <==> name !in Names(m)
    ensures r.Some? ==> exists i :: 0 <= i < |m| && m[i] == Hook(name, r.value)
    ensures DistinctNames(m) ==>
      forall i :: 0 <= i < |m| && m[i].name == name ==> r == Some(m[i].path)
  {
    if |m| == 0 then None
    else
      assert Names(m) == [m[0].name] + Names(m[1..]);
      if m[0].name == name then
        Some(m[0].path)
      else
        Lookup(m[1..], name)
  }

  /** The module part of a hook path as the bundler reads it,
      `hookPath.split(':')[0]`: the longest prefix without a ':', so it is
      either the whole path or followed by the first ':'. */
  function ModulePath(hookPath: string): (p: string)
    ensures ':' !in p
    ensures StartsWith(hookPath, p)
    ensures p == hookPath || hookPath[|p|] == ':'
  {
    SplitFirstSegment(hookPath, ':');
    Split(hookPath, ':')[0]
  }

  /** The hook path that names function `functionName` of module `modulePath`
      (`module` or `module:functionName`). */
  function Declaration(modulePath: string, functionName: Option<string>): string {
    match functionName
    case None => modulePath
    case Some(f) => modulePath + ":" + f
  }

  /** The bundler recovers the module of any declaration whose module part
      has no ':'. */
  lemma ModulePathOfDeclaration(modulePath: string, functionName: Option<string>)
    requires ':' !in modulePath
    ensures ModulePath(Declaration(modulePath, functionName)) == modulePath
  {
    match functionName
    case None => SplitNoSeparator(modulePath, ':');
    case Some(f) => SplitAfter(modulePath, ':', f);
  }

  /** The first half of `loadFn`: the module path to `require` and the
      function name, if the hook path gives one. A first segment of a single
      character is taken for a Windows drive letter (`C:\foo\bar:xyz`): the
      path then keeps its colons, and only a third segment is a function name. */
  function ParseHookPath(hookPath: string): (r: (string, Option<string>))
    ensures var first := ModulePath(hookPath);
      |first| != 1 ==>
        && r.0 == first
        && (r.1.Some? <==> ':' in hookPath)
        && (r.1.Some? ==> ':' !in r.1.value && StartsWith(hookPath, first + ":" + r.1.value))
        && (r.1.Some? ==> |first + ":" + r.1.value| == |hookPath| || hookPath[|first + ":" + r.1.value|] == ':')
    ensures var first := ModulePath(hookPath);
      |first| == 1 && |Split(hookPath, ':')| != 3 ==> r == (hookPath, None)
    ensures var first := ModulePath(hookPath);
      |first| == 1 && |Split(hookPath, ':')| == 3 ==>
        r.1.Some? && ':' !in r.1.value && hookPath == r.0 + ":" + r.1.value
  {
    var parts := Split(hookPath, ':');
    if |parts[0]| == 1 then
      if |parts| == 3 then
        SplitThreeSegments(hookPath, ':');
        assert parts[..2] == [parts[0], parts[1]];
        assert Join(parts[..2], ':') == parts[0] + [':'] + parts[1];
        (Join(parts[..2], ':'), Some(parts[2]))
      else
        (hookPath, None)
    else if |parts| > 1 then
      SplitSecondSegment(hookPath, ':');
      (parts[0], Some(parts[1]))
    else
      (parts[0], None)
  }

  /** What `loadFn` resolves: the module it `require`s and the chain of
      property names it then walks on the loaded module. */
  datatype HookTarget = HookTarget(modulePath: string, lookupChain: seq<string>)

  /** The function name `loadFn` looks up: the one the hook path gives, or
      the hook name when it gives none or an empty one (`functionName ?
      functionName : hookName`). */
  function FunctionName(hookPath: string, hookName: string): (name: string)
    ensures var f := ParseHookPath(hookPath).1;
      f.Some? && f.value != "" ==> name == f.value
    ensures var f := ParseHookPath(hookPath).1;
      !(f.Some? && f.value != "") ==> name == hookName
    ensures ':' !in hookName ==> ':' !in name
  {
    var f := ParseHookPath(hookPath).1;
    if f.Some? && f.value != "" then f.value else hookName
  }

  /** `loadFn(hookPath, hookName)` up to the `require`: a missing or empty
      function name defaults to the hook name, and a dotted function name
      becomes a chain of property lookups. */
  function ResolveHookPath(hookPath: string, hookName: string): (t: HookTarget)
    ensures t.modulePath == ParseHookPath(hookPath).0
    ensures |t.lookupChain| >= 1
    ensures forall i :: 0 <= i < |t.lookupChain| ==> '.' !in t.lookupChain[i]
    ensures Join(t.lookupChain, '.') == FunctionName(hookPath, hookName)
  {
    var name := FunctionName(hookPath, hookName);
    JoinSplit(name, '.');
    HookTarget(ParseHookPath(hookPath).0, Split(name, '.'))
  }

  /** A module path `loadFn` reads back unchanged: one without colons and
      not a single character, or a drive-letter path such as `C:\foo`. */
  predicate LoadableModulePath(m: string) {
    || (':' !in m && |m| != 1)
    || (|m| >= 2 && m[0] != ':' && m[1] == ':' && ':' !in m[2..])
  }

  /** `loadFn` inverts `Declaration`: writing a module path and an optional
      colon-free function name as a hook path and parsing it gives both back. */
  lemma ParseDeclaration(m: string, functionName: Option<string>)
    requires LoadableModulePath(m)
    requires functionName.Some? ==> ':' !in functionName.value
    ensures ParseHookPath(Declaration(m, functionName)) == (m, functionName)
  {
    if ':' !in m {
      ParsePlainDeclaration(m, functionName);
    } else {
      ParseDriveDeclaration(m, functionName);
    }
  }

  /** `loadFn` reads back a declaration whose module has no ':'. */
  lemma ParsePlainDeclaration(m: string, functionName: Option<string>)
    requires ':' !in m && |m| != 1
    requires functionName.Some? ==> ':' !in functionName.value
    ensures ParseHookPath(Declaration(m, functionName)) == (m, functionName)
  {
    ModulePathOfDeclaration(m, functionName);
    match functionName
    case None => SplitNoSeparator(m, ':');
    case Some(f) =>
      SplitAfter(m, ':', f);
      SplitNoSeparator(f, ':');
  }

  /** `loadFn` reads back a declaration whose module starts with a drive letter. */
  lemma ParseDriveDeclaration(m: string, functionName: Option<string>)
    requires |m| >= 2 && m[0] != ':' && m[1] == ':' && ':' !in m[2..]
    requires functionName.Some? ==> ':' !in functionName.value
    ensures ParseHookPath(Declaration(m, functionName)) == (m, functionName)
  {
    var drive, rest := m[..1], m[2..];
    assert m == drive + [':'] + rest;
    match functionName
    case None => ParseDrivePath(drive, rest);
    case Some(f) => ParseDriveFunction(drive, rest, f);
  }

  /** A drive-letter path without a function keeps its colon and names none. */
  lemma ParseDrivePath(drive: string, rest: string)
    requires |drive| == 1 && ':' !in drive && ':' !in rest
    ensures ParseHookPath(drive + [':'] + rest) == (drive + [':'] + rest, None)
  {
    SplitAfter(drive, ':', rest);
    SplitNoSeparator(rest, ':');
  }

  /** A drive-letter path with a function gives the path and the function. */
  lemma ParseDriveFunction(drive: string, rest: string, f: string)
    requires |drive| == 1 && ':' !in drive && ':' !in rest && ':' !in f
    ensures ParseHookPath(drive + [':'] + rest + ":" + f) == (drive + [':'] + rest, Some(f))
  {
    SplitDriveFunction(drive, rest, f);
    ParseThreeSegments(drive + [':'] + rest + ":" + f, drive, rest, f);
  }

  /** Such a path splits at ':' into the drive, the rest and the function. */
  lemma SplitDriveFunction(drive: string, rest: string, f: string)
    requires ':' !in drive && ':' !in rest && ':' !in f
    ensures Split(drive + [':'] + rest + ":" + f, ':') == [drive, rest, f]
  {
    assert drive + [':'] + rest + ":" + f == drive + [':'] + (rest + [':'] + f);
    SplitAfter(drive, ':', rest + [':'] + f);
    SplitAfter(rest, ':', f);
    SplitNoSeparator(f, ':');
  }

  /** Three segments, the first one character long, take the drive branch. */
  lemma ParseThreeSegments(s: string, drive: string, rest: string, f: string)
    requires Split(s, ':') == [drive, rest, f] && |drive| == 1
    ensures ParseHookPath(s) == (drive + [':'] + rest, Some(f))
  {
    assert [drive, rest, f][..2] == [drive] + [rest];
    JoinCons(drive, [rest], ':');
  }
}
