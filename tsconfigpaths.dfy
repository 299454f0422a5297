/**
 * `createResolveTsConfigPaths` of infrastructure/plugins/resolveTsConfigPaths.ts:
 * a resolver for the `paths` aliases of a TypeScript configuration. Matching
 * is enabled only when a `baseUrl` is set and `paths` has keys; when it is,
 * a specifier is "in paths" when it starts with a key stripped of its
 * trailing star, and is resolved by the tsconfig-paths matcher, which is a
 * parameter here.
 */
module TsConfigPaths {
  import opened Wrappers
  import opened Text
  import opened Paths

  /** The resolver's package fields and extensions, in the order the source lists them. */
  const MainFields := ["module", "jsnext:main", "browser", "main"]
  const Extensions := [".js", ".jsx", ".ts", ".d.ts", ".d.ts.map", ".json"]

  /** The two compiler options read: `paths` is a record of aliases to their targets. */
  datatype CompilerOptions = CompilerOptions(baseUrl: Option<string>, paths: Option<seq<(string, seq<string>)>>)

  /**
   * The matcher `createMatchPath(baseUrl, paths, mainFields)` returns,
   * applied to a specifier and the extensions; `None` where it returns
   * nothing.
   */
  type MatchPath = (string, seq<(string, seq<string>)>, seq<string>, string, seq<string>) -> Option<string>

  /** `paths = {}` when it is not given. */
  function PathsOf(options: CompilerOptions): seq<(string, seq<string>)> {
    if options.paths.Some? then options.paths.value else []
  }

  /** `Object.keys(paths)`. */
  function PathsKeys(options: CompilerOptions): (keys: seq<string>)
    ensures |keys| == |PathsOf(options)|
    ensures forall i :: 0 <= i < |keys| ==> keys[i] == PathsOf(options)[i].0
  {
    seq(|PathsOf(options)|, (i: int) requires 0 <= i < |PathsOf(options)| => PathsOf(options)[i].0)
  }

  /**
   * `key.replace(/\/?\*$/, '')`: a trailing star is removed, together with
   * a slash just before it.
   */
  function StripStar(key: string): (r: string)
    ensures StartsWith(key, r)
    ensures r == key <==> !EndsWith(key, "*")
    ensures r != key ==> key[|r|..] in ["*", "/*"]
    ensures key[|r|..] == "*" ==> !EndsWith(r, "/")
  {
    if EndsWith(key, "/*") then
      key[..|key| - 2]
    else if EndsWith(key, "*") then
      assert |key| >= 2 ==> key[|key| - 2..] == [key[|key| - 2], '*'];
      key[..|key| - 1]
    else
      key
  }

  /** `baseUrl && pathsKeys.length > 0`. */
  predicate CanMatchPath(options: CompilerOptions) {
    HasBaseUrl(options.baseUrl) && |PathsKeys(options)| > 0
  }

  /** `keys.some(x => specifier.startsWith(x))` over the stripped keys. */
  function SomePrefix(keys: seq<string>, specifier: string): (b: bool)
    ensures b <==> exists i :: 0 <= i < |keys| && StartsWith(specifier, StripStar(keys[i]))
  {
    if keys == [] then false
    else StartsWith(specifier, StripStar(keys[0])) || SomePrefix(keys[1..], specifier)
  }

  /** `isInPaths`: constantly false unless matching is enabled. */
  function IsInPaths(options: CompilerOptions, specifier: string): (b: bool)
    ensures b <==> (CanMatchPath(options) &&
      exists i :: 0 <= i < |PathsKeys(options)| && StartsWith(specifier, StripStar(PathsKeys(options)[i])))
  {
    CanMatchPath(options) && SomePrefix(PathsKeys(options), specifier)
  }

  /** `resolvePath`: the matcher's answer when matching is enabled, otherwise nothing. */
  function ResolvePath(options: CompilerOptions, matchPath: MatchPath, specifier: string): (r: Option<string>)
    ensures !CanMatchPath(options) ==> r.None?
    ensures CanMatchPath(options) ==> r == matchPath(options.baseUrl.value, PathsOf(options), MainFields, specifier, Extensions)
  {
    if CanMatchPath(options) then matchPath(options.baseUrl.value, PathsOf(options), MainFields, specifier, Extensions)
    else None
  }

  /** A specifier in paths is one an alias could rewrite: so is every longer specifier with it as prefix. */
  lemma InPathsExtends(options: CompilerOptions, specifier: string, rest: string)
    requires IsInPaths(options, specifier)
    ensures IsInPaths(options, specifier + rest)
  {
    var keys := PathsKeys(options);
    var i :| 0 <= i < |keys| && StartsWith(specifier, StripStar(keys[i]));
    assert (specifier + rest)[..|StripStar(keys[i])|] == specifier[..|StripStar(keys[i])|];
  }

  // A catch-all key, a lone star or a slash and a star, puts every
  // specifier in paths once matching is enabled.
  lemma CatchAllKey(options: CompilerOptions, k: nat, specifier: string)
    requires CanMatchPath(options)
    requires k < |PathsKeys(options)| && PathsKeys(options)[k] in ["*", "/*"]
    ensures IsInPaths(options, specifier)
  {
    var key := PathsKeys(options)[k];
    assert StripStar(key) == [] by {
      if key == "*" {
        assert !EndsWith(key, "/*");
      }
    }
    assert StartsWith(specifier, StripStar(key));
  }

  /** Without a base URL, or without aliases, nothing is in paths and nothing resolves. */
  lemma DisabledMatching(options: CompilerOptions, matchPath: MatchPath, specifier: string)
    requires !HasBaseUrl(options.baseUrl) || options.paths.None? || options.paths == Some([])
    ensures !IsInPaths(options, specifier) && ResolvePath(options, matchPath, specifier).None?
  {
  }

  // The alias key "@app/" followed by a star takes in "@app/main", and also
  // "@application", since the slash is stripped with the star; it does not
  // take in "lodash".
  lemma AliasExample()
    ensures var options := CompilerOptions(Some("."), Some([("@app/*", ["src/*"])]));
      IsInPaths(options, "@app/main") && IsInPaths(options, "@application") && !IsInPaths(options, "lodash")
  {
    var options := CompilerOptions(Some("."), Some([("@app/*", ["src/*"])]));
    assert PathsKeys(options) == ["@app/*"];
    assert EndsWith("@app/*", "/*");
    assert StripStar("@app/*") == "@app";
    assert "@app/main"[..4] == "@app";
    assert "@application"[..4] == "@app";
    assert "lodash"[..4][0] != "@app"[0];
  }
}
