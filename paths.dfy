/**
 * Path helpers: the companion-file names of domain/services/paths.ts, the
 * `ensureAbsolute` / `ensureRelative` / `stripRelative` normalisers, and the
 * foreign path and URL functions (Node's posix `path`, `url`, `URL`), which
 * the model takes as parameters.
 */
module Paths {
  import opened Wrappers
  import opened Text

  /**
   * Node's posix `relative`, `dirname`, `basename` and `resolve`, the
   * pathname of `new URL(relativePath, origin)`, and `url.resolve(origin,
   * relativePath)`: uninterpreted.
   */
  datatype Posix = Posix(
    relative: (string, string) -> string,
    dirname: string -> string,
    basename: string -> string,
    resolve: (string, string) -> string,
    urlPathname: (string, string) -> string,
    urlResolve: (string, string) -> string)

  /** infrastructure/applyOrigin.ts: the URL pathname of the file's path relative to the build directory. */
  function ApplyOrigin(lib: Posix, buildDirectory: string, file: string, origin: string): string {
    lib.urlPathname(lib.relative(buildDirectory, file), origin)
  }

  /** common/applyOrigin.ts: the origin resolved against the file's path relative to the build directory. */
  function ResolveOrigin(lib: Posix, buildDirectory: string, file: string, origin: string): string {
    lib.urlResolve(origin, lib.relative(buildDirectory, file))
  }

  /** A `baseUrl` option is truthy: given and not the empty string. */
  predicate HasBaseUrl(baseUrl: Option<string>) {
    baseUrl.Some? && baseUrl.value != ""
  }

  const MapExt := ".map"
  const ProxyJsExt := ".proxy.js"
  const JsExt := ".js"
  const DtsExt := ".d.ts"

  /** The source map of `p` is `p` + '.map'. */
  function SourceMapPathFor(p: string): (r: string)
    ensures EndsWith(r, MapExt) && StartsWith(r, p) && |r| == |p| + 4
  {
    EndsWithAppend(p, MapExt);
    StartsWithAppend(p, MapExt);
    p + MapExt
  }

  /** The module proxy of `p` is `p` + '.proxy.js'. */
  function ProxyMapFor(p: string): (r: string)
    ensures EndsWith(r, ProxyJsExt) && StartsWith(r, p) && |r| == |p| + 9
  {
    EndsWithAppend(p, ProxyJsExt);
    StartsWithAppend(p, ProxyJsExt);
    p + ProxyJsExt
  }

  /** The declaration file of `p`: a trailing '.js' (matched literally) becomes '.d.ts'. */
  function DtsPathFor(p: string): (r: string)
    ensures EndsWith(p, JsExt) ==> r == p[..|p| - 3] + DtsExt && EndsWith(r, DtsExt)
    ensures !EndsWith(p, JsExt) ==> r == p
  {
    if EndsWith(p, JsExt) then
      EndsWithAppend(p[..|p| - 3], DtsExt);
      p[..|p| - 3] + DtsExt
    else p
  }

  lemma SourceMapPathInjective(p: string, q: string)
    requires SourceMapPathFor(p) == SourceMapPathFor(q)
    ensures p == q
  {
    assert p == SourceMapPathFor(p)[..|p|];
  }

  lemma ProxyMapInjective(p: string, q: string)
    requires ProxyMapFor(p) == ProxyMapFor(q)
    ensures p == q
  {
    assert p == ProxyMapFor(p)[..|p|];
  }

  /** A declaration path is no longer a '.js' path, so the rename happens once. */
  lemma DtsPathForIdempotent(p: string)
    ensures DtsPathFor(DtsPathFor(p)) == DtsPathFor(p)
  {
    if EndsWith(p, JsExt) {
      var r := DtsPathFor(p);
      assert r[|r| - 3..][1] == r[|r| - 2] == 't';
    }
  }

  /** `ensureAbsolute` (infrastructure/rewriteDependencies.ts and plugins/generatePathMap.ts): a leading '/'. */
  function EnsureAbsolute(p: string): (r: string)
    ensures StartsWith(r, "/")
    ensures StartsWith(p, "/") ==> r == p
    ensures !StartsWith(p, "/") ==> r == "/" + p
  {
    if p != [] && p[0] == '/' then p else "/" + p
  }

  lemma EnsureAbsoluteIdempotent(p: string)
    ensures EnsureAbsolute(EnsureAbsolute(p)) == EnsureAbsolute(p)
  {
  }

  /** `ensureRelative` of plugins/rewriteFileContent.ts: keep a path starting with '.' or '/', else prefix './'. */
  function EnsureRelative(p: string): (r: string)
    ensures StartsWith(r, ".") || StartsWith(r, "/")
    ensures StartsWith(p, ".") || StartsWith(p, "/") ==> r == p
    ensures !(StartsWith(p, ".") || StartsWith(p, "/")) ==> r == "./" + p
  {
    if p != [] && (p[0] == '.' || p[0] == '/') then p else "./" + p
  }

  lemma EnsureRelativeIdempotent(p: string)
    ensures EnsureRelative(EnsureRelative(p)) == EnsureRelative(p)
  {
  }

  /** `ensureRelative` of plugins/generatePathMap.ts: keep a path starting with '.', else prefix './'. */
  function EnsureDotRelative(p: string): (r: string)
    ensures StartsWith(r, ".")
    ensures StartsWith(p, ".") ==> r == p
    ensures !StartsWith(p, ".") ==> r == "./" + p
  {
    if p != [] && p[0] == '.' then p else "./" + p
  }

  /** `stripRelative`: remove one leading './' or '../'. */
  function StripRelative(p: string): (r: string)
    ensures StartsWith(p, "./") ==> r == p[2..]
    ensures !StartsWith(p, "./") && StartsWith(p, "../") ==> r == p[3..]
    ensures !StartsWith(p, "./") && !StartsWith(p, "../") ==> r == p
    ensures EndsWith(p, r)
  {
    if StartsWith(p, "./") then p[2..]
    else if StartsWith(p, "../") then p[3..]
    else p
  }
}
