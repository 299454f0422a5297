/**
 * The string logic of the JavaScript plugin (infrastructure/plugins/javascript.ts):
 * which files it reads and how, the quotes around a module specifier, the
 * extensions tried when resolving one, and the dependency a resolved
 * string literal becomes. Parsing with ts-morph and module resolution are
 * foreign: the literals and the resolver are parameters.
 */
module Javascript {
  import opened Wrappers
  import opened Text
  import opened Paths
  import opened Sequences
  import opened Registry
  import opened Hashes
  import opened FileExtension

  predicate IsQuote(c: char) {
    c == '\'' || c == '"'
  }

  /** `stripPrefix`: one leading quote removed. */
  function StripPrefix(s: string): (r: string)
    ensures s != [] && IsQuote(s[0]) ==> r == s[1..]
    ensures !(s != [] && IsQuote(s[0])) ==> r == s
  {
    if s != [] && IsQuote(s[0]) then s[1..] else s
  }

  /** `stripPostfix`: one trailing quote removed. */
  function StripPostfix(s: string): (r: string)
    ensures s != [] && IsQuote(s[|s| - 1]) ==> r == s[..|s| - 1]
    ensures !(s != [] && IsQuote(s[|s| - 1])) ==> r == s
  {
    if s != [] && IsQuote(s[|s| - 1]) then s[..|s| - 1] else s
  }

  /** `stripSpecifier`: the trailing quote, then the leading one. */
  function StripSpecifier(s: string): string {
    StripPrefix(StripPostfix(s))
  }

  /**
   * At most one character goes from each end, and only a quote: the result
   * is `s[a..b]` where a character is dropped at the front or back only if
   * it is a quote.
   */
  lemma StripSpecifierInfix(s: string)
    ensures var r := StripSpecifier(s);
      exists a, b :: 0 <= a <= 1 && |s| - 1 <= b <= |s| && a <= b && r == s[a..b] &&
                     (a == 1 ==> IsQuote(s[0])) && (b == |s| - 1 ==> IsQuote(s[|s| - 1]))
  {
    var t := StripPostfix(s);
    var b := |t|;
    var a := if t != [] && IsQuote(t[0]) then 1 else 0;
    assert t == s[..b];
    assert StripSpecifier(s) == s[a..b];
  }

  /** The text of a quoted literal loses exactly its two quotes. */
  lemma StripQuoted(q1: char, body: string, q2: char)
    requires IsQuote(q1) && IsQuote(q2)
    ensures StripSpecifier([q1] + body + [q2]) == body
  {
    var s := [q1] + body + [q2];
    assert s[..|s| - 1] == [q1] + body;
    assert ([q1] + body)[1..] == body;
  }

  /** Text with no quote at either end is kept. */
  lemma StripUnquoted(s: string)
    requires s == [] || (!IsQuote(s[0]) && !IsQuote(s[|s| - 1]))
    ensures StripSpecifier(s) == s
  {
  }

  /**
   * The range of a dependency: the literal from `start` to `end` without
   * its quotes. For a quoted literal it covers exactly its unquoted text.
   */
  function LiteralRange(start: int, end: int): (r: Position)
    ensures r.end - r.start == end - start - 2
  {
    Position(start + 1, end - 1)
  }

  lemma LiteralRangeCoversSpecifier(contents: string, start: nat, end: nat)
    requires start + 2 <= end <= |contents|
    requires IsQuote(contents[start]) && IsQuote(contents[end - 1])
    ensures var r := LiteralRange(start, end);
      0 <= r.start <= r.end <= |contents| &&
      contents[r.start..r.end] == StripSpecifier(contents[start..end])
  {
    var body := contents[start + 1..end - 1];
    assert contents[start..end] == [contents[start]] + body + [contents[end - 1]];
    StripQuoted(contents[start], body, contents[end - 1]);
  }

  /** The compound extensions whose files point their hash at a sibling. */
  const MultiSeparatedExtensions: seq<string> := [ProxyJsExt, ".d.ts.map", ".js.map", DtsExt]
  const SimpleExtensions: seq<string> := [JsExt, ".ts", ".jsx", ".tsx"]
  const SupportedExtensions: seq<string> := MultiSeparatedExtensions + SimpleExtensions

  /** Some listed extension ends `ext`. */
  predicate AnySuffix(exts: seq<string>, ext: string) {
    exists k :: 0 <= k < |exts| && EndsWith(ext, exts[k])
  }

  /** `getExtensions` (EXTENSIONLESS_EXTENSIONS): the extensions tried for an extensionless specifier. */
  function ResolutionExtensions(extension: string): (r: seq<string>)
    ensures |r| >= 1 && r[0] == extension
    ensures extension != JsExt && extension != ".jsx" && extension != DtsExt ==> r == [extension]
  {
    if extension == JsExt then [JsExt, ".jsx"]
    else if extension == ".jsx" then [".jsx", JsExt]
    else if extension == DtsExt then [DtsExt, ".ts", JsExt]
    else [extension]
  }

  /** The tables of EXTENSIONLESS_EXTENSIONS. */
  lemma ResolutionExtensionsTable()
    ensures ResolutionExtensions(JsExt) == [JsExt, ".jsx"]
    ensures ResolutionExtensions(".jsx") == [".jsx", JsExt]
    ensures ResolutionExtensions(DtsExt) == [DtsExt, ".ts", JsExt]
    ensures |ResolutionExtensions(".css")| == 1
  {
  }

  /**
   * `getProxyReplacementExt`: the extension without its last nine
   * characters (JavaScript's `slice(0, -9)`, empty when shorter), and then
   * without a trailing '.map'.
   */
  function ProxyReplacementExt(ext: string): string {
    var base := if |ext| >= 9 then ext[..|ext| - 9] else [];
    if EndsWith(base, MapExt) then base[..|base| - 4] else base
  }

  /** The proxy of a source map points at the module the map belongs to: '.js.map.proxy.js' gives '.js'. */
  lemma ProxyOfMapReplacement(e: string)
    ensures ProxyReplacementExt(e + MapExt + ProxyJsExt) == e
  {
    var ext := e + MapExt + ProxyJsExt;
    assert ext[..|ext| - 9] == e + MapExt;
    EndsWithAppend(e, MapExt);
    assert (e + MapExt)[..|e|] == e;
  }

  /** The proxy of any other asset points at the asset: '.css.proxy.js' gives '.css'. */
  lemma ProxyOfAssetReplacement(e: string)
    requires !EndsWith(e, MapExt)
    ensures ProxyReplacementExt(e + ProxyJsExt) == e
  {
    var ext := e + ProxyJsExt;
    assert ext[..|ext| - 9] == e;
  }

  /** How the plugin reads a path: not at all, or with source maps on or off and an optional sibling to take the hash from. */
  datatype ReadPlan = Unsupported | Read(supportsSourceMaps: bool, hashForExt: Option<string>)

  /**
   * The gate and the options of `readFilePath`: unsupported when no
   * supported extension ends the compound extension; a module proxy is read
   * without source maps; a compound extension takes the hash of its '.js'
   * sibling, or for a proxy of the sibling `getProxyReplacementExt` names.
   */
  function PlanRead(filePath: string): (r: ReadPlan)
    ensures var ext := GetFileExtension(filePath);
      (r.Unsupported? <==> !AnySuffix(SupportedExtensions, ext)) &&
      (r.Read? ==> r.supportsSourceMaps == !EndsWith(ext, ProxyJsExt)) &&
      (r.Read? ==> (r.hashForExt.Some? <==> AnySuffix(MultiSeparatedExtensions, ext)))
  {
    var ext := GetFileExtension(filePath);
    if !AnySuffix(SupportedExtensions, ext) then Unsupported
    else
      var isProxyJs := EndsWith(ext, ProxyJsExt);
      Read(!isProxyJs,
           if AnySuffix(MultiSeparatedExtensions, ext)
           then Some(if isProxyJs then ProxyReplacementExt(ext) else JsExt)
           else None)
  }

  /** The document the plugin starts from: the file as read, pointed at its sibling when the plan says so. */
  function PlannedDocument(initial: Document, plan: ReadPlan): (r: Document)
    requires plan.Read?
    ensures plan.hashForExt.None? ==> r == initial
    ensures plan.hashForExt.Some? ==> r == GetHashFor(initial, plan.hashForExt.value)
  {
    match plan.hashForExt
    case None => initial
    case Some(e) => GetHashFor(initial, e)
  }

  /** A declaration file takes its hash from the '.js' file beside it: 'bar.d.ts' points at 'bar.js'. */
  lemma DeclarationPointsAtModule(stem: string, initial: Document)
    requires initial.filePath == stem + DtsExt && initial.fileExtension == DtsExt
    ensures PlanRead(stem + DtsExt) == Read(true, Some(JsExt))
    ensures PlannedDocument(initial, Read(true, Some(JsExt))).contentHash == Some(HashFor(stem + JsExt))
  {
    DtsSuffix(stem);
    assert EndsWith(DtsExt, MultiSeparatedExtensions[3]);
    assert EndsWith(DtsExt, SupportedExtensions[3]);
    assert !EndsWith(DtsExt, ProxyJsExt);
    EndsWithAppend(stem, DtsExt);
    EndsWithMatchesPattern(initial.filePath, DtsExt);
    assert initial.filePath[..|stem|] == stem;
  }

  /** A plain module ('.js') is read with source maps and keeps its own hash. */
  lemma PlainModuleKeepsHash(filePath: string)
    requires GetFileExtension(filePath) == JsExt
    ensures PlanRead(filePath) == Read(true, None)
  {
    assert EndsWith(JsExt, SupportedExtensions[4]);
    assert !AnySuffix(MultiSeparatedExtensions, JsExt) by {
      assert forall k :: 0 <= k < |MultiSeparatedExtensions| ==> |MultiSeparatedExtensions[k]| > |JsExt| || MultiSeparatedExtensions[k] == ".d.ts";
      assert !EndsWith(JsExt, DtsExt);
    }
    assert !EndsWith(JsExt, ProxyJsExt);
  }

  /** A stylesheet is not the plugin's: '.css' is unsupported. */
  lemma StylesheetUnsupported(filePath: string)
    requires GetFileExtension(filePath) == ".css"
    ensures PlanRead(filePath) == Unsupported
  {
    var ext := ".css";
    assert forall k :: 0 <= k < |SupportedExtensions| ==> !EndsWith(ext, SupportedExtensions[k]) by {
      assert ext[|ext| - 1] == 's' && ext[|ext| - 2] == 's';
    }
  }

  /** The module proxy of a stylesheet is read without source maps and takes the stylesheet's hash. */
  lemma StylesheetProxyPointsAtStylesheet(stem: string)
    requires GetFileExtension(stem + ".css") == ".css"
    ensures PlanRead(stem + ".css" + ProxyJsExt) == Read(false, Some(".css"))
  {
    ProxySuffix(stem + ".css");
    var ext := ".css" + ProxyJsExt;
    EndsWithAppend(".css", ProxyJsExt);
    assert EndsWith(ext, MultiSeparatedExtensions[0]);
    assert EndsWith(ext, SupportedExtensions[0]);
    assert !EndsWith(".css", MapExt);
    ProxyOfAssetReplacement(".css");
  }

  /**
   * `fsReadFile`: the document of a file read from disk (its contents and
   * the SHA-512 of its contents are given), with its own hash and no
   * dependencies; a source map is expected at path + '.map' unless the
   * contents are base64, source maps are off, or the file is itself a map
   * or a proxy.
   */
  function ReadFile(filePath: string, contents: string, sha512: string -> string,
                    isBase64Encoded: bool, supportsSourceMaps: bool): (r: Document)
    ensures r.filePath == filePath && r.contents == contents && r.dependencies == []
    ensures r.fileExtension == GetFileExtension(filePath) && r.isBase64Encoded == isBase64Encoded
    ensures r.contentHash == Some(Hash(sha512(contents)))
    ensures r.sourceMap.Some? <==>
      !isBase64Encoded && supportsSourceMaps && !EndsWith(r.fileExtension, MapExt) && !EndsWith(r.fileExtension, ProxyJsExt)
    ensures r.sourceMap.Some? ==> r.sourceMap.value == SourceMapPathFor(filePath)
  {
    var fileExtension := GetFileExtension(filePath);
    var skipSourceMap := isBase64Encoded || !supportsSourceMaps ||
                         EndsWith(fileExtension, MapExt) || EndsWith(fileExtension, ProxyJsExt);
    Document(filePath, fileExtension, contents, Some(Hash(sha512(contents))), [],
             if skipSourceMap then None else Some(filePath + MapExt), isBase64Encoded)
  }

  /** The module specifiers never resolved: Node's builtin modules (a parameter) and 'tslib'. */
  function SpecifiersToSkip(builtins: seq<string>): seq<string> {
    builtins + ["tslib"]
  }

  /** A string literal found in a module: its text with its quotes, and where it starts and ends. */
  datatype Literal = Literal(text: string, start: int, end: int)

  /**
   * The literals ts-morph finds in a module: import and export specifiers
   * (and `serviceWorker.register` arguments), and the string literals of its
   * export assignments.
   */
  datatype SourceLiterals = SourceLiterals(standard: seq<Literal>, exportAssignments: seq<Literal>)

  /** The foreign parts of the plugin: path functions, the builtin modules, and the resolver of (specifier, directory, extensions). */
  datatype Host = Host(lib: Posix, builtins: seq<string>, resolve: (string, string, seq<string>) -> Option<string>)

  /**
   * The literals resolved, each paired with whether only its base name is
   * resolved: the standard ones, then, for a module proxy, the export
   * assignments' literals (absolute paths the proxy points at).
   */
  function TaggedLiterals(extension: string, literals: SourceLiterals): (r: seq<(Literal, bool)>)
    ensures |r| == |literals.standard| + (if EndsWith(extension, ProxyJsExt) then |literals.exportAssignments| else 0)
    ensures forall i :: 0 <= i < |literals.standard| ==> r[i] == (literals.standard[i], false)
    ensures forall i :: |literals.standard| <= i < |r| ==> r[i] == (literals.exportAssignments[i - |literals.standard|], true)
  {
    seq(|literals.standard|, (i: int) requires 0 <= i < |literals.standard| => (literals.standard[i], false)) +
    if EndsWith(extension, ProxyJsExt)
    then seq(|literals.exportAssignments|, (i: int) requires 0 <= i < |literals.exportAssignments| => (literals.exportAssignments[i], true))
    else []
  }

  /**
   * The dependency a literal becomes: the unquoted specifier (its base name,
   * made relative, when `useBaseName`) is skipped when listed, else resolved
   * from `directory` with the extensions to try.
   */
  function LiteralDependency(host: Host, directory: string, extensions: seq<string>, literal: (Literal, bool)): (r: Option<Dependency>)
    ensures var specifier := StripSpecifier(literal.0.text);
      var moduleSpecifier := if literal.1 then EnsureRelative(host.lib.basename(specifier)) else specifier;
      var resolved := host.resolve(moduleSpecifier, directory, extensions);
      (moduleSpecifier in SpecifiersToSkip(host.builtins) ==> r.None?) &&
      (moduleSpecifier !in SpecifiersToSkip(host.builtins) ==>
        (r.Some? <==> resolved.Some?) &&
        (r.Some? ==> r.value == Dependency(specifier, resolved.value, GetFileExtension(resolved.value),
                                           LiteralRange(literal.0.start, literal.0.end))))
  {
    var specifier := StripSpecifier(literal.0.text);
    var moduleSpecifier := if literal.1 then EnsureRelative(host.lib.basename(specifier)) else specifier;
    if moduleSpecifier in SpecifiersToSkip(host.builtins) then None
    else
      match host.resolve(moduleSpecifier, directory, extensions)
      case None => None
      case Some(filePath) => Some(Dependency(specifier, filePath, GetFileExtension(filePath), LiteralRange(literal.0.start, literal.0.end)))
  }

  /** The resolved dependencies in literal order. */
  function Resolved(host: Host, directory: string, extensions: seq<string>, literals: seq<(Literal, bool)>): seq<Dependency>
  {
    if literals == [] then []
    else
      Resolved(host, directory, extensions, literals[..|literals| - 1]) +
      match LiteralDependency(host, directory, extensions, literals[|literals| - 1])
      case None => []
      case Some(d) => [d]
  }

  /** A dependency is its own key: `dependencyEq` compares every field. */
  function DependencyKey(d: Dependency): Dependency {
    d
  }

  /**
   * `findDependencies`: the document with its dependencies replaced by the
   * resolved literals, duplicates under `dependencyEq` removed. The
   * directory and the extensions to try come from the document's path.
   */
  function FindDependencies(host: Host, document: Document, literals: SourceLiterals): (r: Document)
    ensures r == document.(dependencies := r.dependencies)
  {
    var extension := GetFileExtension(document.filePath);
    var tagged := TaggedLiterals(extension, literals);
    document.(dependencies := UniqBy(Resolved(host, host.lib.dirname(document.filePath), ResolutionExtensions(extension), tagged), DependencyKey))
  }

  /** Every resolved dependency comes from a literal that is not skipped. */
  lemma {:induction false} ResolvedFromLiterals(host: Host, directory: string, extensions: seq<string>, literals: seq<(Literal, bool)>)
    ensures forall d :: d in Resolved(host, directory, extensions, literals) ==>
      exists k :: 0 <= k < |literals| && LiteralDependency(host, directory, extensions, literals[k]) == Some(d)
  {
    if literals != [] {
      var p := literals[..|literals| - 1];
      ResolvedFromLiterals(host, directory, extensions, p);
      assert forall k :: 0 <= k < |p| ==> p[k] == literals[k];
    }
  }

  /** Every literal that resolves yields a dependency in the list. */
  lemma {:induction false} LiteralsResolved(host: Host, directory: string, extensions: seq<string>, literals: seq<(Literal, bool)>)
    ensures forall k :: 0 <= k < |literals| && LiteralDependency(host, directory, extensions, literals[k]).Some? ==>
      LiteralDependency(host, directory, extensions, literals[k]).value in Resolved(host, directory, extensions, literals)
  {
    if literals != [] {
      var p := literals[..|literals| - 1];
      LiteralsResolved(host, directory, extensions, p);
      assert forall k :: 0 <= k < |p| ==> p[k] == literals[k];
    }
  }

  /** The deduplicated dependencies of some tagged literals: distinct, each from a literal, and none lost. */
  lemma UniqResolvedProperties(host: Host, directory: string, exts: seq<string>, tagged: seq<(Literal, bool)>)
    ensures var deps := UniqBy(Resolved(host, directory, exts, tagged), DependencyKey);
      Distinct(deps) &&
      (forall i :: 0 <= i < |deps| ==>
        exists k :: 0 <= k < |tagged| && LiteralDependency(host, directory, exts, tagged[k]) == Some(deps[i])) &&
      (forall k :: 0 <= k < |tagged| && LiteralDependency(host, directory, exts, tagged[k]).Some? ==>
        LiteralDependency(host, directory, exts, tagged[k]).value in deps)
  {
    var all := Resolved(host, directory, exts, tagged);
    var deps := UniqBy(all, DependencyKey);
    UniqByDistinctKeys(all, DependencyKey);
    UniqBySubset(all, DependencyKey);
    UniqByAllKeys(all, DependencyKey);
    ResolvedFromLiterals(host, directory, exts, tagged);
    LiteralsResolved(host, directory, exts, tagged);
    forall i | 0 <= i < |deps|
      ensures exists k :: 0 <= k < |tagged| && LiteralDependency(host, directory, exts, tagged[k]) == Some(deps[i])
    {
      var j :| 0 <= j < |all| && deps[i] == all[j];
      assert all[j] in all;
    }
    forall k | 0 <= k < |tagged| && LiteralDependency(host, directory, exts, tagged[k]).Some?
      ensures LiteralDependency(host, directory, exts, tagged[k]).value in deps
    {
      var d := LiteralDependency(host, directory, exts, tagged[k]).value;
      var j :| 0 <= j < |all| && all[j] == d;
      assert HasKey(deps, DependencyKey, DependencyKey(all[j]));
    }
  }

  /**
   * The dependencies of a module: no two equal, each from one of its
   * tagged literals (so none from a skipped specifier), and every literal
   * that resolves is represented.
   */
  lemma FindDependenciesProperties(host: Host, document: Document, literals: SourceLiterals)
    ensures var extension := GetFileExtension(document.filePath);
      var tagged := TaggedLiterals(extension, literals);
      var directory := host.lib.dirname(document.filePath);
      var exts := ResolutionExtensions(extension);
      var deps := FindDependencies(host, document, literals).dependencies;
      Distinct(deps) &&
      (forall i :: 0 <= i < |deps| ==>
        exists k :: 0 <= k < |tagged| && LiteralDependency(host, directory, exts, tagged[k]) == Some(deps[i])) &&
      (forall k :: 0 <= k < |tagged| && LiteralDependency(host, directory, exts, tagged[k]).Some? ==>
        LiteralDependency(host, directory, exts, tagged[k]).value in deps)
  {
    var extension := GetFileExtension(document.filePath);
    var tagged := TaggedLiterals(extension, literals);
    var directory := host.lib.dirname(document.filePath);
    var exts := ResolutionExtensions(extension);
    assert FindDependencies(host, document, literals).dependencies == UniqBy(Resolved(host, directory, exts, tagged), DependencyKey);
    UniqResolvedProperties(host, directory, exts, tagged);
  }

  /** Only a module proxy's export assignments are resolved by base name, and a plain module never looks at them. */
  lemma ExportAssignmentsOnlyForProxies(literals: SourceLiterals, extension: string)
    requires !EndsWith(extension, ProxyJsExt)
    ensures TaggedLiterals(extension, literals) == seq(|literals.standard|, (i: int) requires 0 <= i < |literals.standard| => (literals.standard[i], false))
  {
  }

  /**
   * `readFilePath` of the JavaScript plugin: nothing for an unsupported
   * extension; otherwise the file as read (without source maps for a
   * proxy), pointed at its sibling's hash for a compound extension, with
   * its dependencies found.
   */
  function ReadFilePath(host: Host, filePath: string, contents: string, sha512: string -> string,
                        literalsOf: Document -> SourceLiterals): (r: Option<Document>)
    ensures var plan := PlanRead(filePath);
      (r.None? <==> plan.Unsupported?) &&
      (r.Some? ==>
        var initial := ReadFile(filePath, contents, sha512, false, plan.supportsSourceMaps);
        var document := PlannedDocument(initial, plan);
        r.value == FindDependencies(host, document, literalsOf(document)))
  {
    var plan := PlanRead(filePath);
    if plan.Unsupported? then None
    else
      var initial := ReadFile(filePath, contents, sha512, false, plan.supportsSourceMaps);
      var document := PlannedDocument(initial, plan);
      Some(FindDependencies(host, document, literalsOf(document)))
  }

  /**
   * What the plugin reports for a file it reads: its own path and
   * contents, never base64, and a content hash that is its own SHA-512
   * exactly when the extension is not a compound one, else a hashFor link to
   * its sibling.
   */
  lemma ReadFilePathDocument(host: Host, filePath: string, contents: string, sha512: string -> string,
                             literalsOf: Document -> SourceLiterals)
    requires ReadFilePath(host, filePath, contents, sha512, literalsOf).Some?
    ensures var d := ReadFilePath(host, filePath, contents, sha512, literalsOf).value;
      var ext := GetFileExtension(filePath);
      d.filePath == filePath && d.contents == contents && !d.isBase64Encoded && d.fileExtension == ext &&
      (!AnySuffix(MultiSeparatedExtensions, ext) ==> d.contentHash == Some(Hash(sha512(contents)))) &&
      (AnySuffix(MultiSeparatedExtensions, ext) ==> d.contentHash.Some? && d.contentHash.value.HashFor?) &&
      (EndsWith(ext, ProxyJsExt) ==> d.sourceMap.None?)
  {
  }
}
