/**
 * The JavaScript plugin of the v2 engine (v2/infrastructure/plugins/javascript.ts):
 * its file-extension rule, its resolution table, its read gate and the
 * dependency each import or export literal becomes. The parsing and the
 * module resolution are foreign: the literals and the resolver are
 * parameters, and v2's resolver always answers with a path.
 */
module V2Javascript {
  import opened Wrappers
  import opened Text
  import opened Paths
  import opened Registry
  import opened Javascript
  import FileExtension

  /** The compound extensions v2 recognises before falling back to `extname`. */
  const V2MultiSeparatedExtensions: seq<string> := [".js.map.proxy.js", ".d.ts.map", ".js.map", DtsExt]
  const V2SupportedExtensions: seq<string> := V2MultiSeparatedExtensions + [JsExt, ".ts", ".jsx", ".tsx"]

  /** v2 `getFileExtension`: the first compound extension ending the path, else `extname`. */
  function V2FileExtension(filePath: string): (r: string)
    ensures (filePath == [] || filePath[|filePath| - 1] != '/') ==> EndsWith(filePath, r)
    ensures r !in V2MultiSeparatedExtensions ==> r == Extname(filePath)
  {
    match FirstSuffix(V2MultiSeparatedExtensions, filePath)
    case Some(e) => e
    case None => Extname(filePath)
  }

  /** The loop of v2 `getFileExtension`, returning at the first compound extension that ends the path. */
  method GetFileExtension(filePath: string) returns (ext: string)
    ensures ext == V2FileExtension(filePath)
  {
    for i := 0 to |V2MultiSeparatedExtensions|
      invariant forall l :: 0 <= l < i ==> !EndsWith(filePath, V2MultiSeparatedExtensions[l])
    {
      if EndsWith(filePath, V2MultiSeparatedExtensions[i]) {
        ext := V2MultiSeparatedExtensions[i];
        assert FirstSuffix(V2MultiSeparatedExtensions, filePath).Some?;
        return;
      }
    }
    ext := Extname(filePath);
  }

  /**
   * A compound extension is reported exactly when the path ends with one,
   * and then it is the earliest listed one that does: '.js.map.proxy.js'
   * before '.js.map', '.d.ts.map' before nothing shorter.
   */
  lemma V2FileExtensionFirstMatch(filePath: string)
    ensures V2FileExtension(filePath) in V2MultiSeparatedExtensions <==>
      exists k :: 0 <= k < |V2MultiSeparatedExtensions| && EndsWith(filePath, V2MultiSeparatedExtensions[k])
    ensures V2FileExtension(filePath) in V2MultiSeparatedExtensions ==>
      exists k :: 0 <= k < |V2MultiSeparatedExtensions| && V2MultiSeparatedExtensions[k] == V2FileExtension(filePath) &&
        forall l :: 0 <= l < k ==> !EndsWith(filePath, V2MultiSeparatedExtensions[l])
  {
    // every compound extension has a second '.', which `extname` never returns
    assert V2MultiSeparatedExtensions[0][3] == '.' && V2MultiSeparatedExtensions[1][2] == '.';
    assert V2MultiSeparatedExtensions[2][3] == '.' && V2MultiSeparatedExtensions[3][2] == '.';
  }

  /** The proxy of a module's source map is recognised whole. */
  lemma V2ProxyOfMapExample(stem: string)
    ensures V2FileExtension(stem + ".js.map.proxy.js") == ".js.map.proxy.js"
  {
    EndsWithAppend(stem, ".js.map.proxy.js");
  }

  /** The source map of a declaration file is recognised whole. */
  lemma V2DeclarationMapExample(stem: string)
    ensures V2FileExtension(stem + ".d.ts.map") == ".d.ts.map"
  {
    var p := stem + ".d.ts.map";
    EndsWithAppend(stem, ".d.ts.map");
    assert !EndsWith(p, V2MultiSeparatedExtensions[0]) by {
      var x := V2MultiSeparatedExtensions[0];
      assert x[|x| - 1] == 's' && p[|p| - 1] == 'p';
      if |x| <= |p| {
        assert p[|p| - |x|..][|x| - 1] == p[|p| - 1];
      }
    }
    assert FirstSuffix(V2MultiSeparatedExtensions, p) == FirstSuffix(V2MultiSeparatedExtensions[1..], p);
    assert V2MultiSeparatedExtensions[1..][0] == ".d.ts.map";
  }

  /** v2 EXTENSIONLESS_EXTENSIONS: the extensions tried for an extensionless specifier. */
  function V2ResolutionExtensions(extension: string): (r: seq<string>)
    ensures |r| >= 1
    ensures extension != JsExt && extension != ".js.map.proxy.js" && extension != DtsExt ==> r == [extension]
    ensures extension != ".js.map.proxy.js" ==> r[0] == extension
  {
    if extension == JsExt then [JsExt]
    else if extension == ".js.map.proxy.js" then [".js.map", MapExt, JsExt]
    else if extension == DtsExt then [DtsExt, ".ts"]
    else [extension]
  }

  lemma V2ResolutionExtensionsTable()
    ensures V2ResolutionExtensions(JsExt) == [JsExt]
    ensures V2ResolutionExtensions(".js.map.proxy.js") == [".js.map", MapExt, JsExt]
    ensures V2ResolutionExtensions(DtsExt) == [DtsExt, ".ts"]
    ensures V2ResolutionExtensions(".jsx") == [".jsx"]
  {
  }

  /** v2 `fsReadFile`: the file with its own hash, no dependencies, and a source map at path + '.map' unless base64 or source maps are off. */
  function V2ReadFile(filePath: string, contents: string, sha512: string -> string,
                      isBase64Encoded: bool, supportsSourceMaps: bool): (r: Document)
    ensures r.filePath == filePath && r.contents == contents && r.dependencies == []
    ensures r.fileExtension == Extname(filePath) && r.isBase64Encoded == isBase64Encoded
    ensures r.contentHash == Some(Hash(sha512(contents)))
    ensures r.sourceMap.Some? <==> !isBase64Encoded && supportsSourceMaps
    ensures r.sourceMap.Some? ==> r.sourceMap.value == SourceMapPathFor(filePath)
  {
    var skipSourceMap := isBase64Encoded || !supportsSourceMaps;
    Document(filePath, Extname(filePath), contents, Some(Hash(sha512(contents))), [],
             if skipSourceMap then None else Some(filePath + MapExt), isBase64Encoded)
  }

  /** The v2 dependency of one literal: its quotes stripped, resolved from `directory`, its range inside the quotes. */
  function V2LiteralDependency(resolve: (string, string, seq<string>) -> string, directory: string,
                               extensions: seq<string>, literal: Literal): (r: Dependency)
    ensures r.specifier == StripSpecifier(literal.text)
    ensures r.filePath == resolve(r.specifier, directory, extensions)
    ensures r.fileExtension == V2FileExtension(r.filePath)
    ensures r.position == Position(literal.start + 1, literal.end - 1)
  {
    var specifier := StripSpecifier(literal.text);
    var filePath := resolve(specifier, directory, extensions);
    Dependency(specifier, filePath, V2FileExtension(filePath), LiteralRange(literal.start, literal.end))
  }

  /**
   * v2 `findDependencies`: one dependency per literal, in order. Unlike the
   * content-hashes plugin nothing is skipped or deduplicated.
   */
  function V2FindDependencies(lib: Posix, resolve: (string, string, seq<string>) -> string,
                              document: Document, literals: seq<Literal>): (r: Document)
    ensures r == document.(dependencies := r.dependencies)
    ensures |r.dependencies| == |literals|
    ensures forall i :: 0 <= i < |literals| ==>
      r.dependencies[i] == V2LiteralDependency(resolve, lib.dirname(document.filePath),
                                               V2ResolutionExtensions(V2FileExtension(document.filePath)), literals[i])
  {
    var directory := lib.dirname(document.filePath);
    var extensions := V2ResolutionExtensions(V2FileExtension(document.filePath));
    document.(dependencies := seq(|literals|, (i: int) requires 0 <= i < |literals| =>
      V2LiteralDependency(resolve, directory, extensions, literals[i])))
  }

  /** A literal written in quotes becomes a dependency on its unquoted text, over exactly that text. */
  lemma V2QuotedLiteral(lib: Posix, resolve: (string, string, seq<string>) -> string, document: Document,
                        literals: seq<Literal>, i: nat, q1: char, body: string, q2: char)
    requires i < |literals| && IsQuote(q1) && IsQuote(q2) && literals[i].text == [q1] + body + [q2]
    ensures var d := V2FindDependencies(lib, resolve, document, literals).dependencies[i];
      d.specifier == body && d.position.end - d.position.start == literals[i].end - literals[i].start - 2
  {
    StripQuoted(q1, body, q2);
  }

  /**
   * The read gate as written: the plugin answers None, logging "Unsupported
   * file extension", exactly when the extension IS one of its supported
   * extensions.
   */
  predicate V2RefusesAsWritten(filePath: string) {
    V2FileExtension(filePath) in V2SupportedExtensions
  }

  /** The gate as intended: the plugin refuses the files whose extension is not supported. */
  predicate V2Refuses(filePath: string) {
    V2FileExtension(filePath) !in V2SupportedExtensions
  }

  /** As written, a declaration file is refused and a stylesheet is read as JavaScript. */
  lemma V2GateInverted()
    ensures V2RefusesAsWritten(FileExtension.Foobar + DtsExt)
    ensures !V2RefusesAsWritten(FileExtension.Foobar + ".css")
  {
    var dts := FileExtension.Foobar + DtsExt;
    EndsWithAppend(FileExtension.Foobar, DtsExt);
    assert FirstSuffix(V2MultiSeparatedExtensions, dts).Some? by {
      assert EndsWith(dts, V2MultiSeparatedExtensions[3]);
    }
    V2FileExtensionFirstMatch(dts);
    V2StylesheetRefused();
  }

  /** The intended gate refuses a stylesheet. */
  lemma V2StylesheetRefused()
    ensures V2Refuses(FileExtension.Foobar + ".css")
    ensures V2FileExtension(FileExtension.Foobar + ".css") == ".css"
  {
    var css := FileExtension.Foobar + ".css";
    StylesheetNotCompound();
    assert Extname(css) == ".css" by {
      FileExtension.FoobarStem();
      FileExtension.StemDotExtension(FileExtension.Foobar, ".css");
      FileExtension.ExtnameExample(css, 6);
    }
    StylesheetNotSupported();
  }

  /** 'foobar.css' ends in none of the compound extensions. */
  lemma StylesheetNotCompound()
    ensures FirstSuffix(V2MultiSeparatedExtensions, FileExtension.Foobar + ".css").None?
  {
    var css := FileExtension.Foobar + ".css";
    FileExtension.NotEndsWithAt(css, V2MultiSeparatedExtensions[0], 0);
    FileExtension.NotEndsWithAt(css, V2MultiSeparatedExtensions[1], 8);
    FileExtension.NotEndsWithAt(css, V2MultiSeparatedExtensions[2], 6);
    FileExtension.NotEndsWithAt(css, V2MultiSeparatedExtensions[3], 0);
  }

  /** '.css' is not a supported extension. */
  lemma StylesheetNotSupported()
    ensures ".css" !in V2SupportedExtensions
  {
    forall k | 0 <= k < |V2SupportedExtensions| ensures V2SupportedExtensions[k] != ".css" {
      var e := V2SupportedExtensions[k];
      assert |e| != 4 || e[1] != 'c' by {
        assert V2SupportedExtensions == [".js.map.proxy.js", ".d.ts.map", ".js.map", ".d.ts", ".js", ".ts", ".jsx", ".tsx"];
      }
    }
  }

  /** The intended gate reads a file with any compound extension. */
  lemma V2ReadsCompound(filePath: string)
    requires exists k :: 0 <= k < |V2MultiSeparatedExtensions| && EndsWith(filePath, V2MultiSeparatedExtensions[k])
    ensures !V2Refuses(filePath)
  {
    V2FileExtensionFirstMatch(filePath);
  }

  /**
   * v2 `readFilePath` with the gate as intended: nothing for an
   * unsupported extension, otherwise the file read with source maps and
   * its dependencies found.
   */
  function V2ReadFilePath(lib: Posix, resolve: (string, string, seq<string>) -> string, filePath: string,
                          contents: string, sha512: string -> string, literalsOf: Document -> seq<Literal>): (r: Option<Document>)
    ensures r.None? <==> V2Refuses(filePath)
    ensures r.Some? ==> (r.value.filePath == filePath && r.value.contents == contents &&
      r.value.contentHash == Some(Hash(sha512(contents))) && r.value.sourceMap == Some(SourceMapPathFor(filePath)) &&
      |r.value.dependencies| == |literalsOf(V2ReadFile(filePath, contents, sha512, false, true))|)
    ensures r.Some? ==>
      var initial := V2ReadFile(filePath, contents, sha512, false, true);
      var literals := literalsOf(initial);
      r.value == V2FindDependencies(lib, resolve, initial, literals) &&
      forall i :: 0 <= i < |literals| ==>
        r.value.dependencies[i] == V2LiteralDependency(resolve, lib.dirname(filePath),
                                                       V2ResolutionExtensions(V2FileExtension(filePath)), literals[i])
  {
    if V2Refuses(filePath) then None
    else
      var initial := V2ReadFile(filePath, contents, sha512, false, true);
      Some(V2FindDependencies(lib, resolve, initial, literalsOf(initial)))
  }
}
