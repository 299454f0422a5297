/**
 * The compound file extension of infrastructure/plugins/getFileExtension.ts:
 * '.proxy.js' and '.map' suffixes are peeled off and kept, '.d.ts' is one
 * extension, and anything else is Node's `extname`.
 */
module FileExtension {
  import opened Text
  import opened Paths

  function GetFileExtension(fileName: string): (r: string)
    decreases |fileName|
  {
    if EndsWith(fileName, ProxyJsExt) then GetFileExtension(fileName[..|fileName| - 9]) + ProxyJsExt
    else if EndsWith(fileName, MapExt) then GetFileExtension(fileName[..|fileName| - 4]) + MapExt
    else if EndsWith(fileName, DtsExt) then DtsExt
    else Extname(fileName)
  }

  /** For a file name without '/', the extension is a suffix of the name. */
  lemma {:induction false} ExtensionIsSuffix(fileName: string)
    requires forall i :: 0 <= i < |fileName| ==> fileName[i] != '/'
    ensures EndsWith(fileName, GetFileExtension(fileName))
    decreases |fileName|
  {
    if EndsWith(fileName, ProxyJsExt) {
      var stem := PeelStep(fileName, ProxyJsExt);
      ExtensionIsSuffix(stem);
      SuffixAppend(stem, GetFileExtension(stem), ProxyJsExt);
    } else if EndsWith(fileName, MapExt) {
      var stem := PeelStep(fileName, MapExt);
      ExtensionIsSuffix(stem);
      SuffixAppend(stem, GetFileExtension(stem), MapExt);
    } else if !EndsWith(fileName, DtsExt) {
      assert fileName == [] || fileName[|fileName| - 1] != '/';
    }
  }

  /** One peeled suffix: the name is the stem plus the suffix, and so is its extension. */
  lemma PeelStep(fileName: string, suffix: string) returns (stem: string)
    requires suffix == ProxyJsExt || suffix == MapExt
    requires EndsWith(fileName, suffix)
    requires suffix == MapExt ==> !EndsWith(fileName, ProxyJsExt)
    requires forall i :: 0 <= i < |fileName| ==> fileName[i] != '/'
    ensures fileName == stem + suffix && |stem| < |fileName|
    ensures GetFileExtension(fileName) == GetFileExtension(stem) + suffix
    ensures forall i :: 0 <= i < |stem| ==> stem[i] != '/'
  {
    stem := fileName[..|fileName| - |suffix|];
    assert fileName == stem + suffix;
  }

  lemma SuffixAppend(a: string, b: string, c: string)
    requires EndsWith(a, b)
    ensures EndsWith(a + c, b + c)
  {
    assert (a + c)[|a + c| - |b + c|..] == a[|a| - |b|..] + c;
  }

  /** Peeling one compound suffix, for any name: the extension is the stem's plus that suffix. */
  lemma PeelAny(fileName: string, suffix: string) returns (stem: string)
    requires suffix == ProxyJsExt || suffix == MapExt
    requires EndsWith(fileName, suffix)
    requires suffix == MapExt ==> !EndsWith(fileName, ProxyJsExt)
    ensures GetFileExtension(fileName) == GetFileExtension(stem) + suffix
    ensures EndsWith(GetFileExtension(fileName), suffix)
  {
    stem := fileName[..|fileName| - |suffix|];
    EndsWithAppend(GetFileExtension(stem), suffix);
  }

  /** A suffix fixes the characters at the end of the string. */
  lemma SuffixAt(s: string, suffix: string, k: nat)
    requires k < |suffix|
    ensures EndsWith(s, suffix) ==> s[|s| - |suffix| + k] == suffix[k]
  {
    if EndsWith(s, suffix) {
      assert s[|s| - |suffix|..][k] == suffix[k];
    }
  }

  /** No string ends in both '.map' and '.proxy.js' (their last characters differ). */
  lemma MapNotProxy(s: string)
    ensures !(EndsWith(s, MapExt) && EndsWith(s, ProxyJsExt))
  {
    SuffixAt(s, MapExt, 3);
    SuffixAt(s, ProxyJsExt, 8);
  }

  /**
   * A name not ending in '/' has an extension ending in '.map' exactly when
   * the name ends in '.map': this is how rewriteDocumentContents recognises
   * source maps ('dist/foo.js.map' gives '.js.map').
   */
  lemma {:induction false} MapExtensionIffMapName(fileName: string)
    requires fileName == [] || fileName[|fileName| - 1] != '/'
    ensures EndsWith(GetFileExtension(fileName), MapExt) <==> EndsWith(fileName, MapExt)
  {
    if EndsWith(fileName, ProxyJsExt) {
      ProxyNameNotMap(fileName);
    } else if EndsWith(fileName, MapExt) {
      var stem := PeelAny(fileName, MapExt);
    } else {
      DtsNotMap();
      ExtnameKeepsMap(fileName);
    }
  }

  /** A '.proxy.js' name and its extension both end in '.proxy.js', so neither ends in '.map'. */
  lemma ProxyNameNotMap(fileName: string)
    requires EndsWith(fileName, ProxyJsExt)
    ensures !EndsWith(fileName, MapExt) && !EndsWith(GetFileExtension(fileName), MapExt)
  {
    var stem := PeelAny(fileName, ProxyJsExt);
    MapNotProxy(fileName);
    MapNotProxy(GetFileExtension(fileName));
  }

  /** '.d.ts' does not end in '.map'. */
  lemma DtsNotMap()
    ensures !EndsWith(DtsExt, MapExt)
  {
    SuffixAt(DtsExt, MapExt, 3);
  }

  /** `extname` of a name not ending in '/' is a suffix of it, so it ends in '.map' only if the name does. */
  lemma ExtnameKeepsMap(fileName: string)
    requires fileName == [] || fileName[|fileName| - 1] != '/'
    requires !EndsWith(fileName, MapExt)
    ensures !EndsWith(Extname(fileName), MapExt)
  {
    if EndsWith(Extname(fileName), MapExt) {
      EndsWithTrans(fileName, Extname(fileName), MapExt);
    }
  }

  /** Likewise for the module-proxy suffix '.proxy.js', for every path. */
  lemma {:induction false} ProxyExtensionIffProxyName(fileName: string)
    ensures EndsWith(GetFileExtension(fileName), ProxyJsExt) <==> EndsWith(fileName, ProxyJsExt)
  {
    var r := GetFileExtension(fileName);
    MapNotProxy(r);
    if EndsWith(fileName, ProxyJsExt) {
      var stem := PeelAny(fileName, ProxyJsExt);
    } else if EndsWith(fileName, MapExt) {
      var stem := PeelAny(fileName, MapExt);
    } else if EndsWith(fileName, DtsExt) {
      assert r == DtsExt;
    } else {
      assert r == Extname(fileName);
      SuffixAt(r, ProxyJsExt, 6);
    }
  }

  /** Appending '.map' appends '.map' to the extension ('foobar.js.map' gives '.js.map'). */
  lemma MapSuffix(p: string)
    ensures GetFileExtension(p + MapExt) == GetFileExtension(p) + MapExt
  {
    var name := p + MapExt;
    EndsWithAppend(p, MapExt);
    assert name[|name| - 1] == 'p';
    assert name[..|name| - 4] == p;
  }

  /** Appending '.proxy.js' appends it to the extension ('foobar.css.proxy.js' gives '.css.proxy.js'). */
  lemma ProxySuffix(p: string)
    ensures GetFileExtension(p + ProxyJsExt) == GetFileExtension(p) + ProxyJsExt
  {
    var name := p + ProxyJsExt;
    EndsWithAppend(p, ProxyJsExt);
    assert name[..|name| - 9] == p;
  }

  /** A declaration file's extension is '.d.ts' ('foobar.d.ts'). */
  lemma DtsSuffix(p: string)
    ensures GetFileExtension(p + DtsExt) == DtsExt
  {
    var name := p + DtsExt;
    EndsWithAppend(p, DtsExt);
    assert name[|name| - 1] == 's' && name[|name| - 2] == 't';
  }

  /** A '/'-free name with one '.' and none of the compound suffixes has its `extname` ('foobar.js' gives '.js'). */
  lemma PlainExtension(name: string, k: nat)
    requires 0 < k < |name| && name[k] == '.'
    requires forall i :: 0 <= i < |name| ==> name[i] != '/'
    requires forall i :: 0 <= i < |name| && i != k ==> name[i] != '.'
    requires !EndsWith(name, ProxyJsExt) && !EndsWith(name, MapExt) && !EndsWith(name, DtsExt)
    ensures GetFileExtension(name) == name[k..]
  {
    ExtnameExample(name, k);
  }

  /** `extname` of a '/'-free name whose only '.' is at `k > 0`. */
  lemma ExtnameExample(name: string, k: nat)
    requires 0 < k < |name| && name[k] == '.'
    requires forall i :: 0 <= i < |name| ==> name[i] != '/'
    requires forall i :: 0 <= i < |name| && i != k ==> name[i] != '.'
    ensures Extname(name) == name[k..]
  {
    assert LastIndexOfChar(name, '/') == -1;
    assert LastSegment(name) == name;
    assert LastIndexOfChar(name, '.') == k;
    assert name[0] != '.';
  }

  /** The stem of the file names in getFileExtension.test.ts. */
  const Foobar: string := "foobar"

  /**
   * The examples of getFileExtension.test.ts: 'foobar.js', 'foobar.js.map',
   * 'foobar.js.map.proxy.js', 'foobar.d.ts', 'foobar.d.ts.map' and
   * 'foobar.css.proxy.js', written as concatenations of their suffixes.
   */
  lemma GetFileExtensionExamples()
    ensures GetFileExtension(Foobar + JsExt) == JsExt
    ensures GetFileExtension(Foobar + JsExt + MapExt) == JsExt + MapExt
    ensures GetFileExtension(Foobar + JsExt + MapExt + ProxyJsExt) == JsExt + MapExt + ProxyJsExt
    ensures GetFileExtension(Foobar + DtsExt) == DtsExt
    ensures GetFileExtension(Foobar + DtsExt + MapExt) == DtsExt + MapExt
    ensures GetFileExtension(Foobar + ".css" + ProxyJsExt) == ".css" + ProxyJsExt
  {
    PlainFoobar(JsExt);
    PlainFoobar(".css");
    MapSuffix(Foobar + JsExt);
    ProxySuffix(Foobar + JsExt + MapExt);
    DtsSuffix(Foobar);
    MapSuffix(Foobar + DtsExt);
    ProxySuffix(Foobar + ".css");
  }

  /** 'foobar.js' and 'foobar.css' have the extension after the stem. */
  lemma PlainFoobar(ext: string)
    requires ext == JsExt || ext == ".css"
    ensures GetFileExtension(Foobar + ext) == ext
  {
    FoobarStem();
    if ext == JsExt {
      PlainEndings("foobar.js");
      assert Foobar + ext == "foobar.js";
    } else {
      PlainEndings("foobar.css");
      assert Foobar + ext == "foobar.css";
    }
    PlainStem(Foobar, ext);
  }

  lemma FoobarStem()
    ensures forall i :: 0 <= i < |Foobar| ==> Foobar[i] != '.' && Foobar[i] != '/'
  {
  }

  /** The two plain names of the examples end in none of the peeled suffixes. */
  lemma PlainEndings(name: string)
    requires name == "foobar.js" || name == "foobar.css"
    ensures !EndsWith(name, ProxyJsExt) && !EndsWith(name, MapExt) && !EndsWith(name, DtsExt)
  {
    NotEndsWithAt(name, ProxyJsExt, 0);
    NotEndsWithAt(name, MapExt, 3);
    NotEndsWithAt(name, DtsExt, 3);
  }

  /** A suffix that differs from the end of `s` at one position does not end it. */
  lemma NotEndsWithAt(s: string, suffix: string, j: nat)
    requires j < |suffix| && (|suffix| <= |s| ==> s[|s| - |suffix| + j] != suffix[j])
    ensures !EndsWith(s, suffix)
  {
    if |suffix| <= |s| {
      assert s[|s| - |suffix|..][j] == s[|s| - |suffix| + j];
    }
  }

  /** A name made of a stem and an extension, neither with '/' or a further '.', whose ending is none of the peeled ones. */
  lemma PlainStem(stem: string, ext: string)
    requires stem != [] && forall i :: 0 <= i < |stem| ==> stem[i] != '.' && stem[i] != '/'
    requires ext != [] && ext[0] == '.' && forall i :: 1 <= i < |ext| ==> ext[i] != '.' && ext[i] != '/'
    requires var name := stem + ext; !EndsWith(name, ProxyJsExt) && !EndsWith(name, MapExt) && !EndsWith(name, DtsExt)
    ensures GetFileExtension(stem + ext) == ext
  {
    var name := stem + ext;
    StemDotExtension(stem, ext);
    assert name[|stem|..] == ext;
    PlainExtension(name, |stem|);
  }

  /** The only '.' of such a name is the one starting the extension, and it has no '/'. */
  lemma StemDotExtension(stem: string, ext: string)
    requires forall i :: 0 <= i < |stem| ==> stem[i] != '.' && stem[i] != '/'
    requires ext != [] && ext[0] == '.' && forall i :: 1 <= i < |ext| ==> ext[i] != '.' && ext[i] != '/'
    ensures var name := stem + ext;
      forall i :: 0 <= i < |name| ==> name[i] != '/' && (i != |stem| ==> name[i] != '.')
  {
    var name := stem + ext;
    forall i | 0 <= i < |name| ensures name[i] != '/' && (i != |stem| ==> name[i] != '.') {
      if i >= |stem| {
        assert name[i] == ext[i - |stem|];
      } else {
        assert name[i] == stem[i];
      }
    }
  }
}
