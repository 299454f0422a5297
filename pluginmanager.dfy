/**
 * The plugin dispatch of infrastructure/provideHashDirectoryEnv: the
 * `HashPluginManager` class of PluginManager.ts, which finds the first
 * plugin with an extension ending a path and caches the answer, and the
 * operations that dispatch through it (generateContentHashes.ts,
 * rewriteFileContent.ts and the grouping of rewriteDocumentHashes.ts).
 * A plugin is known by its position in the manager's list, which stands
 * for the object identity the source compares with `===`.
 */
module PluginManager {
  import opened Wrappers
  import opened Text
  import opened Sequences
  import opened Domain

  /** What the manager reads of a plugin: the extensions it claims. */
  datatype Plugin = Plugin(extensions: seq<string>)

  /** Some extension of the plugin ends the path. */
  predicate Matches(plugin: Plugin, file: string) {
    exists k :: 0 <= k < |plugin.extensions| && EndsWith(file, plugin.extensions[k])
  }

  /** The first plugin, in the given order, matching the path. */
  function FirstMatch(plugins: seq<Plugin>, file: string): (r: Option<nat>)
    ensures r.Some? ==> r.value < |plugins|
  {
    if plugins == [] then None
    else if Matches(plugins[0], file) then Some(0)
    else
      var r := FirstMatch(plugins[1..], file);
      if r.Some? then Some(r.value + 1) else None
  }

  /** No plugin matches when nothing is found; otherwise the one found matches and none before it does. */
  lemma {:induction false} FirstMatchIsFirst(plugins: seq<Plugin>, file: string)
    ensures var r := FirstMatch(plugins, file);
      (r.None? <==> forall j :: 0 <= j < |plugins| ==> !Matches(plugins[j], file)) &&
      (r.Some? ==> Matches(plugins[r.value], file) && forall j :: 0 <= j < r.value ==> !Matches(plugins[j], file))
  {
    if plugins != [] && !Matches(plugins[0], file) {
      FirstMatchIsFirst(plugins[1..], file);
      assert forall j :: 1 <= j < |plugins| ==> plugins[j] == plugins[1..][j - 1];
    }
  }

  class HashPluginManager {
    const plugins: seq<Plugin>
    /** The cache `pluginForPath`. */
    var pluginForPath: map<string, nat>

    /** Every cached answer is the answer a fresh search would give. */
    ghost predicate Valid()
      reads this
    {
      forall f :: f in pluginForPath ==> FirstMatch(plugins, f) == Some(pluginForPath[f])
    }

    constructor (plugins: seq<Plugin>)
      ensures this.plugins == plugins && pluginForPath == map[]
      ensures Valid()
    {
      this.plugins := plugins;
      pluginForPath := map[];
    }

    /**
     * `getPlugin`: the cached plugin, or the first plugin with a matching
     * extension, which is then cached. The cache never changes the answer.
     */
    method GetPlugin(file: string) returns (r: Option<nat>)
      requires Valid()
      modifies this
      ensures Valid()
      ensures r == FirstMatch(plugins, file)
      ensures r.Some? ==> pluginForPath == old(pluginForPath)[file := r.value]
      ensures r.None? ==> pluginForPath == old(pluginForPath)
    {
      FirstMatchIsFirst(plugins, file);
      if file in pluginForPath {
        return Some(pluginForPath[file]);
      }
      for i := 0 to |plugins|
        invariant forall j :: 0 <= j < i ==> !Matches(plugins[j], file)
        invariant pluginForPath == old(pluginForPath)
      {
        var plugin := plugins[i];
        for k := 0 to |plugin.extensions|
          invariant forall l :: 0 <= l < k ==> !EndsWith(file, plugin.extensions[l])
          invariant pluginForPath == old(pluginForPath)
        {
          if EndsWith(file, plugin.extensions[k]) {
            pluginForPath := pluginForPath[file := i];
            return Some(i);
          }
        }
      }
      return None;
    }

    /** `getPluginOrThrow`: the plugin, or the error "Unable to find plugin for <file>". */
    method GetPluginOrThrow(file: string) returns (r: Result<nat, string>)
      requires Valid()
      modifies this
      ensures Valid()
      ensures FirstMatch(plugins, file).None? ==> r == Err("Unable to find plugin for " + file)
      ensures FirstMatch(plugins, file).Some? ==> r == Ok(FirstMatch(plugins, file).value)
    {
      var plugin := GetPlugin(file);
      if plugin.None? {
        return Err("Unable to find plugin for " + file);
      }
      return Ok(plugin.value);
    }

    /** generateContentHashes.ts: the hashes the document's plugin generates for it. */
    method GenerateContentHashes(document: Document, generate: (nat, Document) -> map<string, string>)
      returns (r: Result<map<string, string>, string>)
      requires Valid()
      modifies this
      ensures Valid()
      ensures r.Err? <==> FirstMatch(plugins, document.filePath).None?
      ensures r.Ok? ==> r.value == generate(FirstMatch(plugins, document.filePath).value, document)
    {
      var plugin := GetPluginOrThrow(document.filePath);
      if plugin.Err? {
        return Err(plugin.error);
      }
      return Ok(generate(plugin.value, document));
    }

    /** rewriteFileContent.ts: the document as its plugin rewrites it with the hashes. */
    method RewriteFileContent(document: Document, hashes: map<string, string>,
                              rewrite: (nat, Document, map<string, string>) -> Document)
      returns (r: Result<Document, string>)
      requires Valid()
      modifies this
      ensures Valid()
      ensures r.Err? <==> FirstMatch(plugins, document.filePath).None?
      ensures r.Ok? ==> r.value == rewrite(FirstMatch(plugins, document.filePath).value, document, hashes)
    {
      var plugin := GetPluginOrThrow(document.filePath);
      if plugin.Err? {
        return Err(plugin.error);
      }
      return Ok(rewrite(plugin.value, document, hashes));
    }
  }

  /** Every document has a plugin; otherwise `getPluginOrThrow` throws. */
  predicate AllHavePlugins(plugins: seq<Plugin>, documents: seq<Document>) {
    forall i :: 0 <= i < |documents| ==> FirstMatch(plugins, documents[i].filePath).Some?
  }

  /** The first document without a plugin: the one `getPluginOrThrow` throws for. */
  function FirstUnmatched(plugins: seq<Plugin>, documents: seq<Document>): (r: Option<nat>)
    ensures r.None? <==> AllHavePlugins(plugins, documents)
    ensures r.Some? ==> (r.value < |documents| && FirstMatch(plugins, documents[r.value].filePath).None? &&
      AllHavePlugins(plugins, documents[..r.value]))
  {
    if documents == [] then None
    else if FirstMatch(plugins, documents[0].filePath).None? then Some(0)
    else
      var r := FirstUnmatched(plugins, documents[1..]);
      assert forall j :: 1 <= j < |documents| ==> documents[j] == documents[1..][j - 1];
      if r.Some? then
        assert documents[..r.value + 1] == [documents[0]] + documents[1..][..r.value];
        Some(r.value + 1)
      else None
  }

  function PluginOf(plugins: seq<Plugin>, d: Document): nat
    requires FirstMatch(plugins, d.filePath).Some?
  {
    FirstMatch(plugins, d.filePath).value
  }

  /** The plugins of the documents, each once, in order of first appearance. */
  function PluginsInUse(plugins: seq<Plugin>, documents: seq<Document>): seq<nat>
    requires AllHavePlugins(plugins, documents)
  {
    if documents == [] then []
    else AddOnce(PluginsInUse(plugins, documents[..|documents| - 1]), PluginOf(plugins, documents[|documents| - 1]))
  }

  /** The documents of one plugin, in order. */
  function DocumentsOf(plugins: seq<Plugin>, documents: seq<Document>, plugin: nat): seq<Document>
    requires AllHavePlugins(plugins, documents)
  {
    if documents == [] then []
    else
      DocumentsOf(plugins, documents[..|documents| - 1], plugin) +
      (if PluginOf(plugins, documents[|documents| - 1]) == plugin then [documents[|documents| - 1]] else [])
  }

  function Flatten(xss: seq<seq<Document>>): seq<Document> {
    if xss == [] then [] else Flatten(xss[..|xss| - 1]) + xss[|xss| - 1]
  }

  /**
   * `rewriteDocumentHashes(manager)`: the documents split by plugin, each
   * group rewritten by its plugin with the hashes, the results flattened
   * in order of the plugins' first appearance.
   */
  function RewriteDocumentHashes(plugins: seq<Plugin>, documents: seq<Document>, hashes: map<string, string>,
                                 rewrite: (nat, seq<Document>, map<string, string>) -> seq<Document>): (r: Result<seq<Document>, string>)
    ensures r.Err? <==> !AllHavePlugins(plugins, documents)
    ensures r.Err? ==> (FirstUnmatched(plugins, documents).Some? &&
      r.error == "Unable to find plugin for " + documents[FirstUnmatched(plugins, documents).value].filePath)
    ensures r.Ok? ==> (
      var inUse := PluginsInUse(plugins, documents);
      var groups := Groups(plugins, documents);
      |groups| == |inUse| &&
      r.value == Flatten(seq(|groups|, (k: int) requires 0 <= k < |groups| => rewrite(inUse[k], groups[k], hashes))))
  {
    var unmatched := FirstUnmatched(plugins, documents);
    if unmatched.Some? then
      Err("Unable to find plugin for " + documents[unmatched.value].filePath)
    else
      var inUse := PluginsInUse(plugins, documents);
      var groups := Groups(plugins, documents);
      Ok(Flatten(seq(|groups|, (k: int) requires 0 <= k < |groups| => rewrite(inUse[k], groups[k], hashes))))
  }

  /**
   * When every plugin's rewrite keeps the documents it is given, up to
   * order and content changes that keep them as values, the dispatch loses
   * and duplicates nothing: the result is a permutation of the input.
   */
  lemma RewritePreservesDocuments(plugins: seq<Plugin>, documents: seq<Document>, hashes: map<string, string>,
                                  rewrite: (nat, seq<Document>, map<string, string>) -> seq<Document>)
    requires AllHavePlugins(plugins, documents)
    requires forall p: nat, g: seq<Document> :: multiset(rewrite(p, g, hashes)) == multiset(g)
    ensures var r := RewriteDocumentHashes(plugins, documents, hashes, rewrite);
      r.Ok? && multiset(r.value) == multiset(documents)
  {
    var groups := Groups(plugins, documents);
    var inUse := PluginsInUse(plugins, documents);
    var rewritten := seq(|groups|, (k: int) requires 0 <= k < |groups| => rewrite(inUse[k], groups[k], hashes));
    FlattenSameMultisets(rewritten, groups);
    GroupsPartition(plugins, documents);
  }

  /** Flattening lists whose elements agree as multisets gives the same multiset. */
  lemma {:induction false} FlattenSameMultisets(xss: seq<seq<Document>>, yss: seq<seq<Document>>)
    requires |xss| == |yss| && forall k :: 0 <= k < |xss| ==> multiset(xss[k]) == multiset(yss[k])
    ensures multiset(Flatten(xss)) == multiset(Flatten(yss))
  {
    if xss != [] {
      var n := |xss| - 1;
      FlattenSameMultisets(xss[..n], yss[..n]);
    }
  }

  /** Dropping the last document keeps every document matched. */
  lemma InitHavePlugins(plugins: seq<Plugin>, documents: seq<Document>)
    requires AllHavePlugins(plugins, documents) && documents != []
    ensures AllHavePlugins(plugins, documents[..|documents| - 1])
  {
    var init := documents[..|documents| - 1];
    assert forall i :: 0 <= i < |init| ==> init[i] == documents[i];
  }

  /** The plugins used are exactly the plugins of the documents, none twice. */
  lemma {:induction false} PluginsInUseExact(plugins: seq<Plugin>, documents: seq<Document>)
    requires AllHavePlugins(plugins, documents)
    ensures forall p :: p in PluginsInUse(plugins, documents) <==>
      exists i :: 0 <= i < |documents| && PluginOf(plugins, documents[i]) == p
    ensures Distinct(PluginsInUse(plugins, documents))
  {
    if documents != [] {
      var init := documents[..|documents| - 1];
      var n := |documents| - 1;
      InitHavePlugins(plugins, documents);
      PluginsInUseExact(plugins, init);
      var before := PluginsInUse(plugins, init);
      var last := PluginOf(plugins, documents[n]);
      var after := PluginsInUse(plugins, documents);
      assert after == AddOnce(before, last);
      AddOnceMembers(before, last);
      forall p ensures p in after <==> exists i :: 0 <= i < |documents| && PluginOf(plugins, documents[i]) == p {
        if p == last {
          assert PluginOf(plugins, documents[n]) == p;
        }
        if p in before {
          var i :| 0 <= i < |init| && PluginOf(plugins, init[i]) == p;
          assert init[i] == documents[i];
        }
        if exists i :: 0 <= i < |documents| && PluginOf(plugins, documents[i]) == p {
          var i :| 0 <= i < |documents| && PluginOf(plugins, documents[i]) == p;
          if i < n {
            assert init[i] == documents[i];
          }
        }
      }
      if last !in before {
        assert after == before + [last];
      }
    }
  }

  /** A plugin's group holds exactly the documents that plugin was found for, each as often as in the input. */
  lemma {:induction false} DocumentsOfExact(plugins: seq<Plugin>, documents: seq<Document>, plugin: nat)
    requires AllHavePlugins(plugins, documents)
    ensures forall d :: d in DocumentsOf(plugins, documents, plugin) <==>
      d in documents && FirstMatch(plugins, d.filePath) == Some(plugin)
  {
    if documents != [] {
      var init := documents[..|documents| - 1];
      InitHavePlugins(plugins, documents);
      DocumentsOfExact(plugins, init, plugin);
      assert documents == init + [documents[|documents| - 1]];
    }
  }

  /** The documents grouped by plugin, in order of the plugins' first appearance. */
  function Groups(plugins: seq<Plugin>, documents: seq<Document>): seq<seq<Document>>
    requires AllHavePlugins(plugins, documents)
  {
    var inUse := PluginsInUse(plugins, documents);
    seq(|inUse|, (k: int) requires 0 <= k < |inUse| => DocumentsOf(plugins, documents, inUse[k]))
  }

  /** The groups together hold every document exactly as often as the input does. */
  lemma {:induction false} GroupsPartition(plugins: seq<Plugin>, documents: seq<Document>)
    requires AllHavePlugins(plugins, documents)
    ensures multiset(Flatten(Groups(plugins, documents))) == multiset(documents)
    ensures |Flatten(Groups(plugins, documents))| == |documents|
  {
    if documents != [] {
      var init := documents[..|documents| - 1];
      var last := documents[|documents| - 1];
      assert documents == init + [last];
      InitHavePlugins(plugins, documents);
      GroupsPartition(plugins, init);
      GroupsStep(plugins, documents);
    }
    assert |multiset(Flatten(Groups(plugins, documents)))| == |Flatten(Groups(plugins, documents))|;
  }

  /** Grouping one more document adds it to the groups. */
  lemma GroupsStep(plugins: seq<Plugin>, documents: seq<Document>)
    requires AllHavePlugins(plugins, documents) && documents != []
    ensures AllHavePlugins(plugins, documents[..|documents| - 1])
    ensures multiset(Flatten(Groups(plugins, documents))) ==
      multiset(Flatten(Groups(plugins, documents[..|documents| - 1]))) + multiset{documents[|documents| - 1]}
  {
    InitHavePlugins(plugins, documents);
    if PluginOf(plugins, documents[|documents| - 1]) in PluginsInUse(plugins, documents[..|documents| - 1]) {
      GroupsStepKnown(plugins, documents);
    } else {
      GroupsStepNew(plugins, documents);
    }
  }

  /** A document whose plugin is already in use joins that plugin's group. */
  lemma GroupsStepKnown(plugins: seq<Plugin>, documents: seq<Document>)
    requires AllHavePlugins(plugins, documents) && documents != []
    requires AllHavePlugins(plugins, documents[..|documents| - 1])
    requires PluginOf(plugins, documents[|documents| - 1]) in PluginsInUse(plugins, documents[..|documents| - 1])
    ensures multiset(Flatten(Groups(plugins, documents))) ==
      multiset(Flatten(Groups(plugins, documents[..|documents| - 1]))) + multiset{documents[|documents| - 1]}
  {
    var init := documents[..|documents| - 1];
    var last := documents[|documents| - 1];
    var before := PluginsInUse(plugins, init);
    var p := PluginOf(plugins, last);
    var gb := Groups(plugins, init);
    var ga := Groups(plugins, documents);
    PluginsInUseExact(plugins, init);
    var j :| 0 <= j < |before| && before[j] == p;
    assert PluginsInUse(plugins, documents) == before;
    forall k | 0 <= k < |gb| && k != j ensures ga[k] == gb[k] {
      assert before[k] != p by { assert before[k] != before[j]; }
    }
    FlattenBump(gb, ga, j, last);
  }

  /** A document whose plugin is not yet in use opens a new group of its own. */
  lemma GroupsStepNew(plugins: seq<Plugin>, documents: seq<Document>)
    requires AllHavePlugins(plugins, documents) && documents != []
    requires AllHavePlugins(plugins, documents[..|documents| - 1])
    requires PluginOf(plugins, documents[|documents| - 1]) !in PluginsInUse(plugins, documents[..|documents| - 1])
    ensures multiset(Flatten(Groups(plugins, documents))) ==
      multiset(Flatten(Groups(plugins, documents[..|documents| - 1]))) + multiset{documents[|documents| - 1]}
  {
    var init := documents[..|documents| - 1];
    var last := documents[|documents| - 1];
    var before := PluginsInUse(plugins, init);
    var p := PluginOf(plugins, last);
    var gb := Groups(plugins, init);
    var ga := Groups(plugins, documents);
    assert ga == gb + [[last]] by {
      var after := PluginsInUse(plugins, documents);
      assert after == before + [p];
      DocumentsOfAbsent(plugins, init, p);
      assert ga[|ga| - 1] == [last];
      forall k | 0 <= k < |before|
        ensures ga[k] == gb[k]
      {
        assert after[k] == before[k] && before[k] != p;
      }
    }
    assert (gb + [[last]])[..|gb|] == gb;
  }

  /** A plugin no document uses has an empty group. */
  lemma {:induction false} DocumentsOfAbsent(plugins: seq<Plugin>, documents: seq<Document>, plugin: nat)
    requires AllHavePlugins(plugins, documents)
    requires plugin !in PluginsInUse(plugins, documents)
    ensures DocumentsOf(plugins, documents, plugin) == []
  {
    if documents != [] {
      var init := documents[..|documents| - 1];
      InitHavePlugins(plugins, documents);
      DocumentsOfAbsent(plugins, init, plugin);
    }
  }

  /** Flattening groups where one group gained one element at its end gains that element. */
  lemma {:induction false} FlattenBump(gb: seq<seq<Document>>, ga: seq<seq<Document>>, j: nat, x: Document)
    requires |gb| == |ga| && j < |gb|
    requires ga[j] == gb[j] + [x]
    requires forall k :: 0 <= k < |gb| && k != j ==> ga[k] == gb[k]
    ensures multiset(Flatten(ga)) == multiset(Flatten(gb)) + multiset{x}
  {
    var n := |gb| - 1;
    if j < n {
      FlattenBump(gb[..n], ga[..n], j, x);
    } else {
      assert ga[..n] == gb[..n];
    }
  }
}
