/**
 * `generatePathMap` of infrastructure/plugins/generatePathMap.ts: for every
 * hashed file, the ways a file at `filePath` may refer to it (absolute from
 * the build directory, relative with a leading '.', and relative without
 * it when the file is not in a parent directory), each mapped to the hashed
 * file's URL. The entries are put into one record, so a later hashed file
 * wins a shared key.
 */
module PathMap {
  import opened Wrappers
  import opened Text
  import opened Paths
  import opened Hashes
  import opened OrderedMaps

  /**
   * Where a hashed file is referred to: its path with the hash inserted
   * before its `extname`, resolved against the origin. The three-argument
   * `replaceHash(from, ext, hash)` imported from the domain is taken to be
   * the path-level one; the domain's own `replaceHash` renames documents.
   */
  function RemountTarget(lib: Posix, buildDirectory: string, baseUrl: string, from: string, hash: string): string {
    ResolveOrigin(lib, buildDirectory, ReplaceHash(from, Extname(from), hash), baseUrl)
  }

  /** The hashed file's path from the directory of the file being rewritten. */
  function RelativePath(lib: Posix, buildDirectory: string, path: string, from: string): string {
    lib.relative(lib.dirname(path), lib.resolve(buildDirectory, from))
  }

  /**
   * The remounts of one hashed file, given its path from the build
   * directory, its path from the rewritten file's directory and its URL:
   * the absolute form, the form with a leading '.', and, unless the file is
   * in a parent directory, the form without it; all map to the URL.
   */
  function Remounts(absolutePath: string, relativePath: string, to: string): (r: seq<(string, string)>)
    ensures 2 <= |r| <= 3
    ensures |r| == 2 <==> StartsWith(relativePath, "../")
    ensures forall i :: 0 <= i < |r| ==> r[i].1 == to
    ensures r[0].0 == EnsureAbsolute(absolutePath) && StartsWith(r[0].0, "/")
    ensures r[1].0 == EnsureDotRelative(relativePath) && StartsWith(r[1].0, ".")
    ensures |r| == 3 ==> r[2].0 == StripRelative(relativePath) && EndsWith(relativePath, r[2].0)
  {
    var baseUrls := [(EnsureAbsolute(absolutePath), to), (EnsureDotRelative(relativePath), to)];
    if StartsWith(relativePath, "../") then baseUrls
    else baseUrls + [(StripRelative(relativePath), to)]
  }

  /** `applyRemounts` for one hash entry. */
  function ApplyRemounts(lib: Posix, buildDirectory: string, baseUrl: string, path: string, from: string, hash: string)
    : seq<(string, string)>
  {
    Remounts(lib.relative(buildDirectory, from), RelativePath(lib, buildDirectory, path, from),
             RemountTarget(lib, buildDirectory, baseUrl, from, hash))
  }

  /** `Array.from(hashes).flatMap(applyRemounts(...))`. */
  function PathMapEntries(lib: Posix, buildDirectory: string, baseUrl: string, hashes: seq<(string, string)>, path: string)
    : seq<(string, string)>
  {
    if hashes == [] then []
    else
      var last := hashes[|hashes| - 1];
      PathMapEntries(lib, buildDirectory, baseUrl, hashes[..|hashes| - 1], path) +
      ApplyRemounts(lib, buildDirectory, baseUrl, path, last.0, last.1)
  }

  /** `Object.fromEntries` of all the remounts, under a given base URL. */
  function PathMapFor(lib: Posix, buildDirectory: string, baseUrl: string, hashes: seq<(string, string)>, path: string)
    : seq<(string, string)>
  {
    FromEntries(PathMapEntries(lib, buildDirectory, baseUrl, hashes, path))
  }

  /**
   * `generatePathMap`: the path map, or None when `baseUrl` is undefined and
   * there is a hash entry, since `url.resolve(undefined, ...)` throws on the
   * first one.
   */
  function GeneratePathMap(lib: Posix, buildDirectory: string, baseUrl: Option<string>, hashes: seq<(string, string)>, path: string)
    : (r: Option<seq<(string, string)>>)
    ensures r.None? <==> baseUrl.None? && hashes != []
    ensures baseUrl.Some? ==> r == Some(PathMapFor(lib, buildDirectory, baseUrl.value, hashes, path))
    ensures hashes == [] ==> r == Some([])
  {
    match baseUrl
    case None => if hashes == [] then Some([]) else None
    case Some(url) => Some(PathMapFor(lib, buildDirectory, url, hashes, path))
  }

  /** Every remount maps to the URL of one of the hashed files. */
  lemma {:induction false} PathMapEntriesTargets(lib: Posix, buildDirectory: string, baseUrl: string, hashes: seq<(string, string)>, path: string)
    ensures forall e :: e in PathMapEntries(lib, buildDirectory, baseUrl, hashes, path) ==>
      exists i :: 0 <= i < |hashes| && e.1 == RemountTarget(lib, buildDirectory, baseUrl, hashes[i].0, hashes[i].1)
  {
    if hashes != [] {
      var init := hashes[..|hashes| - 1];
      var last := hashes[|hashes| - 1];
      PathMapEntriesTargets(lib, buildDirectory, baseUrl, init, path);
      assert forall i :: 0 <= i < |init| ==> init[i] == hashes[i];
      var r := ApplyRemounts(lib, buildDirectory, baseUrl, path, last.0, last.1);
      forall e | e in r
        ensures e.1 == RemountTarget(lib, buildDirectory, baseUrl, hashes[|hashes| - 1].0, hashes[|hashes| - 1].1)
      {
        var j :| 0 <= j < |r| && r[j] == e;
      }
    }
  }

  /** Every value of the path map is the URL of one of the hashed files. */
  lemma PathMapValues(lib: Posix, buildDirectory: string, baseUrl: string, hashes: seq<(string, string)>, path: string, k: string)
    requires Get(PathMapFor(lib, buildDirectory, baseUrl, hashes, path), k).Some?
    ensures exists i :: (0 <= i < |hashes| &&
      Get(PathMapFor(lib, buildDirectory, baseUrl, hashes, path), k).value ==
        RemountTarget(lib, buildDirectory, baseUrl, hashes[i].0, hashes[i].1))
  {
    var entries := PathMapEntries(lib, buildDirectory, baseUrl, hashes, path);
    FromEntriesGet(entries, k);
    LastValueFrom(entries, k);
    PathMapEntriesTargets(lib, buildDirectory, baseUrl, hashes, path);
  }

  /** Every remount of one hash entry maps to that entry's URL. */
  lemma ApplyRemountsTargets(lib: Posix, buildDirectory: string, baseUrl: string, path: string, from: string, hash: string)
    ensures var r := ApplyRemounts(lib, buildDirectory, baseUrl, path, from, hash);
      forall i :: 0 <= i < |r| ==> r[i].1 == RemountTarget(lib, buildDirectory, baseUrl, from, hash)
  {
    var to := RemountTarget(lib, buildDirectory, baseUrl, from, hash);
    var r := Remounts(lib.relative(buildDirectory, from), RelativePath(lib, buildDirectory, path, from), to);
    assert r == ApplyRemounts(lib, buildDirectory, baseUrl, path, from, hash);
  }

  /** The remounts of one more hash entry come after the others. */
  lemma PathMapEntriesSnoc(lib: Posix, buildDirectory: string, baseUrl: string, hashes: seq<(string, string)>, path: string,
                           from: string, hash: string)
    ensures PathMapEntries(lib, buildDirectory, baseUrl, hashes + [(from, hash)], path) ==
      PathMapEntries(lib, buildDirectory, baseUrl, hashes, path) + ApplyRemounts(lib, buildDirectory, baseUrl, path, from, hash)
  {
    var all := hashes + [(from, hash)];
    assert all[..|all| - 1] == hashes;
  }

  /** Entries appended last, all with one value, give that value to their keys. */
  lemma AppendedWins(before: seq<(string, string)>, r: seq<(string, string)>, v: string, j: nat)
    requires j < |r| && forall i :: 0 <= i < |r| ==> r[i].1 == v
    ensures Get(FromEntries(before + r), r[j].0) == Some(v)
  {
    var k := r[j].0;
    FromEntriesGet(before + r, k);
    LastValueConcat(before, r, k);
    LastValueUniform(r, k, v, j);
  }

  /**
   * Later hash entries win: every way of referring to the last hashed file
   * maps to its URL, whatever the earlier files share with it.
   */
  lemma LastHashWins(lib: Posix, buildDirectory: string, baseUrl: string, hashes: seq<(string, string)>, path: string,
                     from: string, hash: string, j: nat)
    requires j < |ApplyRemounts(lib, buildDirectory, baseUrl, path, from, hash)|
    ensures Get(PathMapFor(lib, buildDirectory, baseUrl, hashes + [(from, hash)], path),
                ApplyRemounts(lib, buildDirectory, baseUrl, path, from, hash)[j].0) ==
      Some(RemountTarget(lib, buildDirectory, baseUrl, from, hash))
  {
    var r := ApplyRemounts(lib, buildDirectory, baseUrl, path, from, hash);
    ApplyRemountsTargets(lib, buildDirectory, baseUrl, path, from, hash);
    PathMapEntriesSnoc(lib, buildDirectory, baseUrl, hashes, path, from, hash);
    AppendedWins(PathMapEntries(lib, buildDirectory, baseUrl, hashes, path), r, RemountTarget(lib, buildDirectory, baseUrl, from, hash), j);
  }
}
