/**
 * Finding the script file that declares a type (TypeFileFinder.cs). A
 * lookup first asks the details cache (`DatabaseLink`); on a miss it
 * scans the project's C# files, first by file name and then by the type
 * declarations found in each file's text. Every `TypeFileDetails` built
 * on the way registers itself in the cache, where the first one stays,
 * while the lookup returns the last one built.
 *
 * The file system is a set of parameters: `files` is the list of `.cs`
 * files in the order the directory walk yields them, `declared(f)` the
 * names the declaration pattern captures in the text of `f`, `time(f)`
 * the file's last access time and `dataPath` the project's Assets folder.
 */
module FileFinder {
  import opened Wrappers
  import opened Text

  /** `TypeFileDetails`. */
  datatype Details = Details(className: string, path: string, projectPath: string, updateTime: int)

  /** `DatabaseLink.fileDetails`, keyed by class name. */
  type Cache = map<string, Details>

  // ------------------------------------------------------------ DatabaseLink

  /** `GetTypeFileDetails`: the cached details, or null (None) when the name is not a key. */
  function Get(cache: Cache, className: string): (r: Option<Details>)
    ensures r.Some? <==> className in cache
    ensures r.Some? ==> r.value == cache[className]
  {
    if className in cache then Some(cache[className]) else None
  }

  /** `StoreTypeFileDetails`: adds the details unless their class name is already a key. */
  function Store(cache: Cache, d: Details): (r: Cache)
    ensures r.Keys == cache.Keys + {d.className}
    ensures Get(r, d.className) == if d.className in cache then Get(cache, d.className) else Some(d)
    ensures forall n :: n != d.className ==> Get(r, n) == Get(cache, n)
    ensures CacheOk(cache) ==> CacheOk(r)
  {
    if d.className in cache then cache else cache[d.className := d]
  }

  /** Every entry is stored under its own class name. */
  predicate CacheOk(cache: Cache) {
    forall n :: n in cache ==> cache[n].className == n
  }

  /** The first details stored under a name win; storing more under that name changes nothing. */
  lemma StoreFirstWins(cache: Cache, a: Details, b: Details)
    requires a.className == b.className
    ensures Store(Store(cache, a), b) == Store(cache, a)
    ensures a.className !in cache ==> Get(Store(Store(cache, a), b), a.className) == Some(a)
  {
  }

  // ------------------------------------------------------------ TypeFileDetails

  /**
   * The project path: `path` with every occurrence of the Assets folder's
   * full path replaced by "Assets", then every backslash by a slash.
   * .NET rejects an empty search string, so `dataPath` is not empty.
   */
  function ProjectPath(path: string, dataPath: string): string
    requires |dataPath| > 0
  {
    Replace(Replace(path, dataPath, "Assets"), "\\", "/")
  }

  /** The project path uses forward slashes only. */
  lemma ProjectPathSlashes(path: string, dataPath: string)
    requires |dataPath| > 0
    ensures '\\' !in ProjectPath(path, dataPath)
  {
    ReplaceCharRemovesAll(Replace(path, dataPath, "Assets"), '\\', "/");
  }

  lemma ReplaceLeading(pat: string, rest: string, repl: string)
    requires |pat| > 0
    ensures Replace(pat + rest, pat, repl) == repl + Replace(rest, pat, repl)
  {
    assert (pat + rest)[..|pat|] == pat;
    assert (pat + rest)[|pat|..] == rest;
  }

  /** A file under the Assets folder gets a project path starting with "Assets". */
  lemma ProjectPathUnderAssets(rest: string, dataPath: string)
    requires |dataPath| > 0
    ensures |ProjectPath(dataPath + rest, dataPath)| >= 6
    ensures ProjectPath(dataPath + rest, dataPath)[..6] == "Assets"
  {
    var once := Replace(dataPath + rest, dataPath, "Assets");
    ReplaceLeading(dataPath, rest, "Assets");
    ReplaceCharKeepsOthers(once, '\\', '/');
    var p := ProjectPath(dataPath + rest, dataPath);
    forall i | 0 <= i < 6
      ensures p[i] == "Assets"[i]
    {
      assert once[i] == "Assets"[i];
    }
  }

  /** `new TypeFileDetails(name, path, time)`: the fields it sets. */
  function NewDetails(className: string, path: string, time: int, dataPath: string): (d: Details)
    requires |dataPath| > 0
    ensures d.className == className && d.path == path && d.updateTime == time
    ensures d.projectPath == ProjectPath(path, dataPath)
  {
    Details(className, path, ProjectPath(path, dataPath), time)
  }

  /** The details built for each hit in turn, each registering itself as it is built. */
  function Build(className: string, hits: seq<string>, time: string -> int, dataPath: string): (ds: seq<Details>)
    requires |dataPath| > 0
    ensures |ds| == |hits|
    ensures forall k :: 0 <= k < |hits| ==> ds[k] == NewDetails(className, hits[k], time(hits[k]), dataPath)
  {
    seq(|hits|, k requires 0 <= k < |hits| => NewDetails(className, hits[k], time(hits[k]), dataPath))
  }

  /** Storing a run of details, in order. */
  function Register(cache: Cache, ds: seq<Details>): Cache
    decreases |ds|
  {
    if ds == [] then cache else Register(Store(cache, ds[0]), ds[1..])
  }

  /** Registering details that all share a new name leaves the first of them in the cache. */
  lemma {:induction false} RegisterKeepsFirst(cache: Cache, ds: seq<Details>, n: string)
    requires ds != [] && n !in cache
    requires forall k :: 0 <= k < |ds| ==> ds[k].className == n
    ensures Register(cache, ds) == cache[n := ds[0]]
  {
    var c1 := Store(cache, ds[0]);
    assert c1 == cache[n := ds[0]];
    RegisterKeeps(c1, ds[1..], n);
  }

  lemma {:induction false} RegisterKeeps(cache: Cache, ds: seq<Details>, n: string)
    requires n in cache
    requires forall k :: 0 <= k < |ds| ==> ds[k].className == n
    ensures Register(cache, ds) == cache
    decreases |ds|
  {
    if ds != [] {
      assert Store(cache, ds[0]) == cache;
      assert forall k :: 0 <= k < |ds| - 1 ==> ds[1..][k] == ds[k + 1];
      RegisterKeeps(cache, ds[1..], n);
    }
  }

  // ------------------------------------------------------------ FindFile

  /** The files accepted by `m`, in walk order. */
  function Filter(files: seq<string>, m: string -> bool): (r: seq<string>)
    ensures forall f :: f in r <==> f in files && m(f)
    decreases |files|
  {
    if files == [] then []
    else
      var rest := Filter(files[1..], m);
      assert forall f :: f in files <==> f == files[0] || f in files[1..];
      if m(files[0]) then [files[0]] + rest else rest
  }

  /** The first accepted file heads the filtered list. */
  lemma {:induction false} FilterFirst(files: seq<string>, m: string -> bool, i: nat)
    requires i < |files| && m(files[i])
    requires forall j :: 0 <= j < i ==> !m(files[j])
    ensures Filter(files, m) != [] && Filter(files, m)[0] == files[i]
    decreases i
  {
    if i > 0 {
      assert forall j :: 0 <= j < i - 1 ==> files[1..][j] == files[j + 1];
      FilterFirst(files[1..], m, i - 1);
    }
  }

  /** The last accepted file ends the filtered list. */
  lemma {:induction false} FilterLast(files: seq<string>, m: string -> bool, i: nat)
    requires i < |files| && m(files[i])
    requires forall j :: i < j < |files| ==> !m(files[j])
    ensures var r := Filter(files, m); r != [] && r[|r| - 1] == files[i]
    decreases |files|
  {
    var t := files[1..];
    if i > 0 {
      assert forall j :: i - 1 < j < |t| ==> t[j] == files[j + 1];
      FilterLast(t, m, i - 1);
    } else {
      assert forall j :: 0 <= j < |t| ==> t[j] == files[j + 1];
      FilterEmpty(t, m);
    }
  }

  lemma {:induction false} FilterEmpty(files: seq<string>, m: string -> bool)
    requires forall k :: 0 <= k < |files| ==> !m(files[k])
    ensures Filter(files, m) == []
    decreases |files|
  {
    if files != [] {
      assert forall k :: 0 <= k < |files| - 1 ==> files[1..][k] == files[k + 1];
      FilterEmpty(files[1..], m);
    }
  }

  lemma FilterHas(files: seq<string>, m: string -> bool, k: nat)
    requires k < |files| && m(files[k])
    ensures Filter(files, m) != []
  {
    assert files[k] in Filter(files, m);
  }

  /** The file-name test as written: the path ends in the type name followed by ".cs". */
  function SuffixMatch(typeName: string): string -> bool {
    f => EndsWith(f, typeName + ".cs")
  }

  /**
   * The file-name test as intended: the file's own name is the type name
   * followed by ".cs", so the suffix starts the path or follows a separator.
   */
  function FileNameMatch(typeName: string): string -> bool {
    f => EndsWith(f, typeName + ".cs")
      && (|f| == |typeName| + 3 || f[|f| - |typeName| - 4] == '/' || f[|f| - |typeName| - 4] == '\\')
  }

  /** The content test: the declaration pattern captured the type name in the file's text. */
  function Declares(declared: string -> seq<string>, typeName: string): string -> bool {
    f => typeName in declared(f)
  }

  /**
   * `FindFile` with the file-name test `byName`: a cached entry is returned
   * as it is. Otherwise the files passing `byName` are the hits, or, when
   * there are none, the files declaring the type; details are built and
   * registered for every hit and the last ones built are returned. No hit
   * gives null (None) and leaves the cache alone.
   */
  function FindWith(cache: Cache, files: seq<string>, declared: string -> seq<string>, time: string -> int,
                    dataPath: string, typeName: string, byName: string -> bool): (r: (Option<Details>, Cache))
    requires |dataPath| > 0
    ensures typeName in cache ==> r == (Some(cache[typeName]), cache)
    ensures r.0.None? ==> r.1 == cache
    ensures r.0.Some? ==> typeName in r.1
    ensures CacheOk(cache) ==> CacheOk(r.1) && (r.0.Some? ==> r.0.value.className == typeName)
    ensures r.1.Keys == cache.Keys + (if r.0.Some? then {typeName} else {})
    ensures forall n :: n in cache ==> n in r.1 && r.1[n] == cache[n]
  {
    if typeName in cache then (Some(cache[typeName]), cache)
    else
      var named := Filter(files, byName);
      var hits := if named != [] then named else Filter(files, Declares(declared, typeName));
      if hits == [] then (None, cache)
      else
        var ds := Build(typeName, hits, time, dataPath);
        RegisterKeepsFirst(cache, ds, typeName);
        (Some(ds[|ds| - 1]), Register(cache, ds))
  }

  /** `FindFile` as written, with the plain suffix test. */
  function FindFileAsWritten(cache: Cache, files: seq<string>, declared: string -> seq<string>, time: string -> int,
                             dataPath: string, typeName: string): (r: (Option<Details>, Cache))
    requires |dataPath| > 0
    ensures typeName in cache ==> r == (Some(cache[typeName]), cache)
  {
    FindWith(cache, files, declared, time, dataPath, typeName, SuffixMatch(typeName))
  }

  /** `FindFile` with the file-name test comparing the whole file name. */
  function FindFile(cache: Cache, files: seq<string>, declared: string -> seq<string>, time: string -> int,
                    dataPath: string, typeName: string): (r: (Option<Details>, Cache))
    requires |dataPath| > 0
    ensures typeName in cache ==> r == (Some(cache[typeName]), cache)
  {
    FindWith(cache, files, declared, time, dataPath, typeName, FileNameMatch(typeName))
  }

  /** The lookup fails exactly when nothing is cached and no file passes either test. */
  lemma FindMisses(cache: Cache, files: seq<string>, declared: string -> seq<string>, time: string -> int,
                   dataPath: string, typeName: string, byName: string -> bool)
    requires |dataPath| > 0
    ensures FindWith(cache, files, declared, time, dataPath, typeName, byName).0.None? <==>
      typeName !in cache
      && (forall k :: 0 <= k < |files| ==> !byName(files[k]))
      && (forall k :: 0 <= k < |files| ==> typeName !in declared(files[k]))
  {
    if exists k :: 0 <= k < |files| && byName(files[k]) {
      var k :| 0 <= k < |files| && byName(files[k]);
      FilterHas(files, byName, k);
    } else {
      FilterEmpty(files, byName);
    }
    var d := Declares(declared, typeName);
    if exists k :: 0 <= k < |files| && typeName in declared(files[k]) {
      var k :| 0 <= k < |files| && typeName in declared(files[k]);
      assert d(files[k]);
      FilterHas(files, d, k);
    } else {
      assert forall k :: 0 <= k < |files| ==> !d(files[k]);
      FilterEmpty(files, d);
    }
  }

  /**
   * On a miss with files passing the name test, the lookup returns the
   * details of the last such file, while the cache keeps those of the first.
   */
  lemma FindByName(cache: Cache, files: seq<string>, declared: string -> seq<string>, time: string -> int,
                   dataPath: string, typeName: string, byName: string -> bool, i: nat, j: nat)
    requires |dataPath| > 0 && typeName !in cache
    requires i < |files| && byName(files[i]) && forall k :: 0 <= k < i ==> !byName(files[k])
    requires j < |files| && byName(files[j]) && forall k :: j < k < |files| ==> !byName(files[k])
    ensures var r := FindWith(cache, files, declared, time, dataPath, typeName, byName);
      && r.0 == Some(NewDetails(typeName, files[j], time(files[j]), dataPath))
      && r.1 == cache[typeName := NewDetails(typeName, files[i], time(files[i]), dataPath)]
  {
    FilterFirst(files, byName, i);
    FilterLast(files, byName, j);
    RegisterKeepsFirst(cache, Build(typeName, Filter(files, byName), time, dataPath), typeName);
  }

  /**
   * When no file passes the name test, the declaring files take their
   * place: the last one is returned and the first one cached.
   */
  lemma FindByContent(cache: Cache, files: seq<string>, declared: string -> seq<string>, time: string -> int,
                      dataPath: string, typeName: string, byName: string -> bool, i: nat, j: nat)
    requires |dataPath| > 0 && typeName !in cache
    requires forall k :: 0 <= k < |files| ==> !byName(files[k])
    requires i < |files| && typeName in declared(files[i]) && forall k :: 0 <= k < i ==> typeName !in declared(files[k])
    requires j < |files| && typeName in declared(files[j]) && forall k :: j < k < |files| ==> typeName !in declared(files[k])
    ensures var r := FindWith(cache, files, declared, time, dataPath, typeName, byName);
      && r.0 == Some(NewDetails(typeName, files[j], time(files[j]), dataPath))
      && r.1 == cache[typeName := NewDetails(typeName, files[i], time(files[i]), dataPath)]
  {
    var d := Declares(declared, typeName);
    FilterEmpty(files, byName);
    FilterFirst(files, d, i);
    FilterLast(files, d, j);
    RegisterKeepsFirst(cache, Build(typeName, Filter(files, d), time, dataPath), typeName);
  }

  /**
   * Asking again returns what the first lookup cached, which is the first
   * hit, not the last one the first lookup returned.
   */
  lemma FindAgain(cache: Cache, files: seq<string>, declared: string -> seq<string>, time: string -> int,
                  dataPath: string, typeName: string, byName: string -> bool)
    requires |dataPath| > 0
    ensures var r := FindWith(cache, files, declared, time, dataPath, typeName, byName);
      r.0.Some? ==> FindWith(r.1, files, declared, time, dataPath, typeName, byName) == (Some(r.1[typeName]), r.1)
  {
  }

  /** Whatever the test, the returned details carry a project path with forward slashes only. */
  lemma FoundPathSlashes(cache: Cache, files: seq<string>, declared: string -> seq<string>, time: string -> int,
                         dataPath: string, typeName: string, byName: string -> bool)
    requires |dataPath| > 0
    requires forall n :: n in cache ==> '\\' !in cache[n].projectPath
    ensures var r := FindWith(cache, files, declared, time, dataPath, typeName, byName);
      r.0.Some? ==> '\\' !in r.0.value.projectPath
  {
    var r := FindWith(cache, files, declared, time, dataPath, typeName, byName);
    if r.0.Some? && typeName !in cache {
      ProjectPathSlashes(r.0.value.path, dataPath);
    }
  }

  // ------------------------------------------------------------ the suffix test

  /**
   * As written, a file whose name merely ends in the type's name counts as
   * a hit: with Node.cs walked before TypeNode.cs, looking up `Node`
   * returns TypeNode.cs.
   */
  lemma SuffixPicksLongerName(declared: string -> seq<string>, time: string -> int)
    ensures var r := FindFileAsWritten(map[], ["Assets/Node.cs", "Assets/TypeNode.cs"], declared, time, "/p/Assets", "Node");
      r.0.Some? && r.0.value.path == "Assets/TypeNode.cs"
  {
    var files := ["Assets/Node.cs", "Assets/TypeNode.cs"];
    var m := SuffixMatch("Node");
    assert m(files[0]) by { assert files[0][|files[0]| - 7..] == "Node.cs"; }
    assert m(files[1]) by { assert files[1][|files[1]| - 7..] == "Node.cs"; }
    FindByName(map[], files, declared, time, "/p/Assets", "Node", m, 0, 1);
  }

  /** With the whole-name test the same lookup returns Node.cs. */
  lemma FileNamePicksNode(declared: string -> seq<string>, time: string -> int)
    ensures var r := FindFile(map[], ["Assets/Node.cs", "Assets/TypeNode.cs"], declared, time, "/p/Assets", "Node");
      r.0.Some? && r.0.value.path == "Assets/Node.cs"
  {
    var files := ["Assets/Node.cs", "Assets/TypeNode.cs"];
    var m := FileNameMatch("Node");
    assert m(files[0]) by { assert files[0][|files[0]| - 7..] == "Node.cs"; }
    assert !m(files[1]) by { assert files[1][|files[1]| - 8] == 'e'; }
    FindByName(map[], files, declared, time, "/p/Assets", "Node", m, 0, 0);
  }

  /** A lookup by file name finds a file named exactly after the type. */
  lemma FindFileNamesType(cache: Cache, files: seq<string>, declared: string -> seq<string>, time: string -> int,
                          dataPath: string, typeName: string, i: nat)
    requires |dataPath| > 0 && typeName !in cache
    requires i < |files| && FileNameMatch(typeName)(files[i])
    ensures var r := FindFile(cache, files, declared, time, dataPath, typeName);
      r.0.Some? && FileNameMatch(typeName)(r.0.value.path)
  {
    var m := FileNameMatch(typeName);
    var named := Filter(files, m);
    assert files[i] in named;
    assert named[|named| - 1] in named;
  }
}
