/**
 * JsonLocalConfig: discovery of the configuration files, their composition,
 * array_unique, the load-and-merge loop, and the read-only ArrayAccess view.
 *
 * Everything the PHP class reads from the process and the filesystem is an
 * explicit Env: the canonical working directory, $_SERVER['HOME'],
 * file_exists, realpath and the JSON decoder's answer per path.
 */
module LocalConfig {
  import opened Wrappers
  import opened Paths
  import opened JsonValues
  import opened Precedence

  /** The constructor's $filename argument: a PHP string, or a value of any other PHP type. */
  datatype Arg = StringArg(s: string) | OtherArg

  /** The process and filesystem as JsonLocalConfig sees them. */
  datatype Env = Env(
    cwd: seq<string>,            // realpath("."), as its path segments
    home: Option<string>,        // $_SERVER['HOME'], None when unset
    fileExists: string -> bool,  // file_exists
    realpath: string -> string,  // realpath, applied only to paths that exist
    decode: string -> Decoded)   // json_decode(file_get_contents(path), true) and json_last_error()

  /** The exceptions of the ArrayAccess methods. */
  datatype AccessError = OutOfBounds(offset: Key) | ReadOnly

  /** PHP's empty() on a string: the empty string and "0" are both empty. */
  predicate PhpEmpty(s: string) {
    s == "" || s == "0"
  }

  /** The guard at the top of the constructor: is_string($filename) && !empty($filename). */
  predicate ValidFilename(filename: Arg) {
    filename.StringArg? && !PhpEmpty(filename.s)
  }

  /** $_SERVER['HOME'] . '/' . $filename; an unset HOME is null, which concatenates as the empty string. */
  function HomePath(filename: string, env: Env): string {
    (if env.home.Some? then env.home.value else "") + "/" + filename
  }

  /**
   * The path file_exists($filename) looks at: a relative filename is taken in
   * the working directory, one starting with '/' is used as it is.
   */
  function LocalPath(filename: string, env: Env): string {
    if |filename| > 0 && filename[0] == '/' then filename else DirSlash(env.cwd) + filename
  }

  /** homeDirScan: the resolved home file, if it exists. */
  function HomeDirScan(filename: string, env: Env): (r: seq<string>)
    ensures |r| <= 1
    ensures r != [] <==> env.fileExists(HomePath(filename, env))
    ensures forall p :: p in r ==> p == env.realpath(HomePath(filename, env))
  {
    var full := HomePath(filename, env);
    if env.fileExists(full) then [env.realpath(full)] else []
  }

  /** localScan: the resolved file in the working directory, if it exists. */
  function LocalScan(filename: string, env: Env): (r: seq<string>)
    ensures |r| <= 1
    ensures r != [] <==> env.fileExists(LocalPath(filename, env))
    ensures forall p :: p in r ==> p == env.realpath(LocalPath(filename, env))
  {
    var full := LocalPath(filename, env);
    if env.fileExists(full) then [env.realpath(full)] else []
  }

  /** The paths <dir><filename> that exist, for the directories in the order given. */
  function Hits(dirs: seq<string>, filename: string, fileExists: string -> bool): (r: seq<string>)
    ensures |r| <= |dirs|
  {
    if dirs == [] then []
    else
      var d := dirs[|dirs| - 1];
      Hits(dirs[..|dirs| - 1], filename, fileExists) + if fileExists(d + filename) then [d + filename] else []
  }

  /** The collected paths are exactly the existing <dir><filename> for the directories given. */
  lemma {:induction false} HitsMembers(dirs: seq<string>, filename: string, fileExists: string -> bool)
    ensures forall p :: p in Hits(dirs, filename, fileExists) <==>
              fileExists(p) && exists k :: 0 <= k < |dirs| && p == dirs[k] + filename
  {
    if dirs != [] {
      var init := dirs[..|dirs| - 1];
      HitsMembers(init, filename, fileExists);
      forall p | fileExists(p) && exists k :: 0 <= k < |dirs| && p == dirs[k] + filename
        ensures p in Hits(dirs, filename, fileExists)
      {
        var k :| 0 <= k < |dirs| && p == dirs[k] + filename;
        if k < |init| {
          assert init[k] == dirs[k];
        }
      }
      forall p | p in Hits(init, filename, fileExists)
        ensures exists k :: 0 <= k < |dirs| && p == dirs[k] + filename
      {
        var k :| 0 <= k < |init| && p == init[k] + filename;
        assert dirs[k] == init[k];
      }
    }
  }

  function Reverse<T>(s: seq<T>): (r: seq<T>)
    ensures |r| == |s|
    ensures forall i :: 0 <= i < |s| ==> r[i] == s[|s| - 1 - i]
  {
    if s == [] then [] else [s[|s| - 1]] + Reverse(s[..|s| - 1])
  }

  lemma HitsStep(dirs: seq<string>, k: nat, filename: string, fileExists: string -> bool)
    requires k < |dirs|
    ensures Hits(dirs[..k + 1], filename, fileExists)
         == Hits(dirs[..k], filename, fileExists) + if fileExists(dirs[k] + filename) then [dirs[k] + filename] else []
  {
    assert dirs[..k + 1][..k] == dirs[..k];
  }

  /** What bubbleScan returns: the hits of the walk from the working directory up to "/", reversed. */
  function BubbleScanned(filename: string, env: Env): seq<string> {
    Reverse(Hits(Walk(env.cwd), filename, env.fileExists))
  }

  /** The candidate list the constructor builds: the home scan, then the tree scan or the local scan. */
  function Candidates(filename: string, treeScan: bool, homeScan: bool, env: Env): seq<string> {
    (if homeScan then HomeDirScan(filename, env) else [])
    + (if treeScan then BubbleScanned(filename, env) else LocalScan(filename, env))
  }

  /**
   * Loading the paths in order. The first file that load() rejects aborts
   * everything, with that file's error; otherwise every file's array, in order.
   */
  function LoadAll(paths: seq<string>, decode: string -> Decoded): Result<seq<map<Key, Json>>, ConfigError> {
    if paths == [] then Success([])
    else
      var init, last := paths[..|paths| - 1], paths[|paths| - 1];
      match LoadAll(init, decode)
      case Failure(e) => Failure(e)
      case Success(ms) =>
        match Load(last, decode(last))
        case Failure(e) => Failure(e)
        case Success(m) => Success(ms + [m])
  }

  /** Loading succeeds exactly when every file loads, and then yields each file's array at its position. */
  lemma {:induction false} LoadAllSucceeds(paths: seq<string>, decode: string -> Decoded)
    ensures LoadAll(paths, decode).Success? <==> forall i :: 0 <= i < |paths| ==> Load(paths[i], decode(paths[i])).Success?
    ensures LoadAll(paths, decode).Success? ==>
              var ms := LoadAll(paths, decode).value;
              |ms| == |paths| && forall i :: 0 <= i < |paths| ==> Load(paths[i], decode(paths[i])) == Success(ms[i])
  {
    if paths != [] {
      var init, last := paths[..|paths| - 1], paths[|paths| - 1];
      LoadAllSucceeds(init, decode);
      match LoadAll(init, decode)
      case Failure(_) =>
        var i :| 0 <= i < |init| && !Load(init[i], decode(init[i])).Success?;
        assert paths[i] == init[i];
      case Success(ms) =>
        match Load(last, decode(last))
        case Failure(_) =>
          assert paths[|init|] == last;
        case Success(m) =>
          forall i | 0 <= i < |paths|
            ensures Load(paths[i], decode(paths[i])) == Success((ms + [m])[i])
          {
            if i < |init| {
              assert paths[i] == init[i];
            }
          }
    }
  }

  /** Fail-fast: a failed load reports the error of the first file that load() rejects. */
  lemma {:induction false} LoadAllFailsAtFirst(paths: seq<string>, decode: string -> Decoded)
    requires LoadAll(paths, decode).Failure?
    ensures exists i :: 0 <= i < |paths| && Load(paths[i], decode(paths[i])) == Failure(LoadAll(paths, decode).error)
                        && forall j :: 0 <= j < i ==> Load(paths[j], decode(paths[j])).Success?
  {
    var init, last := paths[..|paths| - 1], paths[|paths| - 1];
    if LoadAll(init, decode).Failure? {
      LoadAllFailsAtFirst(init, decode);
      var i :| 0 <= i < |init| && Load(init[i], decode(init[i])) == Failure(LoadAll(init, decode).error)
               && forall j :: 0 <= j < i ==> Load(init[j], decode(init[j])).Success?;
      assert paths[i] == init[i];
      assert forall j :: 0 <= j < i ==> paths[j] == init[j];
    } else {
      LoadAllSucceeds(init, decode);
      assert forall j :: 0 <= j < |init| ==> paths[j] == init[j];
      assert Load(paths[|init|], decode(paths[|init|])) == Failure(LoadAll(paths, decode).error);
    }
  }

  /** The nested foreach of the constructor over the given (already de-duplicated) paths. */
  function Merged(paths: seq<string>, decode: string -> Decoded): Result<map<Key, Json>, ConfigError> {
    match LoadAll(paths, decode)
    case Failure(e) => Failure(e)
    case Success(ms) => Success(MergeAll(ms))
  }

  /** The whole constructor: validation, composition, array_unique, load and merge. */
  function Construct(filename: Arg, treeScan: bool, homeScan: bool, env: Env): Result<map<Key, Json>, ConfigError> {
    if !ValidFilename(filename) then Failure(InvalidFilename)
    else Merged(Dedup(Candidates(filename.s, treeScan, homeScan, env)), env.decode)
  }

  /** bubbleScan: walk from the working directory up to "/", collect the existing files, reverse. */
  method BubbleScan(filename: string, env: Env) returns (r: seq<string>)
    requires ValidSegments(env.cwd)
    ensures r == BubbleScanned(filename, env)
  {
    ghost var walk := Walk(env.cwd);
    WalkFollowsParent(env.cwd);
    WalkAbsolute(env.cwd);
    var current := Render(env.cwd) + "/";
    var result := [];
    ghost var k := 0;
    while true
      invariant 0 <= k < |walk| && current == walk[k]
      invariant AbsoluteDir(current)
      invariant result == Hits(walk[..k], filename, env.fileExists)
      decreases |current|
    {
      HitsStep(walk, k, filename, env.fileExists);
      if env.fileExists(current + filename) {
        result := result + [current + filename];
      }
      assert result == Hits(walk[..k + 1], filename, env.fileExists);
      if current == "/" {
        assert k == |walk| - 1;
        assert walk[..k + 1] == walk;
        break;
      }
      ParentShrinks(current);
      current := Dirname(current);
      current := if current == "/" then current else current + "/";
      k := k + 1;
    }
    r := Reverse(result);
  }

  /** The inner foreach: assign every entry of one file's array into the accumulator. */
  method AssignAll(acc: map<Key, Json>, entries: map<Key, Json>) returns (merged: map<Key, Json>)
    ensures merged.Keys == acc.Keys + entries.Keys
    ensures forall k :: k in entries ==> merged[k] == entries[k]
    ensures forall k :: k in acc && k !in entries ==> merged[k] == acc[k]
    ensures merged == acc + entries
  {
    merged := acc;
    var keys := entries.Keys;
    while keys != {}
      invariant keys <= entries.Keys
      invariant merged.Keys == acc.Keys + (entries.Keys - keys)
      invariant forall k :: k in entries && k !in keys ==> merged[k] == entries[k]
      invariant forall k :: k in acc && k !in entries.Keys - keys ==> merged[k] == acc[k]
      decreases keys
    {
      var key :| key in keys;
      merged := merged[key := entries[key]];
      keys := keys - {key};
    }
    assert merged == acc + entries;
  }

  /** The nested foreach of the constructor: load each file in turn and assign its entries into the accumulator. */
  method LoadAndMerge(paths: seq<string>, decode: string -> Decoded) returns (r: Result<map<Key, Json>, ConfigError>)
    ensures r == Merged(paths, decode)
  {
    var merged: map<Key, Json> := map[];
    ghost var loaded: seq<map<Key, Json>> := [];
    var i := 0;
    while i < |paths|
      invariant 0 <= i <= |paths|
      invariant LoadAll(paths[..i], decode) == Success(loaded)
      invariant merged == MergeAll(loaded)
    {
      var data := Load(paths[i], decode(paths[i]));
      LoadAllStep(paths, decode, i);
      if data.Failure? {
        LoadAllAbortsAt(paths, decode, i + 1);
        return Failure(data.error);
      }
      var entries := data.value;
      merged := AssignAll(merged, entries);
      MergeAllStep(loaded, entries);
      loaded := loaded + [entries];
      i := i + 1;
    }
    assert paths[..i] == paths;
    r := Success(merged);
  }

  lemma LoadAllStep(paths: seq<string>, decode: string -> Decoded, i: nat)
    requires i < |paths| && LoadAll(paths[..i], decode).Success?
    ensures LoadAll(paths[..i + 1], decode)
         == match Load(paths[i], decode(paths[i]))
            case Failure(e) => Failure(e)
            case Success(m) => Success(LoadAll(paths[..i], decode).value + [m])
  {
    assert paths[..i + 1][..i] == paths[..i];
  }

  lemma MergeAllStep(ms: seq<map<Key, Json>>, m: map<Key, Json>)
    ensures MergeAll(ms + [m]) == MergeAll(ms) + m
  {
    assert (ms + [m])[..|ms|] == ms;
  }

  /** A failure while loading a prefix of the paths is the failure of the whole list. */
  lemma {:induction false} LoadAllAbortsAt(paths: seq<string>, decode: string -> Decoded, n: nat)
    requires n <= |paths| && LoadAll(paths[..n], decode).Failure?
    ensures LoadAll(paths, decode) == LoadAll(paths[..n], decode)
    decreases |paths| - n
  {
    if n < |paths| {
      assert paths[..n + 1][..n] == paths[..n];
      LoadAllAbortsAt(paths, decode, n + 1);
    } else {
      assert paths[..n] == paths;
    }
  }

  /**
   * The object the constructor produces. Its merged array is fixed when it is
   * built; `files` records, for the proofs, the arrays it was merged from.
   */
  class JsonLocalConfig {
    const mergedData: map<Key, Json>
    ghost const files: seq<map<Key, Json>>

    ghost predicate Valid() {
      mergedData == MergeAll(files)
    }

    constructor (data: map<Key, Json>, ghost loaded: seq<map<Key, Json>>)
      requires data == MergeAll(loaded)
      ensures Valid() && mergedData == data && files == loaded
    {
      mergedData := data;
      files := loaded;
    }

    /**
     * The PHP constructor: reject a bad filename before looking at the
     * filesystem, compose the candidate list, drop repeated paths, then load
     * and merge. Any exception aborts the construction. As in PHP, the tree
     * scan is off and the home scan on unless the caller says otherwise.
     */
    static method Open(filename: Arg, env: Env, treeScan: bool := false, homeScan: bool := true) returns (r: Result<JsonLocalConfig, ConfigError>)
      requires ValidSegments(env.cwd)
      ensures !ValidFilename(filename) ==> r == Failure(InvalidFilename)
      ensures r.Failure? ==> Construct(filename, treeScan, homeScan, env) == Failure(r.error)
      ensures r.Success? ==> fresh(r.value) && r.value.Valid()
      ensures r.Success? ==> Construct(filename, treeScan, homeScan, env) == Success(r.value.mergedData)
      ensures r.Success? ==> LoadAll(Dedup(Candidates(filename.s, treeScan, homeScan, env)), env.decode) == Success(r.value.files)
    {
      if !ValidFilename(filename) {
        return Failure(InvalidFilename);
      }
      var name := filename.s;
      var files: seq<string> := [];
      if homeScan {
        files := files + HomeDirScan(name, env);
      }
      if treeScan {
        var tree := BubbleScan(name, env);
        files := files + tree;
      } else {
        files := files + LocalScan(name, env);
      }
      assert files == Candidates(name, treeScan, homeScan, env);
      var unique := Dedup(files);
      assert Construct(filename, treeScan, homeScan, env) == Merged(unique, env.decode);
      var merged := LoadAndMerge(unique, env.decode);
      if merged.Failure? {
        return Failure(merged.error);
      }
      ghost var loaded := LoadAll(unique, env.decode).value;
      var config := new JsonLocalConfig(merged.value, loaded);
      r := Success(config);
    }

    /** offsetExists: the key was in at least one of the loaded files. */
    function OffsetExists(offset: Key): (b: bool)
      requires Valid()
      ensures b <==> exists i :: 0 <= i < |files| && offset in files[i]
    {
      MergeAllKeys(files, offset);
      offset in mergedData
    }

    /** offsetGet: the value from the last loaded file holding the key, or OutOfBoundsException. */
    function OffsetGet(offset: Key): (r: Result<Json, AccessError>)
      requires Valid()
      ensures r.Failure? <==> forall i :: 0 <= i < |files| ==> offset !in files[i]
      ensures r.Failure? ==> r.error == OutOfBounds(offset)
      ensures r.Success? ==> exists i :: LastHolder(files, offset, i) && r.value == files[i][offset]
    {
      if !OffsetExists(offset) then Failure(OutOfBounds(offset))
      else
        LastHolderExists(files, offset);
        Success(mergedData[offset])
    }

    /** offsetSet: the configuration is read-only; nothing is written. */
    method OffsetSet(offset: Key, value: Json) returns (r: Outcome<AccessError>)
      ensures r == Fail(ReadOnly)
    {
      r := Fail(ReadOnly);
    }

    /** offsetUnset: the configuration is read-only; nothing is removed. */
    method OffsetUnset(offset: Key) returns (r: Outcome<AccessError>)
      ensures r == Fail(ReadOnly)
    {
      r := Fail(ReadOnly);
    }
  }
}
