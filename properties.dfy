/**
 * What the layered lookup promises, stated over the whole construction:
 * the order bubbleScan returns, which file wins a key, which keys exist,
 * when construction fails, and the empty result when nothing is found.
 */
module ConfigProperties {
  import opened Wrappers
  import opened Paths
  import opened JsonValues
  import opened Precedence
  import opened LocalConfig

  /** If the directories get strictly shorter, so do the paths found in them. */
  lemma {:induction false} HitsShrinking(dirs: seq<string>, filename: string, fileExists: string -> bool)
    requires forall i, j :: 0 <= i < j < |dirs| ==> |dirs[j]| < |dirs[i]|
    ensures forall i, j :: 0 <= i < j < |Hits(dirs, filename, fileExists)| ==>
              |Hits(dirs, filename, fileExists)[j]| < |Hits(dirs, filename, fileExists)[i]|
  {
    if dirs != [] {
      var init, last := dirs[..|dirs| - 1], dirs[|dirs| - 1];
      HitsShrinking(init, filename, fileExists);
      var h := Hits(init, filename, fileExists);
      HitsMembers(init, filename, fileExists);
      forall i | 0 <= i < |h|
        ensures |last + filename| < |h[i]|
      {
        assert h[i] in h;
        var k :| 0 <= k < |init| && h[i] == init[k] + filename;
      }
    }
  }

  /** Reversal keeps the elements and turns a strictly shrinking list into a strictly growing one. */
  lemma ReverseShrinking(h: seq<string>)
    requires forall i, j :: 0 <= i < j < |h| ==> |h[j]| < |h[i]|
    ensures forall p :: p in Reverse(h) <==> p in h
    ensures forall i, j :: 0 <= i < j < |Reverse(h)| ==> |Reverse(h)[i]| < |Reverse(h)[j]|
  {
    var r := Reverse(h);
    forall p | p in h
      ensures p in r
    {
      var i :| 0 <= i < |h| && h[i] == p;
      assert r[|h| - 1 - i] == p;
    }
  }

  /**
   * bubbleScan returns exactly the existing files <dir><filename> for the
   * directories of the walk, every ancestor of the working directory among them.
   */
  lemma BubbleScanMembers(filename: string, env: Env)
    requires ValidSegments(env.cwd)
    ensures forall p :: p in BubbleScanned(filename, env) <==>
              env.fileExists(p) && exists k :: 0 <= k < |Walk(env.cwd)| && p == Walk(env.cwd)[k] + filename
    ensures forall i :: 0 <= i <= |env.cwd| && env.fileExists(DirSlash(env.cwd[..i]) + filename) ==>
              DirSlash(env.cwd[..i]) + filename in BubbleScanned(filename, env)
  {
    var w := Walk(env.cwd);
    var h := Hits(w, filename, env.fileExists);
    HitsMembers(w, filename, env.fileExists);
    WalkShrinks(env.cwd);
    HitsShrinking(w, filename, env.fileExists);
    ReverseShrinking(h);
    forall i | 0 <= i <= |env.cwd| && env.fileExists(DirSlash(env.cwd[..i]) + filename)
      ensures DirSlash(env.cwd[..i]) + filename in h
    {
      var k :| 0 <= k < |w| && w[k] == DirSlash(env.cwd[..i]);
    }
  }

  /**
   * Below the root, bubbleScan returns exactly the existing files
   * <dir>/<filename> for the working directory and its ancestors.
   */
  lemma BubbleScanAncestors(filename: string, env: Env)
    requires ValidSegments(env.cwd) && env.cwd != []
    ensures forall p :: p in BubbleScanned(filename, env) <==>
              env.fileExists(p) && exists i :: 0 <= i <= |env.cwd| && p == DirSlash(env.cwd[..i]) + filename
  {
    var w := Walk(env.cwd);
    BubbleScanMembers(filename, env);
    WalkIsAncestors(env.cwd);
    forall p | p in BubbleScanned(filename, env)
      ensures exists i :: 0 <= i <= |env.cwd| && p == DirSlash(env.cwd[..i]) + filename
    {
      var k :| 0 <= k < |w| && p == w[k] + filename;
      assert w[k] in w;
      var i :| 0 <= i <= |env.cwd| && w[k] == DirSlash(env.cwd[..i]);
    }
  }

  /**
   * bubbleScan orders its result root first: paths strictly lengthen towards
   * the working directory, the root's file (if any) comes first and the
   * working directory's own file (if any) comes last.
   */
  lemma BubbleScanOrder(filename: string, env: Env)
    requires ValidSegments(env.cwd)
    ensures forall i, j :: 0 <= i < j < |BubbleScanned(filename, env)| ==>
              |BubbleScanned(filename, env)[i]| < |BubbleScanned(filename, env)[j]|
    ensures env.fileExists("/" + filename) ==>
              BubbleScanned(filename, env) != [] && BubbleScanned(filename, env)[0] == "/" + filename
    ensures env.fileExists(StartDir(env.cwd) + filename) ==>
              var r := BubbleScanned(filename, env);
              r != [] && r[|r| - 1] == StartDir(env.cwd) + filename
  {
    var w := Walk(env.cwd);
    var h := Hits(w, filename, env.fileExists);
    HitsMembers(w, filename, env.fileExists);
    WalkShrinks(env.cwd);
    HitsShrinking(w, filename, env.fileExists);
    ReverseShrinking(h);
    var r := Reverse(h);
    assert r == BubbleScanned(filename, env);
    if env.fileExists("/" + filename) {
      RootHitFirst(w, h, r, filename, env.fileExists);
    }
    if env.fileExists(StartDir(env.cwd) + filename) {
      StartHitLast(w, h, r, filename, env.fileExists);
    }
  }

  lemma RootHitFirst(w: seq<string>, h: seq<string>, r: seq<string>, filename: string, fileExists: string -> bool)
    requires |w| >= 1 && w[|w| - 1] == "/" && fileExists("/" + filename)
    requires forall i :: 0 <= i < |w| ==> |w[|w| - 1]| <= |w[i]|
    requires forall p :: p in h <==> fileExists(p) && exists k :: 0 <= k < |w| && p == w[k] + filename
    requires forall p :: p in r <==> p in h
    requires forall i, j :: 0 <= i < j < |r| ==> |r[i]| < |r[j]|
    ensures r != [] && r[0] == "/" + filename
  {
    assert w[|w| - 1] + filename in h;
    var m :| 0 <= m < |r| && r[m] == "/" + filename;
    assert r[0] in h;
    var k :| 0 <= k < |w| && r[0] == w[k] + filename;
    assert |r[m]| <= |r[0]|;
  }

  lemma StartHitLast(w: seq<string>, h: seq<string>, r: seq<string>, filename: string, fileExists: string -> bool)
    requires |w| >= 1 && fileExists(w[0] + filename)
    requires forall i :: 0 <= i < |w| ==> |w[i]| <= |w[0]|
    requires forall p :: p in h <==> fileExists(p) && exists k :: 0 <= k < |w| && p == w[k] + filename
    requires forall p :: p in r <==> p in h
    requires forall i, j :: 0 <= i < j < |r| ==> |r[i]| < |r[j]|
    ensures r != [] && r[|r| - 1] == w[0] + filename
  {
    assert w[0] + filename in h;
    var m :| 0 <= m < |r| && r[m] == w[0] + filename;
    var last := |r| - 1;
    assert r[last] in h;
    var k :| 0 <= k < |w| && r[last] == w[k] + filename;
    assert |r[last]| <= |r[m]|;
  }

  /** A list whose first element is x keeps x first under array_unique. */
  lemma {:induction false} DedupHead(s: seq<string>)
    requires s != []
    ensures Dedup(s) != [] && Dedup(s)[0] == s[0]
  {
    var init := s[..|s| - 1];
    if init != [] {
      DedupHead(init);
      assert init[0] == s[0];
    }
  }

  /** If x ends the list and occurs nowhere before, x ends the de-duplicated list. */
  lemma DedupFreshLast(s: seq<string>)
    requires s != [] && s[|s| - 1] !in s[..|s| - 1]
    ensures Dedup(s) == Dedup(s[..|s| - 1]) + [s[|s| - 1]]
  {
  }

  /** In a successful merge, the last path's file wins every key it holds. */
  lemma MergedLastFileWins(paths: seq<string>, decode: string -> Decoded)
    requires paths != [] && Merged(paths, decode).Success?
    ensures var x := paths[|paths| - 1];
            Load(x, decode(x)).Success? &&
            forall k :: k in Load(x, decode(x)).value ==>
              k in Merged(paths, decode).value && Merged(paths, decode).value[k] == Load(x, decode(x)).value[k]
  {
    LoadAllSucceeds(paths, decode);
    var ms := LoadAll(paths, decode).value;
    var n := |paths| - 1;
    forall k | k in ms[n]
      ensures k in MergeAll(ms) && MergeAll(ms)[k] == ms[n][k]
    {
      assert LastHolder(ms, k, n);
      MergeAllLastWins(ms, k, n);
    }
  }

  /**
   * Without the tree scan, the working directory's file overrides the home
   * file on every key it holds; this holds even when both resolve to the same
   * path, which is then merged once.
   */
  lemma LocalFileWins(filename: Arg, homeScan: bool, env: Env)
    requires ValidFilename(filename)
    requires env.fileExists(LocalPath(filename.s, env))
    requires Construct(filename, false, homeScan, env).Success?
    ensures var q := env.realpath(LocalPath(filename.s, env));
            Load(q, env.decode(q)).Success? &&
            forall k :: k in Load(q, env.decode(q)).value ==>
              k in Construct(filename, false, homeScan, env).value &&
              Construct(filename, false, homeScan, env).value[k] == Load(q, env.decode(q)).value[k]
  {
    var q := env.realpath(LocalPath(filename.s, env));
    var h := if homeScan then HomeDirScan(filename.s, env) else [];
    var c := h + [q];
    assert c == Candidates(filename.s, false, homeScan, env);
    assert c[..|c| - 1] == h;
    var d := Dedup(c);
    if q in Dedup(h) {
      assert h == [q];
      assert Dedup(h) == Dedup([]) + [q];
    }
    assert d != [] && d[|d| - 1] == q;
    MergedLastFileWins(d, env.decode);
  }

  /**
   * A last element strictly longer than every other element of the second
   * part, and absent from the first part, occurs nowhere before the end.
   */
  lemma FreshAfterShorter(h: seq<string>, b: seq<string>, p: string)
    requires b != [] && b[|b| - 1] == p && p !in h
    requires forall i, j :: 0 <= i < j < |b| ==> |b[i]| < |b[j]|
    ensures p !in (h + b)[..|h + b| - 1]
  {
    var c := h + b;
    assert c[..|c| - 1] == h + b[..|b| - 1];
    forall i | 0 <= i < |b| - 1
      ensures b[i] != p
    {
      assert |b[i]| < |b[|b| - 1]|;
    }
  }

  /**
   * With the tree scan, the working directory's own file overrides every
   * other file on every key it holds, unless the home scan resolved to that
   * very path (then it is merged first, at the home file's place).
   */
  lemma CwdFileWinsInTreeScan(filename: Arg, homeScan: bool, env: Env)
    requires ValidFilename(filename) && ValidSegments(env.cwd)
    requires env.fileExists(StartDir(env.cwd) + filename.s)
    requires !(homeScan && env.fileExists(HomePath(filename.s, env))
               && env.realpath(HomePath(filename.s, env)) == StartDir(env.cwd) + filename.s)
    requires Construct(filename, true, homeScan, env).Success?
    ensures var p := StartDir(env.cwd) + filename.s;
            Load(p, env.decode(p)).Success? &&
            forall k :: k in Load(p, env.decode(p)).value ==>
              k in Construct(filename, true, homeScan, env).value &&
              Construct(filename, true, homeScan, env).value[k] == Load(p, env.decode(p)).value[k]
  {
    var f := filename.s;
    var p := StartDir(env.cwd) + f;
    var h := if homeScan then HomeDirScan(f, env) else [];
    var b := BubbleScanned(f, env);
    BubbleScanOrder(f, env);
    var c := h + b;
    assert c == Candidates(f, true, homeScan, env);
    assert c[|c| - 1] == p;
    assert p !in h;
    FreshAfterShorter(h, b, p);
    DedupFreshLast(c);
    MergedLastFileWins(Dedup(c), env.decode);
  }

  /**
   * With both scans on and the resolved home file equal to the working
   * directory's file, that file keeps its first (home) place: every other
   * file of the walk is merged after it and overrides it. (TreeScanMergeOrder
   * gives the whole order for a home file anywhere on the walk.)
   */
  lemma HomeDuplicateMergedFirst(filename: Arg, env: Env)
    requires ValidFilename(filename)
    requires env.fileExists(HomePath(filename.s, env))
    requires env.realpath(HomePath(filename.s, env)) == StartDir(env.cwd) + filename.s
    ensures var d := Dedup(Candidates(filename.s, true, true, env));
            d != [] && d[0] == StartDir(env.cwd) + filename.s
  {
    DedupHead(Candidates(filename.s, true, true, env));
  }

  /**
   * The merge order with the tree scan: the walk's files root first, and, when
   * the home scan finds its file, that file in front, its later copy on the
   * walk (if any) dropped. A home file lying on the walk is therefore merged
   * before every ancestor file, the root's included, although without the
   * home scan it would override them.
   */
  lemma TreeScanMergeOrder(filename: string, homeScan: bool, env: Env)
    requires ValidSegments(env.cwd)
    ensures var b := BubbleScanned(filename, env);
            var q := env.realpath(HomePath(filename, env));
            Dedup(Candidates(filename, true, homeScan, env))
              == if homeScan && env.fileExists(HomePath(filename, env)) then [q] + Without(b, q) else b
  {
    var b := BubbleScanned(filename, env);
    BubbleScanOrder(filename, env);
    assert NoDuplicates(b);
    var h := if homeScan then HomeDirScan(filename, env) else [];
    assert Candidates(filename, true, homeScan, env) == h + b;
    if homeScan && env.fileExists(HomePath(filename, env)) {
      DedupMovedFront(env.realpath(HomePath(filename, env)), b);
    } else {
      assert h + b == b;
      DedupNoDuplicates(b);
    }
  }

  /**
   * With the tree scan and no home file on the walk, each key takes its value
   * from the walk file closest to the working directory that holds it: the
   * walk's files are listed root first, so when file i holds k and no later
   * one does, file i's value is the merged one.
   */
  lemma TreeScanClosestWins(filename: Arg, homeScan: bool, env: Env, i: int, k: Key)
    requires ValidFilename(filename) && ValidSegments(env.cwd)
    requires !(homeScan && env.fileExists(HomePath(filename.s, env))
               && env.realpath(HomePath(filename.s, env)) in BubbleScanned(filename.s, env))
    requires Construct(filename, true, homeScan, env).Success?
    ensures var b := BubbleScanned(filename.s, env);
            0 <= i < |b| && Load(b[i], env.decode(b[i])).Success? && k in Load(b[i], env.decode(b[i])).value
            && (forall j :: i < j < |b| ==> !(Load(b[j], env.decode(b[j])).Success? && k in Load(b[j], env.decode(b[j])).value))
            ==> k in Construct(filename, true, homeScan, env).value
                && Construct(filename, true, homeScan, env).value[k] == Load(b[i], env.decode(b[i])).value[k]
  {
    var f := filename.s;
    var b := BubbleScanned(f, env);
    var h := if homeScan then HomeDirScan(f, env) else [];
    assert Dedup(Candidates(f, true, homeScan, env)) == h + b by {
      TreeScanMergeOrder(f, homeScan, env);
      if homeScan && env.fileExists(HomePath(f, env)) {
        assert Without(b, env.realpath(HomePath(f, env))) == b;
      }
    }
    assert Construct(filename, true, homeScan, env) == Merged(h + b, env.decode);
    if 0 <= i < |b| && Load(b[i], env.decode(b[i])).Success? && k in Load(b[i], env.decode(b[i])).value
       && forall j :: i < j < |b| ==> !(Load(b[j], env.decode(b[j])).Success? && k in Load(b[j], env.decode(b[j])).value)
    {
      MergedHolderWinsAfter(h, b, env.decode, i, k);
    }
  }

  /** The last holder among the paths after a prefix is the last holder of the whole list. */
  lemma MergedHolderWinsAfter(h: seq<string>, b: seq<string>, decode: string -> Decoded, i: int, k: Key)
    requires Merged(h + b, decode).Success?
    requires 0 <= i < |b| && Load(b[i], decode(b[i])).Success? && k in Load(b[i], decode(b[i])).value
    requires forall j :: i < j < |b| ==> !(Load(b[j], decode(b[j])).Success? && k in Load(b[j], decode(b[j])).value)
    ensures k in Merged(h + b, decode).value && Merged(h + b, decode).value[k] == Load(b[i], decode(b[i])).value[k]
  {
    var d := h + b;
    assert d[|h| + i] == b[i];
    forall j | |h| + i < j < |d|
      ensures !(Load(d[j], decode(d[j])).Success? && k in Load(d[j], decode(d[j])).value)
    {
      assert d[j] == b[j - |h|];
    }
    MergedHolderWins(d, decode, |h| + i, k);
  }

  /** In a successful merge, a key takes its value from the last file that holds it. */
  lemma MergedHolderWins(paths: seq<string>, decode: string -> Decoded, i: int, k: Key)
    requires Merged(paths, decode).Success?
    requires 0 <= i < |paths| && Load(paths[i], decode(paths[i])).Success? && k in Load(paths[i], decode(paths[i])).value
    requires forall j :: i < j < |paths| ==> !(Load(paths[j], decode(paths[j])).Success? && k in Load(paths[j], decode(paths[j])).value)
    ensures k in Merged(paths, decode).value && Merged(paths, decode).value[k] == Load(paths[i], decode(paths[i])).value[k]
  {
    LoadAllSucceeds(paths, decode);
    var ms := LoadAll(paths, decode).value;
    assert LastHolder(ms, k, i);
    MergeAllLastWins(ms, k, i);
  }

  /** The keys of a successful merge are the keys of all the loaded files together. */
  lemma MergedKeys(paths: seq<string>, decode: string -> Decoded)
    requires Merged(paths, decode).Success?
    ensures forall k :: k in Merged(paths, decode).value <==>
              exists p :: p in paths && Load(p, decode(p)).Success? && k in Load(p, decode(p)).value
  {
    LoadAllSucceeds(paths, decode);
    var ms := LoadAll(paths, decode).value;
    forall k
      ensures k in MergeAll(ms) <==> exists p :: p in paths && Load(p, decode(p)).Success? && k in Load(p, decode(p)).value
    {
      MergeAllKeys(ms, k);
      if k in MergeAll(ms) {
        var i :| 0 <= i < |ms| && k in ms[i];
        assert paths[i] in paths && Load(paths[i], decode(paths[i])) == Success(ms[i]);
      }
      if exists p :: p in paths && Load(p, decode(p)).Success? && k in Load(p, decode(p)).value {
        var p :| p in paths && Load(p, decode(p)).Success? && k in Load(p, decode(p)).value;
        var i :| 0 <= i < |paths| && paths[i] == p;
        assert k in ms[i];
      }
    }
  }

  /**
   * A merge fails exactly when some file is rejected by load(); the error is
   * that of the first rejected file.
   */
  lemma MergedFails(paths: seq<string>, decode: string -> Decoded)
    ensures Merged(paths, decode).Failure? <==> exists p :: p in paths && Load(p, decode(p)).Failure?
    ensures Merged(paths, decode).Failure? ==>
              exists i :: 0 <= i < |paths| && Load(paths[i], decode(paths[i])) == Failure(Merged(paths, decode).error)
                          && forall j :: 0 <= j < i ==> Load(paths[j], decode(paths[j])).Success?
  {
    LoadAllSucceeds(paths, decode);
    if LoadAll(paths, decode).Failure? {
      LoadAllFailsAtFirst(paths, decode);
      var i :| 0 <= i < |paths| && Load(paths[i], decode(paths[i])).Failure?;
      assert paths[i] in paths;
    } else {
      forall p | p in paths
        ensures Load(p, decode(p)).Success?
      {
        var i :| 0 <= i < |paths| && paths[i] == p;
      }
    }
  }

  /** The configuration's keys are the keys of all the candidate files together. */
  lemma ConstructKeys(filename: Arg, treeScan: bool, homeScan: bool, env: Env)
    requires ValidFilename(filename)
    requires Construct(filename, treeScan, homeScan, env).Success?
    ensures forall k :: k in Construct(filename, treeScan, homeScan, env).value <==>
              exists p :: p in Candidates(filename.s, treeScan, homeScan, env)
                          && Load(p, env.decode(p)).Success? && k in Load(p, env.decode(p)).value
  {
    var c := Candidates(filename.s, treeScan, homeScan, env);
    SameMembersMerge(Dedup(c), c, env.decode);
  }

  /**
   * Construction with a valid filename fails exactly when some candidate file
   * is rejected by load(); which error it reports is fixed by MergedFails on
   * the de-duplicated list.
   */
  lemma ConstructFailsOnAnyBadFile(filename: Arg, treeScan: bool, homeScan: bool, env: Env)
    requires ValidFilename(filename)
    ensures Construct(filename, treeScan, homeScan, env).Failure? <==>
              exists p :: p in Candidates(filename.s, treeScan, homeScan, env) && Load(p, env.decode(p)).Failure?
  {
    var c := Candidates(filename.s, treeScan, homeScan, env);
    SameMembersMerge(Dedup(c), c, env.decode);
  }

  /** Two lists with the same members: one merge fails exactly when a file of the other fails, and keys agree. */
  lemma SameMembersMerge(d: seq<string>, c: seq<string>, decode: string -> Decoded)
    requires forall p :: p in d <==> p in c
    ensures Merged(d, decode).Failure? <==> exists p :: p in c && Load(p, decode(p)).Failure?
    ensures Merged(d, decode).Success? ==>
              forall k :: k in Merged(d, decode).value <==>
                exists p :: p in c && Load(p, decode(p)).Success? && k in Load(p, decode(p)).value
  {
    MergedFails(d, decode);
    if Merged(d, decode).Success? {
      MergedKeys(d, decode);
    }
  }

  /** When the file exists in none of the directories, the walk collects nothing. */
  lemma {:induction false} HitsNone(dirs: seq<string>, filename: string, fileExists: string -> bool)
    requires forall k :: 0 <= k < |dirs| ==> !fileExists(dirs[k] + filename)
    ensures Hits(dirs, filename, fileExists) == []
  {
    if dirs != [] {
      HitsNone(dirs[..|dirs| - 1], filename, fileExists);
    }
  }

  /** When no scope holds the file, the merged configuration is empty, not an error. */
  lemma NothingFoundIsEmpty(filename: Arg, treeScan: bool, homeScan: bool, env: Env)
    requires ValidFilename(filename)
    requires homeScan ==> !env.fileExists(HomePath(filename.s, env))
    requires treeScan ==> forall d :: d in Walk(env.cwd) ==> !env.fileExists(d + filename.s)
    requires !treeScan ==> !env.fileExists(LocalPath(filename.s, env))
    ensures Construct(filename, treeScan, homeScan, env) == Success(map[])
  {
    var f := filename.s;
    if treeScan {
      var w := Walk(env.cwd);
      assert forall k :: 0 <= k < |w| ==> w[k] in w;
      HitsNone(w, f, env.fileExists);
    }
    assert Candidates(f, treeScan, homeScan, env) == [];
  }

  /** A filename that is not a string, is empty or is "0" is rejected whatever the filesystem holds. */
  lemma RejectedBeforeScanning(filename: Arg, treeScan: bool, homeScan: bool, env: Env, other: Env)
    requires !ValidFilename(filename)
    ensures Construct(filename, treeScan, homeScan, env) == Construct(filename, treeScan, homeScan, other) == Failure(InvalidFilename)
    ensures !ValidFilename(StringArg("0")) && !ValidFilename(StringArg("")) && !ValidFilename(OtherArg)
  {
  }
}
