/**
 * A worked example of the layered lookup: the working directory is
 * /home/user/proj/sub, HOME is /home/user, and three directories on the walk
 * hold a .cfg file. Both scans are on.
 */
module Scenario {
  import opened Wrappers
  import opened Paths
  import opened JsonValues
  import opened Precedence
  import opened LocalConfig

  const HomeFile := "/home/user/.cfg"
  const ProjFile := "/home/user/proj/.cfg"
  const SubFile := "/home/user/proj/sub/.cfg"
  const ExampleCwd: seq<string> := ["home", "user", "proj", "sub"]

  function Contents(p: string): Decoded {
    if p == HomeFile then Parsed(JObject(map["x" := JNumber("1")]))
    else if p == ProjFile then Parsed(JObject(map["x" := JNumber("2"), "y" := JNumber("5")]))
    else if p == SubFile then Parsed(JObject(map["y" := JNumber("9")]))
    else Malformed(4)
  }

  function ExampleEnv(): Env {
    Env(ExampleCwd, Some("/home/user"),
        ExampleExists,
        p => p,
        Contents)
  }

  lemma ExamplePrefixes()
    ensures DirSlash(ExampleCwd[..1]) == "/home/"
    ensures DirSlash(ExampleCwd[..2]) == "/home/user/"
    ensures DirSlash(ExampleCwd[..3]) == "/home/user/proj/"
    ensures DirSlash(ExampleCwd) == "/home/user/proj/sub/"
  {
    var cwd := ExampleCwd;
    assert Prefixed(cwd[..1]) == "/home" by { assert cwd[..1][..0] == []; }
    assert Prefixed(cwd[..2]) == "/home/user" by { assert cwd[..2][..1] == cwd[..1]; }
    assert Prefixed(cwd[..3]) == "/home/user/proj" by { assert cwd[..3][..2] == cwd[..2]; }
    assert Prefixed(cwd) == "/home/user/proj/sub" by { assert cwd[..3] == cwd[..|cwd| - 1]; }
  }

  /** The walk visits the working directory, its three ancestors and the root, in that order. */
  lemma ExampleWalk()
    ensures Walk(ExampleCwd) == ["/home/user/proj/sub/", "/home/user/proj/", "/home/user/", "/home/", "/"]
  {
    var cwd := ExampleCwd;
    ExamplePrefixes();
    var w := Walk(cwd);
    assert w == Chain(cwd);
    assert w[0] == DirSlash(cwd[..4]) by { assert cwd[..4] == cwd; }
    assert w[1] == DirSlash(cwd[..3]) && w[2] == DirSlash(cwd[..2]) && w[3] == DirSlash(cwd[..1]);
  }

  function ExampleExists(p: string): bool {
    p == HomeFile || p == ProjFile || p == SubFile
  }

  lemma ExampleProbes()
    ensures "/home/user/proj/sub/" + ".cfg" == SubFile
    ensures "/home/user/proj/" + ".cfg" == ProjFile
    ensures "/home/user/" + ".cfg" == HomeFile
    ensures !ExampleExists("/home/" + ".cfg") && !ExampleExists("/" + ".cfg")
  {
    assert |"/home/" + ".cfg"| == 10 && |"/" + ".cfg"| == 5;
  }

  lemma ExampleHitsNear()
    ensures Hits(["/home/user/proj/sub/", "/home/user/proj/"], ".cfg", ExampleExists) == [SubFile, ProjFile]
  {
    var fe := ExampleExists;
    var d0, d1 := "/home/user/proj/sub/", "/home/user/proj/";
    assert Hits([d0], ".cfg", fe) == [SubFile] by {
      ExampleProbes();
      HitsStep([d0], 0, ".cfg", fe);
      assert [d0][..1] == [d0] && [d0][..0] == [];
    }
    ExampleProbes();
    HitsStep([d0, d1], 1, ".cfg", fe);
    assert [d0, d1][..2] == [d0, d1] && [d0, d1][..1] == [d0];
  }

  lemma ExampleHitsFar()
    ensures Hits(["/home/user/proj/sub/", "/home/user/proj/", "/home/user/", "/home/"], ".cfg", ExampleExists)
         == [SubFile, ProjFile, HomeFile]
  {
    var fe := ExampleExists;
    var d0, d1, d2, d3 := "/home/user/proj/sub/", "/home/user/proj/", "/home/user/", "/home/";
    assert Hits([d0, d1, d2], ".cfg", fe) == [SubFile, ProjFile, HomeFile] by {
      ExampleHitsNear();
      ExampleProbes();
      HitsStep([d0, d1, d2], 2, ".cfg", fe);
      assert [d0, d1, d2][..3] == [d0, d1, d2] && [d0, d1, d2][..2] == [d0, d1];
    }
    ExampleProbes();
    HitsStep([d0, d1, d2, d3], 3, ".cfg", fe);
    assert [d0, d1, d2, d3][..4] == [d0, d1, d2, d3] && [d0, d1, d2, d3][..3] == [d0, d1, d2];
  }

  /** The walk finds the three files, from the working directory up. */
  lemma ExampleHits()
    ensures Hits(Walk(ExampleCwd), ".cfg", ExampleExists) == [SubFile, ProjFile, HomeFile]
  {
    var fe := ExampleExists;
    var d0, d1, d2, d3, d4 := "/home/user/proj/sub/", "/home/user/proj/", "/home/user/", "/home/", "/";
    ExampleHitsFar();
    ExampleProbes();
    HitsStep([d0, d1, d2, d3, d4], 4, ".cfg", fe);
    assert [d0, d1, d2, d3, d4][..5] == [d0, d1, d2, d3, d4] && [d0, d1, d2, d3, d4][..4] == [d0, d1, d2, d3];
    ExampleWalk();
  }

  /** The tree scan returns the three files root first. */
  lemma ExampleTreeScan()
    ensures BubbleScanned(".cfg", ExampleEnv()) == [HomeFile, ProjFile, SubFile]
  {
    ExampleHits();
    assert ExampleEnv().fileExists == ExampleExists;
  }

  /** The home scan finds the home file, which the tree scan finds again. */
  lemma ExampleCandidates()
    ensures Candidates(".cfg", true, true, ExampleEnv()) == [HomeFile, HomeFile, ProjFile, SubFile]
  {
    ExampleTreeScan();
    assert HomeDirScan(".cfg", ExampleEnv()) == [HomeFile];
  }

  lemma ExampleDedup()
    ensures Dedup([HomeFile, HomeFile, ProjFile, SubFile]) == [HomeFile, ProjFile, SubFile]
  {
    var c := [HomeFile, HomeFile, ProjFile, SubFile];
    assert Dedup(c[..1]) == [HomeFile];
    assert Dedup(c[..2]) == [HomeFile] by { assert c[..2][..1] == c[..1]; }
    assert Dedup(c[..3]) == [HomeFile, ProjFile] by { assert c[..3][..2] == c[..2]; }
    assert c[..3] == c[..|c| - 1];
  }

  /** The home file is found twice (home scan and tree scan) and merged once, at its first place. */
  lemma ExampleMergeOrder()
    ensures Dedup(Candidates(".cfg", true, true, ExampleEnv())) == [HomeFile, ProjFile, SubFile]
  {
    ExampleCandidates();
    ExampleDedup();
  }

  /** Each of the three files loads as the object it holds. */
  lemma LoadHome()
    ensures Load(HomeFile, Contents(HomeFile)) == Success(map[Name("x") := JNumber("1")])
  {
    ObjectEntries1("x", JNumber("1"));
  }

  lemma LoadProj()
    ensures Load(ProjFile, Contents(ProjFile)) == Success(map[Name("x") := JNumber("2"), Name("y") := JNumber("5")])
  {
    assert |HomeFile| == 15 && |ProjFile| == 20;
    ObjectEntries2("x", JNumber("2"), "y", JNumber("5"));
  }

  lemma LoadSub()
    ensures Load(SubFile, Contents(SubFile)) == Success(map[Name("y") := JNumber("9")])
  {
    assert |HomeFile| == 15 && |ProjFile| == 20 && |SubFile| == 24;
    ObjectEntries1("y", JNumber("9"));
  }

  lemma ObjectEntries1(a: string, va: Json)
    ensures Entries(JObject(map[a := va])) == map[Name(a) := va]
  {
    assert Entries(JObject(map[a := va])).Keys == {Name(a)};
  }

  lemma ObjectEntries2(a: string, va: Json, b: string, vb: Json)
    requires a != b
    ensures Entries(JObject(map[a := va, b := vb])) == map[Name(a) := va, Name(b) := vb]
  {
    assert Entries(JObject(map[a := va, b := vb])).Keys == {Name(a), Name(b)};
  }

  lemma ExampleLoadOne()
    ensures LoadAll([HomeFile], Contents) == Success([map[Name("x") := JNumber("1")]])
  {
    var m1 := map[Name("x") := JNumber("1")];
    LoadHome();
    assert [HomeFile][..0] == [] && [HomeFile][..1] == [HomeFile];
    LoadAllStep([HomeFile], Contents, 0);
    assert [] + [m1] == [m1];
  }

  lemma ExampleLoadTwo()
    ensures LoadAll([HomeFile, ProjFile], Contents)
         == Success([map[Name("x") := JNumber("1")], map[Name("x") := JNumber("2"), Name("y") := JNumber("5")]])
  {
    var m1 := map[Name("x") := JNumber("1")];
    var m2 := map[Name("x") := JNumber("2"), Name("y") := JNumber("5")];
    var paths := [HomeFile, ProjFile];
    assert paths[..1] == [HomeFile] && paths[..2] == paths;
    ExampleLoadOne();
    LoadProj();
    LoadAllStep(paths, Contents, 1);
    assert [m1] + [m2] == [m1, m2];
  }

  /** All three files load, in merge order. */
  lemma ExampleLoadAll()
    ensures LoadAll([HomeFile, ProjFile, SubFile], Contents)
         == Success([map[Name("x") := JNumber("1")],
                     map[Name("x") := JNumber("2"), Name("y") := JNumber("5")],
                     map[Name("y") := JNumber("9")]])
  {
    var m1 := map[Name("x") := JNumber("1")];
    var m2 := map[Name("x") := JNumber("2"), Name("y") := JNumber("5")];
    var m3 := map[Name("y") := JNumber("9")];
    var paths := [HomeFile, ProjFile, SubFile];
    assert paths[..2] == [HomeFile, ProjFile] && paths[..3] == paths;
    assert [m1, m2] + [m3] == [m1, m2, m3];
    ExampleLoadTwo();
    LoadSub();
    LoadAllStep(paths, Contents, 2);
  }

  lemma ExampleMergeAll()
    ensures MergeAll([map[Name("x") := JNumber("1")],
                      map[Name("x") := JNumber("2"), Name("y") := JNumber("5")],
                      map[Name("y") := JNumber("9")]])
         == map[Name("x") := JNumber("2"), Name("y") := JNumber("9")]
  {
    var m1 := map[Name("x") := JNumber("1")];
    var m2 := map[Name("x") := JNumber("2"), Name("y") := JNumber("5")];
    var m3 := map[Name("y") := JNumber("9")];
    MergeAllStep([], m1);
    MergeAllStep([m1], m2);
    MergeAllStep([m1, m2], m3);
    assert [] + [m1] == [m1] && [m1] + [m2] == [m1, m2] && [m1, m2] + [m3] == [m1, m2, m3];
    assert m1 + m2 + m3 == map[Name("x") := JNumber("2"), Name("y") := JNumber("9")];
  }

  /** The closer file wins each key: x comes from the project file, y from the sub-directory's file. */
  lemma ExampleScenario()
    ensures Construct(StringArg(".cfg"), true, true, ExampleEnv())
         == Success(map[Name("x") := JNumber("2"), Name("y") := JNumber("9")])
  {
    var d := Dedup(Candidates(".cfg", true, true, ExampleEnv()));
    assert d == [HomeFile, ProjFile, SubFile] by { ExampleMergeOrder(); }
    assert Construct(StringArg(".cfg"), true, true, ExampleEnv()) == Merged(d, Contents);
    ExampleLoadAll();
    ExampleMergeAll();
  }
}
