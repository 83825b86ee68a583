/**
 * Directory strings as JsonLocalConfig::bubbleScan handles them.
 *
 * The canonical working directory (what realpath(".") returns) is given as
 * its sequence of path segments, so that "the ancestors of the working
 * directory" are the prefixes of that sequence. The walk itself works on
 * strings, exactly as the PHP loop does: it appends "/" and calls dirname().
 */
module Paths {

  /** A canonical absolute directory: every segment is non-empty and holds no '/'. */
  predicate ValidSegments(segs: seq<string>) {
    forall i :: 0 <= i < |segs| ==> segs[i] != [] && '/' !in segs[i]
  }

  /** "/s1/s2/.../sn"; the empty string for the root. */
  function Prefixed(segs: seq<string>): string {
    if segs == [] then [] else Prefixed(segs[..|segs| - 1]) + "/" + segs[|segs| - 1]
  }

  /** The string realpath() gives for a directory: "/" for the root. */
  function Render(segs: seq<string>): string {
    if segs == [] then "/" else Prefixed(segs)
  }

  /** A directory with one trailing slash, the form bubbleScan keeps in $current ("/" for the root). */
  function DirSlash(segs: seq<string>): string {
    Prefixed(segs) + "/"
  }

  /** A string that starts and ends with '/'. */
  predicate AbsoluteDir(s: string) {
    |s| > 0 && s[0] == '/' && s[|s| - 1] == '/'
  }

  /** Removes every trailing '/'. */
  function DropTrailingSlashes(s: string): (r: string)
    ensures r <= s
    ensures r == [] || r[|r| - 1] != '/'
    ensures forall i :: |r| <= i < |s| ==> s[i] == '/'
  {
    if s != [] && s[|s| - 1] == '/' then DropTrailingSlashes(s[..|s| - 1]) else s
  }

  /** Removes the trailing run of characters other than '/'. */
  function DropTrailingName(s: string): (r: string)
    ensures r <= s
    ensures r == [] || r[|r| - 1] == '/'
    ensures forall i :: |r| <= i < |s| ==> s[i] != '/'
  {
    if s != [] && s[|s| - 1] != '/' then DropTrailingName(s[..|s| - 1]) else s
  }

  /**
   * PHP's dirname() on a POSIX system: strip trailing slashes, then the last
   * name, then the slashes before it. A path made only of slashes gives "/",
   * a path with no slash gives ".", the empty path gives "".
   */
  function Dirname(path: string): string {
    if path == [] then []
    else
      var t := DropTrailingSlashes(path);
      if t == [] then "/"
      else
        var u := DropTrailingName(t);
        if u == [] then "."
        else
          var v := DropTrailingSlashes(u);
          if v == [] then "/" else v
  }

  /** One step up in bubbleScan: dirname(), then a trailing slash unless the result is "/". */
  function Parent(current: string): string {
    var d := Dirname(current);
    if d == "/" then d else d + "/"
  }

  /** The directory bubbleScan starts from: realpath(".") followed by "/". */
  function StartDir(cwd: seq<string>): string {
    Render(cwd) + "/"
  }

  /** The chain DirSlash(segs), DirSlash of its parent, ..., "/". */
  function Chain(segs: seq<string>): (c: seq<string>)
    ensures |c| == |segs| + 1
    ensures forall i :: 0 <= i <= |segs| ==> c[|segs| - i] == DirSlash(segs[..i])
  {
    if segs == [] then ["/"]
    else
      var init := segs[..|segs| - 1];
      assert segs[..|segs|] == segs;
      assert forall i :: 0 <= i <= |init| ==> init[..i] == segs[..i];
      [DirSlash(segs)] + Chain(init)
  }

  /**
   * The directories bubbleScan checks, in the order it checks them. At the
   * root, realpath(".") is "/", so the walk starts from "//" and then reaches "/".
   */
  function Walk(cwd: seq<string>): (w: seq<string>)
    ensures |w| >= 2 && w[0] == StartDir(cwd) && w[|w| - 1] == "/"
    ensures forall i :: 0 <= i <= |cwd| ==> DirSlash(cwd[..i]) in w
  {
    if cwd == [] then
      assert DirSlash(cwd[..0]) == "/";
      ["//", "/"]
    else
      Chain(cwd)
  }

  /** Below the root, the walk visits exactly the working directory and its ancestors. */
  lemma WalkIsAncestors(cwd: seq<string>)
    requires cwd != []
    ensures forall x :: x in Walk(cwd) <==> exists i :: 0 <= i <= |cwd| && x == DirSlash(cwd[..i])
  {
    var w := Walk(cwd);
    assert w == Chain(cwd);
    forall x | x in w
      ensures exists i :: 0 <= i <= |cwd| && x == DirSlash(cwd[..i])
    {
      var k :| 0 <= k < |w| && w[k] == x;
      assert w[|cwd| - (|cwd| - k)] == DirSlash(cwd[..|cwd| - k]);
    }
  }

  /** Every step of the loop, on any absolute directory other than "/", reaches a strictly shorter absolute directory. */
  lemma ParentShrinks(c: string)
    requires AbsoluteDir(c) && c != "/"
    ensures AbsoluteDir(Parent(c)) && |Parent(c)| < |c|
  {
    var t := DropTrailingSlashes(c);
    if t != [] {
      assert t[0] == '/';
      var u := DropTrailingName(t);
      assert u != [] by { assert t[0] == '/'; }
      assert |u| < |t|;
      var v := DropTrailingSlashes(u);
      assert |v| < |u|;
      if v != [] {
        assert v[0] == '/';
        assert Dirname(c) == v;
      }
    }
  }

  lemma DropSlashesAppend(x: string)
    ensures DropTrailingSlashes(x + "/") == DropTrailingSlashes(x)
  {
    assert (x + "/")[..|x|] == x;
  }

  lemma {:induction false} DropNameAppend(x: string, name: string)
    requires '/' !in name
    ensures DropTrailingName(x + name) == DropTrailingName(x)
  {
    if name != [] {
      var s := x + name;
      assert s[|s| - 1] == name[|name| - 1];
      assert s[..|s| - 1] == x + name[..|name| - 1];
      DropNameAppend(x, name[..|name| - 1]);
    } else {
      assert x + name == x;
    }
  }

  lemma {:induction false} PrefixedShape(segs: seq<string>)
    requires ValidSegments(segs) && segs != []
    ensures |Prefixed(segs)| > 0 && Prefixed(segs)[0] == '/'
    ensures Prefixed(segs)[|Prefixed(segs)| - 1] != '/'
  {
    var init, last := segs[..|segs| - 1], segs[|segs| - 1];
    assert last != [] && '/' !in last;
    assert Prefixed(segs) == Prefixed(init) + "/" + last;
    assert last[|last| - 1] != '/';
    if init != [] {
      PrefixedShape(init);
    }
  }

  /** Stripping "<name>/" from "<p><name>/", with p ending in '/', leaves p. */
  lemma StripLastName(p: string, name: string)
    requires name != [] && '/' !in name
    ensures DropTrailingSlashes((p + name) + "/") == p + name
    ensures DropTrailingName(p + name) == DropTrailingName(p)
  {
    DropSlashesAppend(p + name);
    assert (p + name)[|p + name| - 1] == name[|name| - 1];
    DropNameAppend(p, name);
  }

  /** dirname() of a canonical directory with its trailing slash is its parent directory. */
  lemma ParentOfDirSlash(segs: seq<string>)
    requires ValidSegments(segs) && segs != []
    ensures Parent(DirSlash(segs)) == DirSlash(segs[..|segs| - 1])
  {
    var init, last := segs[..|segs| - 1], segs[|segs| - 1];
    assert ValidSegments(init);
    assert last != [] && '/' !in last;
    var p := Prefixed(init) + "/";
    assert DirSlash(segs) == (p + last) + "/";
    StripLastName(p, last);
    assert DropTrailingName(p) == p;
    DropSlashesAppend(Prefixed(init));
    var v := DropTrailingSlashes(p);
    assert Dirname(DirSlash(segs)) == if v == [] then "/" else v;
    if init == [] {
      assert v == [];
    } else {
      PrefixedShape(init);
      assert v == Prefixed(init);
    }
  }

  /** One step of the walk below the root: a DirSlash of a non-empty prefix goes up to the next prefix. */
  lemma WalkStep(cwd: seq<string>, i: nat)
    requires ValidSegments(cwd) && i < |cwd|
    ensures DirSlash(cwd[..|cwd| - i]) != "/"
    ensures Parent(DirSlash(cwd[..|cwd| - i])) == DirSlash(cwd[..|cwd| - (i + 1)])
  {
    var segs := cwd[..|cwd| - i];
    assert ValidSegments(segs);
    PrefixedShape(segs);
    ParentOfDirSlash(segs);
    assert segs[..|segs| - 1] == cwd[..|cwd| - (i + 1)];
  }

  /**
   * The walk follows the loop: each directory before the last is not "/" and
   * its Parent is the next one; so "/" is checked exactly once, and last.
   */
  lemma WalkFollowsParent(cwd: seq<string>)
    requires ValidSegments(cwd)
    ensures forall i :: 0 <= i < |Walk(cwd)| - 1 ==> Walk(cwd)[i] != "/" && Parent(Walk(cwd)[i]) == Walk(cwd)[i + 1]
  {
    var w := Walk(cwd);
    if cwd == [] {
      assert Dirname("//") == "/";
    } else {
      assert w == Chain(cwd);
      forall i | 0 <= i < |w| - 1
        ensures w[i] != "/" && Parent(w[i]) == w[i + 1]
      {
        assert w[|cwd| - (|cwd| - i)] == DirSlash(cwd[..|cwd| - i]);
        assert w[|cwd| - (|cwd| - (i + 1))] == DirSlash(cwd[..|cwd| - (i + 1)]);
        WalkStep(cwd, i);
      }
    }
  }

  /** Every directory on the walk starts and ends with '/'. */
  lemma WalkAbsolute(cwd: seq<string>)
    requires ValidSegments(cwd)
    ensures forall i :: 0 <= i < |Walk(cwd)| ==> AbsoluteDir(Walk(cwd)[i])
  {
    var w := Walk(cwd);
    if cwd != [] {
      forall i | 0 <= i < |w|
        ensures AbsoluteDir(w[i])
      {
        var segs := cwd[..|cwd| - i];
        assert w[|cwd| - (|cwd| - i)] == DirSlash(segs);
        if segs != [] {
          assert ValidSegments(segs);
          PrefixedShape(segs);
        }
      }
    }
  }

  /** Directories later in the walk are strictly shorter: the walk never revisits a directory. */
  lemma WalkShrinks(cwd: seq<string>)
    requires ValidSegments(cwd)
    ensures forall i, j :: 0 <= i < j < |Walk(cwd)| ==> |Walk(cwd)[j]| < |Walk(cwd)[i]|
  {
    var w := Walk(cwd);
    WalkFollowsParent(cwd);
    WalkAbsolute(cwd);
    forall i | 0 <= i < |w| - 1
      ensures |w[i + 1]| < |w[i]|
    {
      ParentShrinks(w[i]);
    }
    AdjacentShrinking(w);
  }

  lemma AdjacentShrinking(w: seq<string>)
    requires forall i :: 0 <= i < |w| - 1 ==> |w[i + 1]| < |w[i]|
    ensures forall i, j :: 0 <= i < j < |w| ==> |w[j]| < |w[i]|
  {
    forall i, j | 0 <= i < j < |w|
      ensures |w[j]| < |w[i]|
    {
      var k := i;
      while k < j - 1
        invariant i <= k < j && |w[k + 1]| < |w[i]|
      {
        k := k + 1;
      }
    }
  }
}
