// Paths as newfs_lookup sees them: newfs_calc_lvl, newfs_get_fname, the
// split of a path by strtok(path, "/"), and the comparison of a path
// component with a dentry's name (fs/newfs/src/newfs_utils.c:11-38, 544-566).

module Path {
  import opened Types

  // ---------------------------------------------------------------------
  // newfs_calc_lvl
  // ---------------------------------------------------------------------

  /** The number of '/' characters in `s`. */
  function Slashes(s: string): nat
  {
    if s == [] then 0 else Slashes(s[..|s| - 1]) + (if s[|s| - 1] == '/' then 1 else 0)
  }

  /** The level of a path as newfs_calc_lvl counts it: 0 for "/", the number
      of '/' characters otherwise. */
  function Lvl(path: string): nat
  {
    if path == "/" then 0 else Slashes(path)
  }

  /** newfs_calc_lvl: compares the path with "/", then walks it up to its
      terminator counting '/'. */
  method CalcLvl(path: string) returns (lvl: int)
    requires IsCString(path)
    ensures lvl == Lvl(path)
  {
    lvl := 0;
    if path == "/" {
      return;
    }
    var i := 0;
    while i < |path|
      invariant 0 <= i <= |path| && lvl == Slashes(path[..i])
    {
      assert path[..i + 1][..i] == path[..i];
      if path[i] == '/' {
        lvl := lvl + 1;
      }
      i := i + 1;
    }
    assert path[..|path|] == path;
  }

  lemma {:induction false} SlashesAppend(a: string, b: string)
    ensures Slashes(a + b) == Slashes(a) + Slashes(b)
    decreases |b|
  {
    if b != [] {
      var b' := b[..|b| - 1];
      assert (a + b)[..|a + b| - 1] == a + b';
      SlashesAppend(a, b');
    } else {
      assert a + b == a;
    }
  }

  lemma {:induction false} NoSlashes(t: string)
    requires forall k :: 0 <= k < |t| ==> t[k] != '/'
    ensures Slashes(t) == 0
    decreases |t|
  {
    if t != [] {
      NoSlashes(t[..|t| - 1]);
    }
  }

  // ---------------------------------------------------------------------
  // strtok(path, "/")
  // ---------------------------------------------------------------------

  /** A component strtok returns: not empty, without '/'. */
  predicate IsToken(t: string)
  {
    |t| > 0 && forall k :: 0 <= k < |t| ==> t[k] != '/'
  }

  /** The length of the run of characters other than '/' that starts `s`. */
  function RunLen(s: string): (n: nat)
    ensures n <= |s|
    ensures forall k :: 0 <= k < n ==> s[k] != '/'
    ensures n < |s| ==> s[n] == '/'
  {
    if s == [] || s[0] == '/' then 0 else 1 + RunLen(s[1..])
  }

  /** The strings strtok(path, "/") and then strtok(NULL, "/") return, in
      order: the maximal runs of characters other than '/', the empty runs
      between consecutive '/' skipped. */
  function Tokens(s: string): (ts: seq<string>)
    ensures forall k :: 0 <= k < |ts| ==> IsToken(ts[k])
    decreases |s|
  {
    if s == [] then []
    else if s[0] == '/' then Tokens(s[1..])
    else [s[..RunLen(s)]] + Tokens(s[RunLen(s)..])
  }

  /** The absolute path whose components are `ts`. */
  function Join(ts: seq<string>): (s: string)
    ensures s == [] <==> ts == []
    ensures s != [] ==> s[0] == '/'
  {
    if ts == [] then "" else "/" + ts[0] + Join(ts[1..])
  }

  /** The paths FUSE hands to newfs: "/" itself, or "/" before each of one or
      more non-empty components, with no trailing '/'. */
  predicate Normal(path: string)
  {
    path == "/" || (Tokens(path) != [] && Join(Tokens(path)) == path)
  }

  lemma RunLenOfToken(t: string, rest: string)
    requires IsToken(t) && (rest == [] || rest[0] == '/')
    ensures RunLen(t + rest) == |t|
  {
    var s := t + rest;
    assert forall k :: 0 <= k < |t| ==> s[k] == t[k];
    assert |t| < |s| ==> s[|t|] == rest[0];
  }

  /** Splitting a joined path gives its components back. */
  lemma {:induction false} TokensOfJoin(ts: seq<string>)
    requires forall k :: 0 <= k < |ts| ==> IsToken(ts[k])
    ensures Tokens(Join(ts)) == ts
  {
    if ts != [] {
      var t, rest := ts[0], Join(ts[1..]);
      var s := Join(ts);
      assert s[1..] == t + rest;
      RunLenOfToken(t, rest);
      assert (t + rest)[..|t|] == t;
      assert (t + rest)[|t|..] == rest;
      TokensOfJoin(ts[1..]);
      assert ts == [t] + ts[1..];
    }
  }

  /** A joined path has one level per component. */
  lemma {:induction false} SlashesOfJoin(ts: seq<string>)
    requires forall k :: 0 <= k < |ts| ==> IsToken(ts[k])
    ensures Slashes(Join(ts)) == |ts|
  {
    if ts != [] {
      SlashesOfJoin(ts[1..]);
      NoSlashes(ts[0]);
      SlashesAppend("/", ts[0]);
      SlashesAppend("/" + ts[0], Join(ts[1..]));
      assert Slashes("/") == Slashes("") + 1;
    }
  }

  /** newfs_calc_lvl of a path FUSE hands over is the number of components
      strtok splits it into, so newfs_lookup meets its last component at
      level total_lvl. */
  lemma LvlCountsTokens(path: string)
    requires Normal(path)
    ensures Lvl(path) == |Tokens(path)|
  {
    if path != "/" {
      var ts := Tokens(path);
      SlashesOfJoin(ts);
      assert |ts[0]| > 0 && |path| >= 2;
    }
  }

  // ---------------------------------------------------------------------
  // newfs_get_fname
  // ---------------------------------------------------------------------

  /** newfs_get_fname: what follows the last '/' of the path (strrchr + 1).
      The path must hold a '/'. */
  function GetFname(path: string): (f: string)
    requires exists k :: 0 <= k < |path| && path[k] == '/'
    ensures |f| < |path| && path[|path| - |f| - 1] == '/' && path[|path| - |f|..] == f
    ensures forall k :: 0 <= k < |f| ==> f[k] != '/'
  {
    var n := |path| - 1;
    if path[n] == '/' then ""
    else
      assert exists k :: 0 <= k < n && path[..n][k] == '/' by {
        var k :| 0 <= k < |path| && path[k] == '/';
        assert k < n && path[..n][k] == '/';
      }
      GetFname(path[..n]) + [path[n]]
  }

  lemma {:induction false} JoinSnoc(ts: seq<string>)
    requires ts != []
    ensures Join(ts) == Join(ts[..|ts| - 1]) + "/" + ts[|ts| - 1]
  {
    if |ts| > 1 {
      JoinSnoc(ts[1..]);
      assert ts[1..][..|ts| - 2] == ts[..|ts| - 1][1..];
    }
  }

  /** What follows the last '/' is what newfs_get_fname returns. */
  lemma GetFnameAfter(p: string, i: int)
    requires 0 <= i < |p| && p[i] == '/' && forall x :: i < x < |p| ==> p[x] != '/'
    ensures GetFname(p) == p[i + 1..]
  {
    var f := GetFname(p);
    var s := |p| - |f|;
    assert p[s..] == f;
    forall x | s <= x < |p|
      ensures p[x] != '/'
    {
      assert p[x] == p[s..][x - s];
    }
    assert s - 1 == i;
  }

  /** The name newfs_get_fname takes from a path is its last component. */
  lemma GetFnameIsLastToken(ts: seq<string>)
    requires ts != [] && forall k :: 0 <= k < |ts| ==> IsToken(ts[k])
    ensures exists k :: 0 <= k < |Join(ts)| && Join(ts)[k] == '/'
    ensures GetFname(Join(ts)) == ts[|ts| - 1]
  {
    var t := ts[|ts| - 1];
    var p := Join(ts);
    JoinSnoc(ts);
    var a := Join(ts[..|ts| - 1]);
    assert p[|a|] == '/';
    forall x | |a| < x < |p|
      ensures p[x] != '/'
    {
      assert p[x] == t[x - |a| - 1];
    }
    GetFnameAfter(p, |a|);
    assert p[|a| + 1..] == t;
  }

  // ---------------------------------------------------------------------
  // The name comparison of newfs_lookup
  // ---------------------------------------------------------------------

  /** The comparison at newfs_utils.c:566 as written: memcmp over strlen of
      the component only, so the component need only be a prefix of the
      stored name. */
  predicate MatchAsWritten(fname: string, tok: string)
  {
    |tok| <= |fname| && fname[..|tok|] == tok
  }

  /** The comparison a lookup needs: the stored name is the component. */
  predicate Matches(fname: string, tok: string)
  {
    NameOf(fname) == tok
  }

  /** As written, looking up "ab" finds a dentry named "abc". */
  lemma PrefixMatchAsWritten()
    ensures MatchAsWritten(NewDentry("abc", RegFile).fname, "ab")
    ensures !Matches(NewDentry("abc", RegFile).fname, "ab")
  {
    NewDentryNameOf("abc", RegFile);
    assert NewDentry("abc", RegFile).fname[..2] == "abc"[..2];
  }

  /** The intended comparison is the one as written plus a terminator right
      after the component. */
  lemma MatchesIsTerminatedPrefix(fname: string, tok: string)
    requires IsCString(tok)
    ensures Matches(fname, tok) <==> MatchAsWritten(fname, tok) && (|tok| == |fname| || fname[|tok|] == '\0')
  {
    if MatchAsWritten(fname, tok) && (|tok| == |fname| || fname[|tok|] == '\0') {
      assert forall k :: 0 <= k < |tok| ==> fname[k] == tok[k];
      CStrLenOfTerminated(fname, |tok|);
    }
  }
}
