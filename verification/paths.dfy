/** The part of `std::path` the file search relies on, for Unix path strings:
    splitting a path into components and `Path::ends_with`, which compares
    whole components from the end rather than characters. */
module Paths {

  datatype Component = RootDir | CurDir | ParentDir | Normal(name: string)

  /** A name that can stand as a `Normal` component. */
  predicate IsName(p: string)
  {
    p != [] && p != ['.'] && p != ['.', '.'] && '/' !in p
  }

  /** A name `canonicalize` can yield between two slashes of its result. */
  type Name = p: string | IsName(p) witness ['a']

  /** What `Path::components` can yield: a root or current-directory marker
      only in front, and no empty, "." or slash-containing normal names. */
  predicate WellFormed(cs: seq<Component>)
  {
    && (forall i :: 0 < i < |cs| ==> !cs[i].RootDir? && !cs[i].CurDir?)
    && (forall i :: 0 <= i < |cs| && cs[i].Normal? ==> IsName(cs[i].name))
  }

  /** The pieces of `s` between slashes: "a//b/" has the pieces "a", "", "b", "". */
  function SplitSlash(s: string): (r: seq<string>)
    ensures |r| >= 1
    ensures forall i :: 0 <= i < |r| ==> '/' !in r[i]
  {
    if s == [] then [[]]
    else
      var rest := SplitSlash(s[1..]);
      if s[0] == '/' then [[]] + rest
      else [[s[0]] + rest[0]] + rest[1..]
  }

  /** The pieces joined back with one slash between neighbours. */
  function JoinSlash(ps: seq<string>): string
    requires |ps| >= 1
  {
    if |ps| == 1 then ps[0] else ps[0] + ['/'] + JoinSlash(ps[1..])
  }

  /** Splitting then joining gives the string back. */
  lemma {:induction false} JoinSplit(s: string)
    ensures JoinSlash(SplitSlash(s)) == s
    decreases |s|
  {
    if s != [] {
      var rest := SplitSlash(s[1..]);
      JoinSplit(s[1..]);
      if s[0] == '/' {
        assert SplitSlash(s)[1..] == rest;
      } else {
        var r := SplitSlash(s);
        assert r[1..] == rest[1..];
        if |rest| > 1 {
          assert JoinSlash(rest) == rest[0] + ['/'] + JoinSlash(rest[1..]);
        }
        assert s == [s[0]] + s[1..];
      }
    }
  }

  lemma {:induction false} SplitPrefix(p: string, t: string)
    requires '/' !in p
    ensures SplitSlash(p + t) == [p + SplitSlash(t)[0]] + SplitSlash(t)[1..]
    decreases |p|
  {
    if p != [] {
      assert (p + t)[0] == p[0];
      assert (p + t)[1..] == p[1..] + t;
      SplitPrefix(p[1..], t);
      var r := SplitSlash(t);
      assert SplitSlash(p[1..] + t) == [p[1..] + r[0]] + r[1..];
      assert SplitSlash(p + t) == [[p[0]] + (p[1..] + r[0])] + r[1..];
      assert [p[0]] + (p[1..] + r[0]) == p + r[0];
    } else {
      var r := SplitSlash(t);
      assert p + t == t;
      assert p + r[0] == r[0];
      assert [r[0]] + r[1..] == r;
    }
  }

  /** Joining then splitting gives the pieces back when none contains a slash. */
  lemma {:induction false} SplitJoin(ps: seq<string>)
    requires |ps| >= 1
    requires forall i :: 0 <= i < |ps| ==> '/' !in ps[i]
    ensures SplitSlash(JoinSlash(ps)) == ps
    decreases |ps|
  {
    if |ps| == 1 {
      SplitPrefix(ps[0], []);
      assert ps[0] + [] == ps[0];
      assert SplitSlash([]) == [[]];
      assert ps == [ps[0]];
    } else {
      SplitJoin(ps[1..]);
      var t := ['/'] + JoinSlash(ps[1..]);
      assert JoinSlash(ps) == ps[0] + t;
      SplitPrefix(ps[0], t);
      assert t[0] == '/' && t[1..] == JoinSlash(ps[1..]);
      assert SplitSlash(t) == [[]] + ps[1..];
      assert ps[0] + [] == ps[0];
      assert ps == [ps[0]] + ps[1..];
    }
  }

  /** The components the pieces after the leading one contribute: empty and
      "." pieces vanish, ".." is the parent marker. */
  function Normals(ps: seq<string>): (r: seq<Component>)
    requires forall i :: 0 <= i < |ps| ==> '/' !in ps[i]
    ensures |r| <= |ps|
    ensures forall i :: 0 <= i < |r| ==> (r[i].ParentDir? || (r[i].Normal? && IsName(r[i].name)))
  {
    if ps == [] then []
    else
      var rest := Normals(ps[1..]);
      if ps[0] == [] || ps[0] == ['.'] then rest
      else if ps[0] == ['.', '.'] then [ParentDir] + rest
      else [Normal(ps[0])] + rest
  }

  /** `Path::components` of a Unix path string: a leading slash gives the root,
      a leading "." piece gives the current-directory marker, and the other
      pieces are read by `Normals`. */
  function Components(s: string): (r: seq<Component>)
    ensures WellFormed(r)
    ensures |s| > 0 && s[0] == '/' <==> |r| > 0 && r[0] == RootDir
  {
    var pieces := SplitSlash(s);
    if |s| > 0 && s[0] == '/' then [RootDir] + Normals(pieces[1..])
    else if pieces[0] == ['.'] then [CurDir] + Normals(pieces[1..])
    else Normals(pieces)
  }

  /** A component list read from its end. */
  function Reverse(cs: seq<Component>): (r: seq<Component>)
    ensures |r| == |cs|
    ensures forall i :: 0 <= i < |cs| ==> r[i] == cs[|cs| - 1 - i]
  {
    if cs == [] then [] else Reverse(cs[1..]) + [cs[0]]
  }

  /** `Path::ends_with`: `child`'s components are the last components of `path`. */
  predicate EndsWith(path: seq<Component>, child: seq<Component>)
  {
    |child| <= |path| && path[|path| - |child|..] == child
  }

  /** How the library decides `ends_with`: it walks both component lists
      backwards in step and asks that `child`'s run out first, that is, that
      reversed `child` is a prefix of reversed `path`. */
  lemma {:induction false} EndsWithBackwards(path: seq<Component>, child: seq<Component>)
    ensures EndsWith(path, child) <==> |child| <= |path| && Reverse(path)[..|child|] == Reverse(child)
  {
    if |child| > |path| {
      return;
    }
    var k := |path| - |child|;
    var rp, rc := Reverse(path), Reverse(child);
    if rp[..|child|] == rc {
      forall j | 0 <= j < |child|
        ensures path[k..][j] == child[j]
      {
        var i := |child| - 1 - j;
        assert rp[..|child|][i] == rc[i];
        assert rp[i] == path[|path| - 1 - i] && rc[i] == child[|child| - 1 - i];
        assert |path| - 1 - i == k + j;
      }
    }
    if path[k..] == child {
      forall i | 0 <= i < |child|
        ensures rp[..|child|][i] == rc[i]
      {
        assert path[k..][|child| - 1 - i] == child[|child| - 1 - i];
        assert rp[i] == path[|path| - 1 - i] && rc[i] == child[|child| - 1 - i];
      }
    }
  }

  /** `ends_with` holds exactly when `path` is some prefix followed by `child`. */
  lemma {:induction false} EndsWithIffSuffix(path: seq<Component>, child: seq<Component>)
    ensures EndsWith(path, child) <==> exists q :: path == q + child
  {
    if EndsWith(path, child) {
      assert path == path[..|path| - |child|] + child;
    }
  }

  /** The components of a canonical path: the root, then its names. */
  function Canonical(names: seq<Name>): (r: seq<Component>)
    ensures |r| == |names| + 1 && r[0] == RootDir
    ensures forall i :: 0 <= i < |names| ==> r[i + 1] == Normal(names[i])
  {
    [RootDir] + seq(|names|, i requires 0 <= i < |names| => Normal(names[i]))
  }

  /** The text of a canonical path: a slash before every name, or "/" alone. */
  function CanonicalText(names: seq<Name>): string
  {
    if names == [] then ['/'] else ['/'] + JoinSlash(names)
  }

  /** `Canonical` is what `Path::components` reads from the canonical path's text. */
  lemma {:induction false} CanonicalIsComponents(names: seq<Name>)
    ensures Components(CanonicalText(names)) == Canonical(names)
  {
    var s := CanonicalText(names);
    if names == [] {
      assert SplitSlash(s) == [[]] + SplitSlash([]) by {
        assert s[1..] == [];
      }
      assert Normals([[]]) == [];
    } else {
      assert s[1..] == JoinSlash(names);
      SplitJoin(names);
      assert SplitSlash(s)[1..] == names;
      NormalsOfNames(names);
    }
  }

  /** A relative path of plain names, written with single slashes, reads back
      as exactly those names. */
  lemma {:induction false} RelativeComponents(names: seq<string>)
    requires |names| >= 1
    requires forall i :: 0 <= i < |names| ==> IsName(names[i])
    ensures Components(JoinSlash(names)) == seq(|names|, i requires 0 <= i < |names| => Normal(names[i]))
  {
    SplitJoin(names);
    var s := JoinSlash(names);
    if |s| > 0 && s[0] == '/' {
      JoinFirst(names);
      assert false;
    }
    NormalsOfNames(names);
  }

  lemma {:induction false} JoinFirst(names: seq<string>)
    requires |names| >= 1 && names[0] != []
    ensures |JoinSlash(names)| > 0 && JoinSlash(names)[0] == names[0][0]
  {
    if |names| > 1 {
      assert JoinSlash(names) == names[0] + (['/'] + JoinSlash(names[1..]));
    }
  }

  lemma {:induction false} NormalsOfNames(names: seq<string>)
    requires forall i :: 0 <= i < |names| ==> IsName(names[i])
    ensures (forall i :: 0 <= i < |names| ==> '/' !in names[i]) && Normals(names) == seq(|names|, i requires 0 <= i < |names| => Normal(names[i]))
    decreases |names|
  {
    if names != [] {
      NormalsOfNames(names[1..]);
    }
  }

  /** A target spelled with a leading "./" never matches a canonical path,
      which holds no current-directory marker. */
  lemma {:induction false} CurDirNeverEnds(names: seq<Name>, rel: string)
    requires |Components(rel)| > 0 && Components(rel)[0] == CurDir
    ensures !EndsWith(Canonical(names), Components(rel))
  {
    var path := Canonical(names);
    var child := Components(rel);
    if |child| <= |path| {
      var k := |path| - |child|;
      if k > 0 {
        assert path[k] == Normal(names[k - 1]);
      }
      assert path[k..][0] != child[0];
    }
  }

  /** An absolute target matches a canonical path only when it is that whole path. */
  lemma {:induction false} RootedEndsOnlyAtWhole(names: seq<Name>, rel: string)
    requires |Components(rel)| > 0 && Components(rel)[0] == RootDir
    ensures EndsWith(Canonical(names), Components(rel)) <==> Canonical(names) == Components(rel)
  {
    var path := Canonical(names);
    var child := Components(rel);
    if |child| <= |path| {
      var k := |path| - |child|;
      if k > 0 {
        assert path[k] == Normal(names[k - 1]);
        assert path[k..][0] != child[0];
      } else {
        assert path[k..] == path;
      }
    }
  }

  /** The empty target has no components, so every path ends with it. */
  lemma {:induction false} EmptyEndsEverywhere(path: seq<Component>)
    ensures Components([]) == []
    ensures EndsWith(path, Components([]))
  {
    assert SplitSlash([]) == [[]];
  }

  /** The comparison is by whole components: a canonical path ends with a
      single name exactly when its last name is that name, so "/a/xb.txt" does
      not end with "b.txt" although its text does. */
  lemma {:induction false} EndsWithIsComponentWise(names: seq<Name>, n: Name)
    ensures EndsWith(Canonical(names), Components(n)) <==> names != [] && names[|names| - 1] == n
  {
    ComponentsOfName(n);
    var path := Canonical(names);
    if names != [] {
      assert path[|path| - 1..] == [Normal(names[|names| - 1])];
    } else {
      assert path[|path| - 1..] == [RootDir];
    }
  }

  /** A single name reads as one normal component. */
  lemma {:induction false} ComponentsOfName(n: Name)
    ensures Components(n) == [Normal(n)]
  {
    RelativeComponents([n]);
    assert JoinSlash([n]) == n;
  }
}
