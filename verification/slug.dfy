/** The `Slug` newtype of the file-operations module: a file name derived from an
    arbitrary string by lowercasing it, keeping only alphanumerics, spaces and
    dots, and turning every space into a dash.

    Character classes are the ASCII ones: `ToLower` maps `A`..`Z` to `a`..`z`
    and leaves every other character alone, and `IsAlphanumeric` accepts
    `a`..`z`, `A`..`Z` and `0`..`9`. */
module Slugs {
  import opened Seqs

  predicate IsUpper(c: char) { 'A' <= c <= 'Z' }
  predicate IsLower(c: char) { 'a' <= c <= 'z' }
  predicate IsDigit(c: char) { '0' <= c <= '9' }
  predicate IsAlphanumeric(c: char) { IsUpper(c) || IsLower(c) || IsDigit(c) }

  /** The characters a slug may contain. */
  predicate IsSlugChar(c: char) { IsLower(c) || IsDigit(c) || c == '.' || c == '-' }

  function ToLower(c: char): (r: char)
    ensures !IsUpper(r)
    ensures IsUpper(c) ==> IsLower(r) && r as int == c as int + 32
    ensures !IsUpper(c) ==> r == c
  {
    if IsUpper(c) then (c as int + 32) as char else c
  }

  /** `str::to_lowercase`, one character at a time. */
  function Lowercase(s: string): (r: string)
    ensures |r| == |s|
    ensures forall i :: 0 <= i < |s| ==> r[i] == ToLower(s[i])
  {
    if s == [] then [] else [ToLower(s[0])] + Lowercase(s[1..])
  }

  /** The filter's test: alphanumerics, spaces and dots survive. */
  predicate Keep(c: char) { IsAlphanumeric(c) || c == ' ' || c == '.' }

  /** `chars().filter(Keep).collect()`: the order-preserving subsequence of kept characters. */
  function KeepOnly(s: string): (r: string)
    ensures |r| <= |s|
    ensures forall i :: 0 <= i < |r| ==> Keep(r[i])
    ensures forall c :: Keep(c) ==> multiset(r)[c] == multiset(s)[c]
  {
    if s == [] then []
    else
      assert s == [s[0]] + s[1..];
      if Keep(s[0]) then [s[0]] + KeepOnly(s[1..]) else KeepOnly(s[1..])
  }

  /** The filter decides one character at a time: a single character survives
      exactly when it is kept. */
  lemma {:induction false} KeepOnlySingle(c: char)
    ensures KeepOnly([c]) == if Keep(c) then [c] else []
  {
    assert [c][1..] == [];
  }

  /** The filter keeps the input order: filtering a concatenation concatenates
      the filtered parts. With `KeepOnlySingle` this determines it completely. */
  lemma {:induction false} KeepOnlyAppend(a: string, b: string)
    ensures KeepOnly(a + b) == KeepOnly(a) + KeepOnly(b)
    decreases |a|
  {
    if a == [] {
      assert a + b == b;
    } else {
      assert (a + b)[0] == a[0];
      assert (a + b)[1..] == a[1..] + b;
      KeepOnlyAppend(a[1..], b);
      if Keep(a[0]) {
        ConcatAssoc([a[0]], KeepOnly(a[1..]), KeepOnly(b));
      }
    }
  }

  /** `replace(" ", "-")`: every space becomes a dash, nothing else moves. */
  function ReplaceSpaces(s: string): (r: string)
    ensures |r| == |s|
    ensures forall i :: 0 <= i < |s| ==> (s[i] == ' ' ==> r[i] == '-') && (s[i] != ' ' ==> r[i] == s[i])
  {
    if s == [] then [] else [if s[0] == ' ' then '-' else s[0]] + ReplaceSpaces(s[1..])
  }

  /** `Slug::new`: lowercase, filter, then replace spaces. */
  function Slug(s: string): (r: string)
    ensures |r| <= |s|
    ensures forall i :: 0 <= i < |r| ==> IsSlugChar(r[i])
    ensures ' ' !in r
  {
    ReplaceSpaces(KeepOnly(Lowercase(s)))
  }

  /** Reference definition: what one input character contributes to the slug. */
  function SlugOfChar(c: char): string
  {
    var l := ToLower(c);
    if !Keep(l) then [] else if l == ' ' then ['-'] else [l]
  }

  /** Reference definition: the slug as the concatenation of per-character contributions. */
  function SlugSpec(s: string): string
  {
    if s == [] then [] else SlugOfChar(s[0]) + SlugSpec(s[1..])
  }

  lemma {:induction false} SlugCons(s: string)
    requires s != []
    ensures Slug(s) == SlugOfChar(s[0]) + Slug(s[1..])
  {
    var l := ToLower(s[0]);
    assert Lowercase(s) == [l] + Lowercase(s[1..]);
    var rest := KeepOnly(Lowercase(s[1..]));
    if Keep(l) {
      assert KeepOnly(Lowercase(s)) == [l] + rest;
      assert ([l] + rest)[1..] == rest;
    } else {
      assert KeepOnly(Lowercase(s)) == rest;
    }
  }

  /** The pipeline of `Slug::new` agrees with the per-character reference definition:
      the slug is the order-preserving subsequence of lowercased kept characters,
      each space mapped to a dash. */
  lemma {:induction false} SlugMatchesSpec(s: string)
    ensures Slug(s) == SlugSpec(s)
    decreases |s|
  {
    if s != [] {
      SlugCons(s);
      SlugMatchesSpec(s[1..]);
    }
  }

  lemma {:induction false} SpecDashesCountSpaces(s: string)
    ensures multiset(SlugSpec(s))['-'] == multiset(s)[' ']
    decreases |s|
  {
    if s != [] {
      SpecDashesCountSpaces(s[1..]);
      SlugOfCharDash(s[0]);
      assert s == [s[0]] + s[1..];
      assert multiset(s)[' '] == multiset([s[0]])[' '] + multiset(s[1..])[' '];
    }
  }

  /** Every space of the input becomes exactly one dash of the slug; input dashes are dropped. */
  lemma {:induction false} SlugDashesCountSpaces(s: string)
    ensures multiset(Slug(s))['-'] == multiset(s)[' ']
  {
    SlugMatchesSpec(s);
    SpecDashesCountSpaces(s);
  }

  lemma {:induction false} SlugOfCharDash(c: char)
    ensures multiset(SlugOfChar(c))['-'] == multiset([c])[' ']
  {
    if c == ' ' {
      assert SlugOfChar(c) == ['-'];
    } else {
      assert '-' !in SlugOfChar(c);
    }
  }

  /** The slug of a string already made of slug characters is that string with its dashes removed. */
  function DropDashes(s: string): (r: string)
    ensures '-' !in r
    ensures |r| == |s| - multiset(s)['-']
  {
    if s == [] then []
    else if s[0] == '-' then
      assert s == [s[0]] + s[1..];
      DropDashes(s[1..])
    else
      assert s == [s[0]] + s[1..];
      [s[0]] + DropDashes(s[1..])
  }

  lemma {:induction false} SlugOfSlugChars(t: string)
    requires forall i :: 0 <= i < |t| ==> IsSlugChar(t[i])
    ensures Slug(t) == DropDashes(t)
    decreases |t|
  {
    if t != [] {
      SlugCons(t);
      SlugOfSlugChars(t[1..]);
    }
  }

  /** Slugging a slug removes its dashes, so slugging is not idempotent:
      applying it twice equals applying it once exactly when the input has no space. */
  lemma {:induction false} SlugTwice(s: string)
    ensures Slug(Slug(s)) == DropDashes(Slug(s))
    ensures Slug(Slug(s)) == Slug(s) <==> ' ' !in s
    ensures Slug(Slug(Slug(s))) == Slug(Slug(s))
  {
    var t := Slug(s);
    SlugOfSlugChars(t);
    SlugDashesCountSpaces(s);
    var u := DropDashes(t);
    assert forall i :: 0 <= i < |u| ==> IsSlugChar(u[i]) by {
      SlugCharsSurviveDropDashes(t);
    }
    SlugOfSlugChars(u);
    DropDashesNoDash(u);
    if ' ' !in s {
      assert multiset(s)[' '] == 0;
      DropDashesNoDash(t);
    } else {
      assert multiset(s)[' '] > 0;
      assert |u| < |t|;
    }
  }

  lemma {:induction false} SlugCharsSurviveDropDashes(t: string)
    requires forall i :: 0 <= i < |t| ==> IsSlugChar(t[i])
    ensures forall i :: 0 <= i < |DropDashes(t)| ==> IsSlugChar(DropDashes(t)[i])
    decreases |t|
  {
    if t != [] {
      SlugCharsSurviveDropDashes(t[1..]);
    }
  }

  lemma {:induction false} DropDashesNoDash(t: string)
    requires '-' !in t
    ensures DropDashes(t) == t
    decreases |t|
  {
    if t != [] {
      assert t[0] in t;
      assert t == [t[0]] + t[1..];
      DropDashesNoDash(t[1..]);
    }
  }

  /** A slug is one path component at most, since it never holds a slash, but
      it can be empty or a dot name: "!" slugs to "" and "!.." slugs to "..". */
  lemma {:induction false} SlugMayBeDotName()
    ensures forall s :: '/' !in Slug(s)
    ensures Slug("!") == ""
    ensures Slug("!..") == ".."
  {
    forall s ensures '/' !in Slug(s) {
      var r := Slug(s);
      assert forall i :: 0 <= i < |r| ==> r[i] != '/';
    }
    assert SlugSpec(".") == "." by {
      assert "."[1..] == "";
    }
    assert SlugSpec("..") == ".." by {
      assert ".."[1..] == ".";
    }
    assert SlugSpec("!..") == ".." by {
      assert "!.."[1..] == "..";
    }
    assert SlugSpec("!") == "" by {
      assert "!"[1..] == "";
    }
    SlugMatchesSpec("!");
    SlugMatchesSpec("!..");
  }

  /** The example of the non-idempotence: "a b" slugs to "a-b", which slugs to "ab". */
  lemma {:induction false} SlugNotIdempotentExample()
    ensures Slug("a b") == "a-b"
    ensures Slug("a-b") == "ab"
  {
    assert SlugSpec("b") == "b" by {
      assert "b"[1..] == "";
    }
    assert SlugSpec(" b") == "-b" by {
      assert " b"[1..] == "b";
    }
    assert SlugSpec("-b") == "b" by {
      assert "-b"[1..] == "b";
    }
    assert SlugSpec("a b") == "a-b" by {
      assert "a b"[1..] == " b";
    }
    assert SlugSpec("a-b") == "ab" by {
      assert "a-b"[1..] == "-b";
    }
    SlugMatchesSpec("a b");
    SlugMatchesSpec("a-b");
  }
}
