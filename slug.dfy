/** Slug derivation shared by the app store, the upload route and the deploy server:
    lower-case the name, turn every character outside [a-z0-9] into '-', then
    collapse each run of '-' into a single '-'. */
module Slug {
  import opened Text

  predicate IsAlnum(c: char)
  {
    'a' <= c <= 'z' || '0' <= c <= '9'
  }

  predicate IsSlugChar(c: char)
  {
    IsAlnum(c) || c == '-'
  }

  predicate AllSlugChars(s: string)
  {
    forall i :: 0 <= i < |s| ==> IsSlugChar(s[i])
  }

  /** No two consecutive '-' anywhere in s. */
  predicate NoDoubleDash(s: string)
  {
    forall i :: 0 <= i < |s| - 1 ==> !(s[i] == '-' && s[i + 1] == '-')
  }

  /** replace(/[^a-z0-9]/g, '-') */
  function DashOutsideAlnum(s: string): (r: string)
    ensures |r| == |s| && AllSlugChars(r)
  {
    seq(|s|, i requires 0 <= i < |s| => if IsAlnum(s[i]) then s[i] else '-')
  }

  /** replace(/[^a-z0-9-]/g, '-') */
  function DashOutsideSlugChars(s: string): (r: string)
    ensures |r| == |s| && AllSlugChars(r)
  {
    seq(|s|, i requires 0 <= i < |s| => if IsSlugChar(s[i]) then s[i] else '-')
  }

  /** The two character classes differ only in '-', which both map to '-'. */
  lemma DashOutsideAgree(s: string)
    ensures DashOutsideAlnum(s) == DashOutsideSlugChars(s)
  {
  }

  /** The leading run of '-' removed. */
  function DropDashes(s: string): (r: string)
    ensures |r| <= |s| && r == s[|s| - |r|..]
    ensures r == [] || r[0] != '-'
    ensures s != [] && s[0] == '-' ==> |r| < |s|
    ensures forall i :: 0 <= i < |s| - |r| ==> s[i] == '-'
  {
    if s != [] && s[0] == '-' then
      var r := DropDashes(s[1..]);
      assert s[1..][|s| - 1 - |r|..] == s[|s| - |r|..];
      assert forall i :: 1 <= i < |s| - |r| ==> s[i] == s[1..][i - 1];
      r
    else s
  }

  /** replace(/-+/g, '-'): every maximal run of '-' becomes one '-'. */
  function CollapseDashes(s: string): (r: string)
    ensures |r| <= |s|
    ensures r == [] <==> s == []
    ensures r != [] ==> (r[0] == '-' <==> s[0] == '-')
    ensures NoDoubleDash(r)
    decreases |s|
  {
    if s == [] then []
    else if s[0] == '-' then
      var rest := CollapseDashes(DropDashes(s));
      assert rest != [] ==> rest[0] != '-';
      "-" + rest
    else
      [s[0]] + CollapseDashes(s[1..])
  }

  /** The characters of s other than '-', in order. */
  function NonDash(s: string): string
  {
    if s == [] then [] else (if s[0] == '-' then [] else [s[0]]) + NonDash(s[1..])
  }

  lemma {:induction false} NonDashOfDashes(s: string)
    ensures NonDash(s) == NonDash(DropDashes(s))
  {
    if s != [] && s[0] == '-' {
      NonDashOfDashes(s[1..]);
    }
  }

  /** Collapsing changes only the dashes: every other character survives, in order. */
  lemma {:induction false} CollapseKeepsNonDash(s: string)
    ensures NonDash(CollapseDashes(s)) == NonDash(s)
    decreases |s|
  {
    if s == [] {
    } else if s[0] == '-' {
      var d := DropDashes(s);
      CollapseKeepsNonDash(d);
      NonDashOfDashes(s);
      assert ("-" + CollapseDashes(d))[1..] == CollapseDashes(d);
    } else {
      CollapseKeepsNonDash(s[1..]);
      assert ([s[0]] + CollapseDashes(s[1..]))[1..] == CollapseDashes(s[1..]);
    }
  }

  /** A leading "--" collapses like its second '-' alone. */
  lemma LeadingDoubleDash(s: string)
    requires |s| > 1 && s[0] == '-' && s[1] == '-'
    ensures CollapseDashes(s) == CollapseDashes(s[1..])
  {
    assert DropDashes(s) == DropDashes(s[1..]);
  }

  /** A leading '-' followed by another character collapses to '-' before the rest collapsed. */
  lemma LeadingSingleDash(s: string)
    requires |s| > 1 && s[0] == '-' && s[1] != '-'
    ensures CollapseDashes(s) == "-" + CollapseDashes(s[1..])
  {
    assert DropDashes(s[1..]) == s[1..];
  }

  /** Deleting one '-' of a "--" anywhere in s does not change what s collapses to: a run of
      dashes counts once whatever its length, so no run is ever dropped, only shortened. */
  lemma {:induction false} CollapseDropsDoubledDash(s: string, i: nat)
    requires i + 1 < |s| && s[i] == '-' && s[i + 1] == '-'
    ensures CollapseDashes(s[..i] + s[i + 1..]) == CollapseDashes(s)
    decreases i
  {
    var t := s[..i] + s[i + 1..];
    if i == 0 {
      assert t == s[1..];
      LeadingDoubleDash(s);
    } else {
      var u := s[1..];
      assert u[i - 1] == '-' && u[i] == '-';
      assert t[1..] == u[..i - 1] + u[i..];
      assert t[0] == s[0] && t[1] == s[1];
      if s[0] != '-' {
        CollapseDropsDoubledDash(u, i - 1);
      } else if s[1] == '-' {
        CollapseDropsLeadingRun(s, i);
      } else {
        LeadingSingleDash(s);
        LeadingSingleDash(t);
        CollapseDropsDoubledDash(u, i - 1);
      }
    }
  }

  /** The case of CollapseDropsDoubledDash where s starts with "--": both strings collapse like
      their tails. */
  lemma {:induction false} CollapseDropsLeadingRun(s: string, i: nat)
    requires 0 < i && i + 1 < |s| && s[i] == '-' && s[i + 1] == '-' && s[0] == '-' && s[1] == '-'
    ensures CollapseDashes(s[..i] + s[i + 1..]) == CollapseDashes(s)
    decreases i, 0
  {
    var t := s[..i] + s[i + 1..];
    var u := s[1..];
    LeadingDoubleDash(s);
    if i == 1 {
      assert t == u;
    } else {
      assert t[1..] == u[..i - 1] + u[i..];
      assert t[0] == '-' && t[1] == '-';
      LeadingDoubleDash(t);
      CollapseDropsDoubledDash(u, i - 1);
    }
  }

  /** Collapsing a string that has no "--" leaves it unchanged (and, by the contract of
      CollapseDashes, only such strings are left unchanged). */
  lemma {:induction false} CollapseFixedPoint(s: string)
    requires NoDoubleDash(s)
    ensures CollapseDashes(s) == s
    decreases |s|
  {
    if s != [] {
      if s[0] == '-' {
        assert |s| > 1 ==> s[1] != '-';
        assert DropDashes(s) == s[1..];
        CollapseFixedPoint(s[1..]);
      } else {
        CollapseFixedPoint(s[1..]);
      }
    }
  }

  lemma {:induction false} CollapseKeepsSlugChars(s: string)
    requires AllSlugChars(s)
    ensures AllSlugChars(CollapseDashes(s))
    decreases |s|
  {
    if s != [] {
      if s[0] == '-' {
        CollapseKeepsSlugChars(DropDashes(s));
      } else {
        CollapseKeepsSlugChars(s[1..]);
      }
    }
  }

  /** The slug of store.ts createApp and of the upload route. */
  function Slugify(name: string): string
  {
    CollapseDashes(DashOutsideAlnum(ToLower(name)))
  }

  /** A slug is made of [a-z0-9-] only, never holds "--", and is empty only for an empty name. */
  lemma SlugShape(name: string)
    ensures AllSlugChars(Slugify(name))
    ensures NoDoubleDash(Slugify(name))
    ensures Slugify(name) == [] <==> name == []
  {
    CollapseKeepsSlugChars(DashOutsideAlnum(ToLower(name)));
  }

  /** A slug has no '/' and no '.', so it can never name a parent or nested directory. */
  lemma SlugHasNoPathSyntax(name: string)
    ensures '/' !in Slugify(name) && '.' !in Slugify(name)
  {
    SlugShape(name);
  }

  /** Slugifying a slug gives it back. */
  lemma SlugIdempotent(name: string)
    ensures Slugify(Slugify(name)) == Slugify(name)
  {
    var s := Slugify(name);
    SlugShape(name);
    assert IsLower(s);
    ToLowerOfLower(s);
    assert DashOutsideAlnum(s) == s;
    CollapseFixedPoint(s);
  }

  /** The letters and digits of the lower-cased name survive into the slug, in order. */
  lemma SlugKeepsAlnum(name: string)
    ensures NonDash(Slugify(name)) == NonDash(DashOutsideAlnum(ToLower(name)))
  {
    CollapseKeepsNonDash(DashOutsideAlnum(ToLower(name)));
  }
}
