/** Slug derivation for section titles: `tag.toLowerCase().replace(/[^a-z0-9]+/g, '-')`.
    Lower-casing is modelled on ASCII only; every maximal run of characters outside
    `[a-z0-9]` becomes a single `-`. */
module Slug {

  /** The character class `[a-z0-9]` of the regular expression. */
  predicate IsAlnum(c: char) {
    ('a' <= c <= 'z') || ('0' <= c <= '9')
  }

  predicate IsSlugChar(c: char) {
    IsAlnum(c) || c == '-'
  }

  /** Every character is in `[a-z0-9]`. */
  predicate AllAlnum(w: string) {
    forall i :: 0 <= i < |w| ==> IsAlnum(w[i])
  }

  /** Every character is in `[a-z0-9-]`. */
  predicate InSlugAlphabet(s: string) {
    forall i :: 0 <= i < |s| ==> IsSlugChar(s[i])
  }

  /** No two adjacent `-`. The neighbour is named `j` with `j == i + 1` rather than written
      `s[i + 1]`, so that the quantifier triggers on `s[i]` and `s[j]` and instantiating it
      never creates a fresh index term to instantiate it again. */
  ghost predicate NoDoubleDash(s: string) {
    forall i, j :: 0 <= i < j < |s| && j == i + 1 ==> !(s[i] == '-' && s[j] == '-')
  }

  /** ASCII `toLowerCase` of one character; every other character is left as it is. */
  function LowerChar(c: char): (r: char)
    ensures ('A' <= c <= 'Z') <==> ('a' <= r <= 'z' && r != c)
    ensures 'A' <= c <= 'Z' ==> r as int - 'a' as int == c as int - 'A' as int
    ensures !('A' <= c <= 'Z') ==> r == c
  {
    if 'A' <= c <= 'Z' then (c as int - 'A' as int + 'a' as int) as char else c
  }

  /** ASCII `toLowerCase` of a whole title, character by character. */
  function Lower(s: string): (r: string)
    ensures |r| == |s|
    ensures forall i :: 0 <= i < |s| ==> r[i] == LowerChar(s[i])
  {
    seq(|s|, i requires 0 <= i < |s| => LowerChar(s[i]))
  }

  /** Drops the maximal prefix of characters outside `[a-z0-9]`. */
  function DropRun(s: string): (r: string)
    ensures |r| <= |s|
    ensures r == [] || IsAlnum(r[0])
  {
    if s == [] || IsAlnum(s[0]) then s else DropRun(s[1..])
  }

  /** The global replace of `/[^a-z0-9]+/` by `-`: scanning from the left, each maximal run
      outside `[a-z0-9]` is replaced by one `-`, every other character is kept. */
  function Collapse(s: string): (r: string)
    ensures |r| <= |s|
    ensures r == [] <==> s == []
    decreases |s|
  {
    if s == [] then []
    else if IsAlnum(s[0]) then [s[0]] + Collapse(s[1..])
    else ['-'] + Collapse(DropRun(s[1..]))
  }

  /** The replace only produces `[a-z0-9-]`, and never two adjacent `-`. */
  lemma {:induction false} CollapseShape(s: string)
    ensures InSlugAlphabet(Collapse(s)) && NoDoubleDash(Collapse(s))
    decreases |s|
  {
    if s != [] {
      var t := if IsAlnum(s[0]) then s[1..] else DropRun(s[1..]);
      CollapseShape(t);
      var r, rt := Collapse(s), Collapse(t);
      assert r == [r[0]] + rt;
      assert rt != [] && rt[0] == '-' ==> IsAlnum(s[0]);
      forall i, j | 0 <= i < j < |r| && j == i + 1 ensures !(r[i] == '-' && r[j] == '-') {
        if i > 0 {
          assert r[i] == rt[i - 1] && r[j] == rt[j - 1];
        }
      }
    }
  }

  /** `getSectionSlug`: lower-case, then collapse. */
  function GetSectionSlug(tag: string): (r: string)
    ensures InSlugAlphabet(r) && NoDoubleDash(r)
    ensures |r| <= |tag|
  {
    CollapseShape(Lower(tag));
    Collapse(Lower(tag))
  }

  /** One step of the replace at a character of `[a-z0-9]`. */
  lemma CollapseAlnumHead(c: char, t: string)
    requires IsAlnum(c)
    ensures Collapse([c] + t) == [c] + Collapse(t)
  {
    assert ([c] + t)[1..] == t;
  }

  /** One step of the replace at a separator that is directly followed by a word. */
  lemma CollapseSeparatorHead(c: char, t: string)
    requires !IsAlnum(c) && (t == [] || IsAlnum(t[0]))
    ensures Collapse([c] + t) == ['-'] + Collapse(t)
  {
    assert ([c] + t)[1..] == t;
  }

  /** A word of `[a-z0-9]` characters passes through the replace unchanged. */
  lemma {:induction false} CollapseWord(w: string, rest: string)
    requires AllAlnum(w)
    ensures Collapse(w + rest) == w + Collapse(rest)
    decreases |w|
  {
    if w == [] {
      assert w + rest == rest;
    } else {
      var t := w[1..];
      calc {
        Collapse(w + rest);
        { assert w + rest == [w[0]] + (t + rest); }
        Collapse([w[0]] + (t + rest));
        { CollapseAlnumHead(w[0], t + rest); }
        [w[0]] + Collapse(t + rest);
        { CollapseWord(t, rest); }
        [w[0]] + (t + Collapse(rest));
        { assert w == [w[0]] + t; }
        w + Collapse(rest);
      }
    }
  }

  // ---------------------------------------------------------------------------
  // A reference definition: replace each character outside `[a-z0-9]` by `-`,
  // then squeeze every run of `-` to one.

  function DashOut(s: string): (r: string)
    ensures |r| == |s| && InSlugAlphabet(r)
    ensures forall i :: 0 <= i < |s| ==> (r[i] == '-' <==> !IsAlnum(s[i]))
  {
    seq(|s|, i requires 0 <= i < |s| => if IsAlnum(s[i]) then s[i] else '-')
  }

  function Squeeze(s: string): (r: string)
    ensures |r| <= |s|
  {
    if |s| <= 1 then s
    else if s[0] == '-' && s[1] == '-' then Squeeze(s[1..])
    else [s[0]] + Squeeze(s[1..])
  }

  lemma {:induction false} SqueezeAfterDash(t: string)
    ensures Squeeze(['-'] + DashOut(t)) == ['-'] + Squeeze(DashOut(DropRun(t)))
    decreases |t|
  {
    var d := ['-'] + DashOut(t);
    if t == [] {
      assert d == ['-'];
    } else if IsAlnum(t[0]) {
      assert d[1..] == DashOut(t);
    } else {
      assert d[1..] == DashOut(t);
      assert DashOut(t) == ['-'] + DashOut(t[1..]);
      SqueezeAfterDash(t[1..]);
    }
  }

  /** The replace agrees with the reference definition on every input. */
  lemma {:induction false} CollapseIsSqueezedDashOut(s: string)
    ensures Collapse(s) == Squeeze(DashOut(s))
    decreases |s|
  {
    if s == [] {
    } else if IsAlnum(s[0]) {
      var d := DashOut(s);
      assert d == [s[0]] + DashOut(s[1..]);
      CollapseIsSqueezedDashOut(s[1..]);
      if |s| > 1 {
        assert d[1] != '-' || d[0] != '-';
      }
    } else {
      assert DashOut(s) == ['-'] + DashOut(s[1..]);
      SqueezeAfterDash(s[1..]);
      CollapseIsSqueezedDashOut(DropRun(s[1..]));
    }
  }

  // ---------------------------------------------------------------------------
  // Fixed points and idempotence.

  lemma {:induction false} CollapseFixesSlugs(s: string)
    requires InSlugAlphabet(s) && NoDoubleDash(s)
    ensures Collapse(s) == s
    decreases |s|
  {
    if s != [] {
      var t := s[1..];
      assert InSlugAlphabet(t) by {
        forall i | 0 <= i < |t| ensures IsSlugChar(t[i]) { assert t[i] == s[i + 1]; }
      }
      assert NoDoubleDash(t) by {
        forall i, j | 0 <= i < j < |t| && j == i + 1 ensures !(t[i] == '-' && t[j] == '-') {
          assert t[i] == s[i + 1] && t[j] == s[j + 1];
        }
      }
      CollapseFixesSlugs(t);
      if !IsAlnum(s[0]) {
        assert s[0] == '-';
        assert t != [] ==> t[0] == s[1] && IsAlnum(t[0]);
        assert DropRun(t) == t;
      }
      assert s == [s[0]] + t;
    }
  }

  /** The strings the replace leaves unchanged are exactly the slug-shaped ones. */
  lemma {:induction false} CollapseFixedPoints(s: string)
    ensures Collapse(s) == s <==> InSlugAlphabet(s) && NoDoubleDash(s)
  {
    CollapseShape(s);
    if InSlugAlphabet(s) && NoDoubleDash(s) {
      CollapseFixesSlugs(s);
    }
  }

  lemma LowerFixesSlugs(s: string)
    requires InSlugAlphabet(s)
    ensures Lower(s) == s
  {
  }

  /** Lower-casing leaves no ASCII capital behind, so lower-casing twice is lower-casing once. */
  lemma LowerIdempotent(s: string)
    ensures forall i :: 0 <= i < |s| ==> !('A' <= Lower(s)[i] <= 'Z')
    ensures Lower(Lower(s)) == Lower(s)
  {
  }

  /** Slugging a slug changes nothing. */
  lemma SlugIdempotent(tag: string)
    ensures GetSectionSlug(GetSectionSlug(tag)) == GetSectionSlug(tag)
  {
    var r := GetSectionSlug(tag);
    LowerFixesSlugs(r);
    CollapseFixedPoints(r);
  }

  // ---------------------------------------------------------------------------
  // The `[a-z0-9]` characters survive, in order.

  function AlnumsOf(s: string): (r: string)
    ensures |r| <= |s|
  {
    if s == [] then []
    else if IsAlnum(s[0]) then [s[0]] + AlnumsOf(s[1..])
    else AlnumsOf(s[1..])
  }

  lemma {:induction false} AlnumsOfDropRun(s: string)
    ensures AlnumsOf(DropRun(s)) == AlnumsOf(s)
    decreases |s|
  {
    if s != [] && !IsAlnum(s[0]) {
      AlnumsOfDropRun(s[1..]);
    }
  }

  lemma {:induction false} CollapseKeepsAlnums(s: string)
    ensures AlnumsOf(Collapse(s)) == AlnumsOf(s)
    decreases |s|
  {
    if s == [] {
    } else if IsAlnum(s[0]) {
      CollapseKeepsAlnums(s[1..]);
      assert ([s[0]] + Collapse(s[1..]))[1..] == Collapse(s[1..]);
    } else {
      CollapseKeepsAlnums(DropRun(s[1..]));
      AlnumsOfDropRun(s[1..]);
      assert (['-'] + Collapse(DropRun(s[1..])))[1..] == Collapse(DropRun(s[1..]));
    }
  }

  /** The slug holds the lower-cased tag's letters and digits, in their order. */
  lemma SlugKeepsAlnums(tag: string)
    ensures AlnumsOf(GetSectionSlug(tag)) == AlnumsOf(Lower(tag))
  {
    CollapseKeepsAlnums(Lower(tag));
  }

  // ---------------------------------------------------------------------------
  // Titles made of words separated by single characters.

  predicate IsWord(w: string) {
    w != [] && AllAlnum(w)
  }

  lemma {:induction false} CollapseWholeWord(w: string)
    requires IsWord(w)
    ensures Collapse(w) == w
  {
    CollapseWord(w, []);
    assert w + [] == w;
  }

  lemma AppendAssoc(a: string, b: string, c: string)
    ensures a + b + c == a + (b + c)
  {
  }

  /** A word, one separator and the rest, once the rest is known to slug to `r`. */
  lemma CollapseWordSeparatorRest(a: string, c: char, b: string, r: string)
    requires IsWord(a) && !IsAlnum(c) && b != [] && IsAlnum(b[0]) && Collapse(b) == r
    ensures Collapse(a + [c] + b) == a + ['-'] + r
  {
    AppendAssoc(a, [c], b);
    CollapseWord(a, [c] + b);
    CollapseSeparatorHead(c, b);
    AppendAssoc(a, ['-'], r);
  }

  /** Two words joined by one separator slug to the words joined by `-`. */
  lemma CollapseTwoWords(a: string, c: char, b: string)
    requires IsWord(a) && IsWord(b) && !IsAlnum(c)
    ensures Collapse(a + [c] + b) == a + ['-'] + b
  {
    CollapseWholeWord(b);
    CollapseWordSeparatorRest(a, c, b, b);
  }

  /** Three words joined by single separators slug to the words joined by `-`. */
  lemma CollapseThreeWords(a: string, c1: char, b: string, c2: char, d: string)
    requires IsWord(a) && IsWord(b) && IsWord(d) && !IsAlnum(c1) && !IsAlnum(c2)
    ensures Collapse(a + [c1] + b + [c2] + d) == a + ['-'] + b + ['-'] + d
  {
    var bd := b + [c2] + d;
    CollapseTwoWords(b, c2, d);
    assert bd[0] == b[0];
    CollapseWordSeparatorRest(a, c1, bd, b + ['-'] + d);
    AppendAssoc(a + [c1], b + [c2], d);
    AppendAssoc(a + [c1], b, [c2]);
    AppendAssoc(a, [c1], b);
    assert a + [c1] + b + [c2] + d == a + [c1] + bd;
    assert a + ['-'] + (b + ['-'] + d) == a + ['-'] + b + ['-'] + d;
  }
}
