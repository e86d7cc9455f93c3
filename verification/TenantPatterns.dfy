/** The two tenant-id patterns, read as written, against the predicates the models use. */
module TenantPatterns {
  import opened Common
  import opened AnalyticsStore
  import Outbox

  /** `[a-z0-9]` */
  predicate Alphanumeric(c: char) {
    'a' <= c <= 'z' || '0' <= c <= '9'
  }

  /** `[a-z0-9-]` */
  predicate Inner(c: char) {
    Alphanumeric(c) || c == '-'
  }

  /** `[a-z0-9][a-z0-9-]{least,30}[a-z0-9]` */
  ghost predicate Framed(s: string, least: nat) {
    exists first, middle: string, last :: s == [first] + middle + [last] && Alphanumeric(first) && Alphanumeric(last)
                                          && least <= |middle| <= 30 && forall c :: c in middle ==> Inner(c)
  }

  /** `[a-z0-9]([a-z0-9-]{0,30}[a-z0-9])?` */
  ghost predicate Slug(s: string) {
    (|s| == 1 && Alphanumeric(s[0])) || Framed(s, 0)
  }

  lemma FramedIs(s: string, least: nat)
    ensures Framed(s, least) <==>
              least + 2 <= |s| <= 32 && (forall c :: c in s ==> SlugChar(c)) && s[0] != '-' && s[|s| - 1] != '-'
  {
    if least + 2 <= |s| <= 32 && (forall c :: c in s ==> SlugChar(c)) && s[0] != '-' && s[|s| - 1] != '-' {
      SlugIsFramed(s, least);
    }
    if first, middle: string, last :| s == [first] + middle + [last] && Alphanumeric(first) && Alphanumeric(last)
                                      && least <= |middle| <= 30 && forall c :: c in middle ==> Inner(c) {
      FramedIsSlug(first, middle, last);
    }
  }

  lemma SlugIsFramed(s: string, least: nat)
    requires least + 2 <= |s| <= 32 && (forall c :: c in s ==> SlugChar(c)) && s[0] != '-' && s[|s| - 1] != '-'
    ensures Framed(s, least)
  {
    var first, middle, last := s[0], s[1..|s| - 1], s[|s| - 1];
    assert s == [first] + middle + [last];
    assert first in s && last in s;
    assert Alphanumeric(first) && Alphanumeric(last);
    hide Alphanumeric;
    forall c | c in middle ensures Inner(c) {
      assert c in s;
      SlugCharIsInner(c);
    }
    hide Inner, SlugChar;
  }

  lemma SlugCharIsInner(c: char)
    ensures SlugChar(c) <==> Inner(c)
  {}

  lemma FramedIsSlug(first: char, middle: string, last: char)
    requires Alphanumeric(first) && Alphanumeric(last) && forall c :: c in middle ==> Inner(c)
    ensures var s := [first] + middle + [last];
            (forall c :: c in s ==> SlugChar(c)) && s[0] != '-' && s[|s| - 1] != '-' && |s| == |middle| + 2
  {
    var s := [first] + middle + [last];
    forall i | 0 <= i < |s| ensures SlugChar(s[i]) {
      if 0 < i < |s| - 1 { assert s[i] == middle[i - 1] && middle[i - 1] in middle; }
    }
  }

  /** The drainer's pattern, matched against the whole string. */
  lemma TenantSlugIsThePattern(t: string)
    ensures Outbox.TenantSlug(t) <==> Framed(t, 1)
  {
    FramedIs(t, 1);
  }

  lemma SlugIs(s: string)
    ensures Slug(s) <==>
              1 <= |s| <= 32 && (forall c :: c in s ==> SlugChar(c)) && s[0] != '-' && s[|s| - 1] != '-'
  {
    FramedIs(s, 0);
    if |s| == 1 { assert s[0] in s && forall c :: c in s ==> c == s[0]; }
    hide Framed;
  }

  lemma BodyIs(t: string)
    ensures SlugBody(t) == t || t == SlugBody(t) + "\n"
    ensures forall s: string :: t == s + "\n" ==> s == SlugBody(t)
    ensures SlugBody(t) == t <==> !(t != "" && t[|t| - 1] == '\n')
  {
    if t != "" && t[|t| - 1] == '\n' { assert t == t[..|t| - 1] + "\n"; }
    forall s: string | t == s + "\n" ensures s == SlugBody(t) {
      assert t[|s|] == '\n' && t[..|s|] == s;
    }
  }

  /** A slug does not end in a newline. */
  lemma SlugEnds(s: string)
    requires Slug(s)
    ensures SlugBody(s) == s
  {
    SlugIs(s);
    hide Slug;
    assert s[|s| - 1] in s;
  }

  /** The store's check: at most 32 characters, and a slug up to the end of the text or to a newline that ends it. */
  lemma ValidTenantIsThePattern(t: string)
    ensures ValidTenant(t) <==> |t| <= 32 && (Slug(t) || exists s :: Slug(s) && t == s + "\n")
  {
    BodyIs(t);
    SlugIs(SlugBody(t));
    BodyIsNoLonger(t);
    hide Slug, SlugBody, SlugChar;
    if Slug(t) { SlugEnds(t); }
  }

  lemma BodyIsNoLonger(t: string)
    ensures |SlugBody(t)| <= |t|
  {}
}
