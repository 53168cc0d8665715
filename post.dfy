/**
 * The rules of a blog post: how its slug and excerpt are derived before
 * validation, what makes it valid, and the `published` / `drafts` scopes.
 */
module PostModel {
  import opened Common
  import opened Schema

  // ---------------------------------------------------------------------
  // parameterize
  // ---------------------------------------------------------------------

  /** A character `parameterize` keeps: an ASCII letter or digit, or `_`. */
  predicate IsWordChar(c: char)
  {
    ('a' <= c <= 'z') || ('A' <= c <= 'Z') || ('0' <= c <= '9') || c == '_'
  }

  function Downcase(c: char): (d: char)
    ensures IsWordChar(c) ==> IsWordChar(d) && !('A' <= d <= 'Z')
  {
    if 'A' <= c <= 'Z' then (c as int - 'A' as int + 'a' as int) as char else c
  }

  /** A character that may appear in a parameterized token. */
  predicate IsTokenChar(c: char)
  {
    ('a' <= c <= 'z') || ('0' <= c <= '9') || c == '_' || c == '-'
  }

  /** The shape of a parameterized token: lower-case word characters joined by
      single hyphens, with no hyphen at either end. */
  predicate IsToken(s: string)
  {
    (forall i :: 0 <= i < |s| ==> IsTokenChar(s[i])) &&
    (s != [] ==> s[0] != '-' && s[|s| - 1] != '-') &&
    (forall i :: 0 <= i < |s| - 1 && s[i] == '-' ==> s[i + 1] != '-')
  }

  /** One step of `parameterize` over the rest of the title: `pending` records
      that a run of separators was seen since the last kept character. */
  function ParameterizeFrom(s: string, pending: bool, acc: string): (r: string)
    ensures IsToken(acc) ==> IsToken(r)
    ensures |acc| <= |r|
    decreases |s|
  {
    if s == [] then acc
    else if IsWordChar(s[0]) then
      var sep := if pending && acc != [] then "-" else "";
      var acc' := acc + sep + [Downcase(s[0])];
      assert IsToken(acc) ==> forall i :: 0 <= i < |acc'| - 1 && acc'[i] == '-' ==> acc'[i + 1] != '-' by {
        forall i | IsToken(acc) && 0 <= i < |acc'| - 1 && acc'[i] == '-' ensures acc'[i + 1] != '-' {
          if i < |acc| - 1 {
            assert acc'[i] == acc[i] && acc'[i + 1] == acc[i + 1];
          }
        }
      }
      ParameterizeFrom(s[1..], false, acc')
    else
      ParameterizeFrom(s[1..], true, acc)
  }

  /** `String#parameterize` on ASCII text: letters are lower-cased, digits and
      `_` are kept, every run of other characters becomes one `-`, and no `-`
      is left at either end. */
  function Parameterize(title: string): (r: string)
    ensures IsToken(r)
  {
    ParameterizeFrom(title, false, "")
  }

  /** Every character lower-cased, as `parameterize` does to the kept ones. */
  function DowncaseAll(w: string): (r: string)
    ensures |r| == |w|
  {
    if w == [] then [] else [Downcase(w[0])] + DowncaseAll(w[1..])
  }

  predicate IsWord(w: string)
  {
    w != [] && forall i :: 0 <= i < |w| ==> IsWordChar(w[i])
  }

  /** A run of word characters is appended lower-cased, after a single hyphen
      when separators preceded it and something was already kept. */
  lemma {:induction false} ParameterizeWordRun(w: string, rest: string, pending: bool, acc: string)
    requires IsWord(w)
    ensures ParameterizeFrom(w + rest, pending, acc) ==
      ParameterizeFrom(rest, false, acc + (if pending && acc != [] then "-" else "") + DowncaseAll(w))
    decreases |w|
  {
    var acc' := acc + (if pending && acc != [] then "-" else "") + [Downcase(w[0])];
    assert (w + rest)[0] == w[0] && (w + rest)[1..] == w[1..] + rest;
    assert ParameterizeFrom(w + rest, pending, acc) == ParameterizeFrom(w[1..] + rest, false, acc');
    assert DowncaseAll(w) == [Downcase(w[0])] + DowncaseAll(w[1..]);
    if |w| > 1 {
      ParameterizeWordRun(w[1..], rest, false, acc');
      assert acc' + "" == acc';
      assert acc' + DowncaseAll(w[1..]) ==
        acc + (if pending && acc != [] then "-" else "") + DowncaseAll(w);
    } else {
      assert w[1..] + rest == rest;
      assert DowncaseAll(w[1..]) == [];
      assert acc + (if pending && acc != [] then "-" else "") + DowncaseAll(w) == acc';
    }
  }

  /** Two words separated by a space become the lower-cased words joined by a
      single hyphen. */
  lemma {:induction false} ParameterizeTwoWords(w1: string, w2: string)
    requires IsWord(w1) && IsWord(w2)
    ensures Parameterize(w1 + " " + w2) == DowncaseAll(w1) + "-" + DowncaseAll(w2)
  {
    assert w1 + " " + w2 == w1 + (" " + w2);
    ParameterizeWordRun(w1, " " + w2, false, "");
    assert "" + "" + DowncaseAll(w1) == DowncaseAll(w1);
    assert (" " + w2)[0] == ' ' && (" " + w2)[1..] == w2;
    assert ParameterizeFrom(" " + w2, false, DowncaseAll(w1)) == ParameterizeFrom(w2, true, DowncaseAll(w1));
    assert w2 + "" == w2;
    ParameterizeWordRun(w2, "", true, DowncaseAll(w1));
  }

  /** The worked example of the post specs: "Hello World" becomes "hello-world". */
  lemma ParameterizeHelloWorld(title: string)
    requires title == "Hello World"
    ensures Parameterize(title) == "hello-world"
  {
    var w1, w2 := "Hello", "World";
    assert DowncaseAll(w1) == "hello";
    assert DowncaseAll(w2) == "world";
    assert w1 + " " + w2 == title;
    ParameterizeTwoWords(w1, w2);
  }

  /** A title with no ASCII word character, such as one written entirely in
      Hangul, parameterizes to the empty token. */
  lemma {:induction false} ParameterizeWithoutWordChars(s: string, pending: bool)
    requires forall i :: 0 <= i < |s| ==> !IsWordChar(s[i])
    ensures ParameterizeFrom(s, pending, "") == ""
    decreases |s|
  {
    if s != [] {
      ParameterizeWithoutWordChars(s[1..], true);
    }
  }

  // ---------------------------------------------------------------------
  // The slug candidates base, base-1, base-2, ...
  // ---------------------------------------------------------------------

  function DigitChar(d: nat): char
    requires d < 10
  {
    ('0' as int + d) as char
  }

  /** Ruby's decimal rendering of a counter (`"#{counter}"`). */
  function Decimal(n: nat): (s: string)
    ensures |s| >= 1
    ensures n >= 10 ==> |s| >= 2
  {
    if n < 10 then [DigitChar(n)] else Decimal(n / 10) + [DigitChar(n % 10)]
  }

  /** Different counters render as different strings. */
  lemma {:induction false} DecimalInjective(a: nat, b: nat)
    requires Decimal(a) == Decimal(b)
    ensures a == b
  {
    if a >= 10 && b >= 10 {
      var sa, sb := Decimal(a), Decimal(b);
      assert sa[|sa| - 1] == sb[|sb| - 1];
      assert a % 10 == b % 10;
      assert sa[..|sa| - 1] == Decimal(a / 10);
      assert sb[..|sb| - 1] == Decimal(b / 10);
      DecimalInjective(a / 10, b / 10);
    }
  }

  /** The k-th candidate the slug loop tries: the base itself, then
      `base-1`, `base-2`, and so on. */
  function Candidate(base: string, k: nat): (c: string)
    ensures |c| >= |base| && c[..|base|] == base
    ensures k == 0 <==> c == base
    ensures k > 0 ==> c[|base|] == '-' && c[|base| + 1..] == Decimal(k)
  {
    if k == 0 then base else base + "-" + Decimal(k)
  }

  /** Distinct probe counts give distinct candidates, so the probe loop never
      retries a candidate it has already found taken. */
  lemma CandidateInjective(base: string, j: nat, k: nat)
    requires Candidate(base, j) == Candidate(base, k)
    ensures j == k
  {
    if j != 0 && k != 0 {
      var cj, ck := Candidate(base, j), Candidate(base, k);
      assert cj[|base| + 1..] == Decimal(j);
      assert ck[|base| + 1..] == Decimal(k);
      DecimalInjective(j, k);
    }
  }

  /** `slug` is the first candidate for `base` that is not in `taken`. */
  ghost predicate IsFirstFree(slug: string, base: string, taken: set<string>)
  {
    slug !in taken &&
    exists k: nat :: slug == Candidate(base, k) &&
      forall j :: 0 <= j < k ==> Candidate(base, j) in taken
  }

  /** The first free candidate is unique: the probe order determines the slug. */
  lemma FirstFreeIsUnique(s1: string, s2: string, base: string, taken: set<string>)
    requires IsFirstFree(s1, base, taken) && IsFirstFree(s2, base, taken)
    ensures s1 == s2
  {
    var k1: nat :| s1 == Candidate(base, k1) && forall j :: 0 <= j < k1 ==> Candidate(base, j) in taken;
    var k2: nat :| s2 == Candidate(base, k2) && forall j :: 0 <= j < k2 ==> Candidate(base, j) in taken;
  }

  /** A second post whose slug base is already in use, and nothing else,
      gets the base with "-1" appended. */
  lemma SecondPostGetsSuffixOne(slug: string, base: string)
    requires IsFirstFree(slug, base, {base})
    ensures slug == base + "-1"
  {
    var k: nat :| slug == Candidate(base, k) && forall j :: 0 <= j < k ==> Candidate(base, j) in {base};
    assert Decimal(1) == "1";
    assert Candidate(base, 1) != base by {
      assert |Candidate(base, 1)| == |base| + 2;
    }
  }

  // ---------------------------------------------------------------------
  // generate_slug
  // ---------------------------------------------------------------------

  predicate IsHexDigit(c: char)
  {
    ('0' <= c <= '9') || ('a' <= c <= 'f')
  }

  /** The shape of `SecureRandom.hex(4)`: eight lower-case hex digits. */
  predicate IsHexToken(s: string)
  {
    |s| == 8 && forall i :: 0 <= i < |s| ==> IsHexDigit(s[i])
  }

  /** The base of the slug: the parameterized title, or, when that is blank,
      a random eight-digit hex token (the randomness is a nondeterministic
      choice here). */
  method BaseSlug(title: Option<string>) returns (base: string)
    ensures base != []
    ensures Parameterize(TitleText(title)) != [] ==> base == Parameterize(TitleText(title))
    ensures Parameterize(TitleText(title)) == [] ==> IsHexToken(base)
  {
    base := Parameterize(TitleText(title));
    if base == [] {
      assert IsHexToken("00000000");
      base :| IsHexToken(base);
      assert IsHexToken(base);
    }
  }

  /** `title.to_s`: nil becomes the empty string. */
  function TitleText(title: Option<string>): string
  {
    if title.Some? then title.value else ""
  }

  /** The probe loop of `generate_slug`: try `base`, then `base-1`, `base-2`, ...
      until a candidate is not taken. It stops after at most |taken| + 1 probes. */
  method ProbeSlug(base: string, taken: set<string>) returns (slug: string, ghost k: nat)
    ensures slug == Candidate(base, k) && slug !in taken
    ensures forall j :: 0 <= j < k ==> Candidate(base, j) in taken
    ensures k <= |taken|
  {
    slug := base;
    var counter := 1;
    while slug in taken
      invariant 1 <= counter <= |taken| + 1
      invariant slug == Candidate(base, counter - 1)
      invariant forall j :: 0 <= j < counter - 1 ==> Candidate(base, j) in taken
      decreases |taken| + 1 - counter
    {
      ProbesFit(base, taken, counter);
      slug := base + "-" + Decimal(counter);
      counter := counter + 1;
    }
    k := counter - 1;
  }

  /** Every probe that found its candidate taken used up a different slug
      of `taken`, so there are at most |taken| of them. */
  lemma {:induction false} ProbesFit(base: string, taken: set<string>, n: nat)
    requires forall j :: 0 <= j < n ==> Candidate(base, j) in taken
    ensures n <= |taken|
    decreases n
  {
    if n > 0 {
      var last := Candidate(base, n - 1);
      forall j | 0 <= j < n - 1
        ensures Candidate(base, j) in taken - {last}
      {
        if Candidate(base, j) == last {
          CandidateInjective(base, j, n - 1);
        }
      }
      ProbesFit(base, taken - {last}, n - 1);
    }
  }

  /** `generate_slug`: the first free candidate for the slug base. */
  method GenerateSlug(title: Option<string>, taken: set<string>) returns (slug: string)
    ensures Present(Some(slug)) && slug !in taken
    ensures Parameterize(TitleText(title)) != [] ==>
      IsFirstFree(slug, Parameterize(TitleText(title)), taken)
    ensures Parameterize(TitleText(title)) == [] ==>
      exists base :: IsHexToken(base) && IsFirstFree(slug, base, taken)
  {
    var base := BaseSlug(title);
    ghost var k;
    slug, k := ProbeSlug(base, taken);
    assert slug[0] == base[0];
    assert !IsSpace(slug[0]);
  }

  // ---------------------------------------------------------------------
  // generate_excerpt: truncate(200, separator: ' ')
  // ---------------------------------------------------------------------

  const ExcerptLimit: nat := 200
  const Omission: string := "..."
  /** The last index at which the cut may fall: the limit less the omission. */
  const CutLimit: nat := ExcerptLimit - |Omission|

  /** `String#rindex(" ", from)`: the last space at an index no greater than `from`. */
  function LastSpaceAtOrBefore(s: string, from: nat): (r: Option<nat>)
    requires from < |s|
    ensures r.Some? ==> (r.value <= from && s[r.value] == ' ' &&
      forall j :: r.value < j <= from ==> s[j] != ' ')
    ensures r.None? ==> forall j :: 0 <= j <= from ==> s[j] != ' '
  {
    if s[from] == ' ' then Some(from)
    else if from == 0 then None
    else LastSpaceAtOrBefore(s, from - 1)
  }

  /** `truncate(200, separator: ' ')`: text of at most 200 characters is kept,
      longer text is cut at its last space at or before index 197 (or at 197
      when there is none) and "..." is appended. */
  function Truncate(s: string): (r: string)
    ensures |r| <= ExcerptLimit
    ensures |s| <= ExcerptLimit ==> r == s
    ensures |s| > ExcerptLimit ==> exists stop: nat :: IsCut(s, stop) && r == s[..stop] + Omission
  {
    if |s| <= ExcerptLimit then s
    else
      var stop := match LastSpaceAtOrBefore(s, CutLimit)
        case Some(i) => i
        case None => CutLimit;
      s[..stop] + Omission
  }

  /** Where a long text may be cut: at its last space within the first 198
      characters, or at 197 if those hold no space. */
  ghost predicate IsCut(s: string, stop: nat)
    requires |s| > ExcerptLimit
  {
    stop <= CutLimit &&
    if exists j :: 0 <= j <= CutLimit && s[j] == ' ' then
      s[stop] == ' ' && forall j :: stop < j <= CutLimit ==> s[j] != ' '
    else
      stop == CutLimit
  }

  /** A generated excerpt never breaks a word: what precedes the omission is
      a prefix of the text that ends just before a space or at 197 characters. */
  lemma ExcerptIsWordPrefix(s: string)
    requires |s| > ExcerptLimit
    ensures var r := Truncate(s);
      |r| >= |Omission| && r[|r| - |Omission|..] == Omission &&
      r[..|r| - |Omission|] <= s &&
      (|r| - |Omission| == CutLimit || s[|r| - |Omission|] == ' ')
  {
    var r := Truncate(s);
    var stop: nat :| IsCut(s, stop) && r == s[..stop] + Omission;
    assert r[..|r| - |Omission|] == s[..stop];
  }

  // ---------------------------------------------------------------------
  // Callbacks and validations
  // ---------------------------------------------------------------------

  /** The two `before_validation` callbacks: a slug is generated only when the
      slug is blank, an excerpt only when the excerpt is blank and the content
      is present; nothing else changes. `taken` is the set of slugs in use. */
  method BeforeValidation(post: PostRow, taken: set<string>) returns (p: PostRow)
    ensures p == post.(slug := p.slug, excerpt := p.excerpt)
    ensures Present(post.slug) ==> p.slug == post.slug
    ensures Blank(post.slug) ==> (p.slug.Some? && p.slug.value !in taken && Present(p.slug) &&
      (Parameterize(TitleText(post.title)) != [] ==>
        IsFirstFree(p.slug.value, Parameterize(TitleText(post.title)), taken)) &&
      (Parameterize(TitleText(post.title)) == [] ==>
        exists base :: IsHexToken(base) && IsFirstFree(p.slug.value, base, taken)))
    ensures p.excerpt ==
      if Blank(post.excerpt) && Present(post.content) then Some(Truncate(post.content.value))
      else post.excerpt
  {
    p := post;
    if Blank(post.slug) {
      var slug := GenerateSlug(post.title, taken);
      p := p.(slug := Some(slug));
    }
    if Blank(post.excerpt) && Present(post.content) {
      p := p.(excerpt := Some(Truncate(post.content.value)));
    }
  }

  /** The validation errors of a post: title and content present, slug present
      and not used by another post (`others` are the other posts' slugs). */
  datatype PostError = TitleBlank | ContentBlank | SlugBlank | SlugTaken

  function Errors(p: PostRow, others: set<string>): (errs: set<PostError>)
    ensures errs == {} <==>
      Present(p.title) && Present(p.content) && Present(p.slug) && p.slug.value !in others
  {
    (if Blank(p.title) then {TitleBlank} else {}) +
    (if Blank(p.content) then {ContentBlank} else {}) +
    (if Blank(p.slug) then {SlugBlank} else {}) +
    (if p.slug.Some? && p.slug.value in others then {SlugTaken} else {})
  }

  /** The slugs of the posts other than `self`. */
  function OtherSlugs(posts: map<PostId, PostRow>, self: Option<PostId>): set<string>
  {
    set q | q in posts && Some(q) != self && posts[q].slug.Some? :: posts[q].slug.value
  }

  // ---------------------------------------------------------------------
  // Scopes
  // ---------------------------------------------------------------------

  /** `Post.published`. */
  function Published(posts: map<PostId, PostRow>): (ids: set<PostId>)
    ensures ids <= posts.Keys
  {
    set id | id in posts && posts[id].published
  }

  /** `Post.drafts`. */
  function Drafts(posts: map<PostId, PostRow>): (ids: set<PostId>)
    ensures ids <= posts.Keys
  {
    set id | id in posts && !posts[id].published
  }

  /** Every post is in exactly one of the two scopes. */
  lemma ScopesPartition(posts: map<PostId, PostRow>)
    ensures Published(posts) + Drafts(posts) == posts.Keys
    ensures Published(posts) * Drafts(posts) == {}
    ensures forall id :: id in Published(posts) <==> id in posts && posts[id].published
    ensures forall id :: id in Drafts(posts) <==> id in posts && !posts[id].published
  {
  }
}
