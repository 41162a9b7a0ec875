/** The page-scrape strategy (ElSitioCristianoScraper): find the newest
    episode on a programme's listing page, read the MP3 address embedded in
    the episode page, and stream that file to disk. The fixed regular
    expressions of the source are written as hand-rolled matchers, each
    proved equal to a definition that follows the expression's structure. */
module ElSitioCristiano {
  import opened Wrappers
  import opened Text

  const SiteRoot := "https://www.elsitiocristiano.com"

  // ---------------------------------------------------------------------
  // The listing page URL

  /** Makes sure the URL is the programme's `/listen/` page. */
  function Canonicalize(url: string): (r: string)
    ensures EndsWith(r, "/listen/") || EndsWith(r, "/listen")
    ensures EndsWith(url, "/listen/") || EndsWith(url, "/listen") ==> r == url
    ensures !(EndsWith(url, "/listen/") || EndsWith(url, "/listen")) ==>
              && |r| >= 8 && EndsWith(r, "/listen/")
              && var stem := r[..|r| - 8];
                 && |stem| <= |url| && stem == url[..|stem|]
                 && (forall k :: |stem| <= k < |url| ==> url[k] == '/')
                 && (stem == [] || stem[|stem| - 1] != '/')
  {
    if !EndsWith(url, "/listen/") && !EndsWith(url, "/listen") then
      var stem := TrimEnd(url, c => c == '/');
      var r := stem + "/listen/";
      assert r[..|r| - 8] == stem;
      r
    else url
  }

  lemma CanonicalizeIdempotent(url: string)
    ensures Canonicalize(Canonicalize(url)) == Canonicalize(url)
  {
  }

  // ---------------------------------------------------------------------
  // The two href patterns, as the regular expressions define them

  /** `lit` occurs in `h` at `i`. */
  ghost predicate LiteralAt(h: string, i: int, lit: string) {
    0 <= i && i + |lit| <= |h| && h[i..i + |lit|] == lit
  }

  /** Where `$` (without MULTILINE) matches: at the end, or just before a
      final newline. */
  ghost predicate EndAnchor(h: string, e: int) {
    e == |h| || (0 <= e == |h| - 1 && h[e] == '\n')
  }

  /** `[^/]+` spans `h[a..b]`. */
  ghost predicate SlugSpan(h: string, a: int, b: int) {
    0 <= a < b <= |h| && forall m :: a <= m < b ==> h[m] != '/'
  }

  /** `\d+` spans `h[a..b]`. */
  ghost predicate DigitSpan(h: string, a: int, b: int) {
    0 <= a < b <= |h| && forall m :: a <= m < b ==> IsDigit(h[m])
  }

  /** `/listen/[^/]+-\d+\.html$` matches from `i`, the slug ending at `j`
      and the digits at `k`. */
  ghost predicate StrictMatchAt(h: string, i: int, j: int, k: int) {
    && LiteralAt(h, i, "/listen/")
    && SlugSpan(h, i + 8, j)
    && LiteralAt(h, j, "-")
    && DigitSpan(h, j + 1, k)
    && LiteralAt(h, k, ".html")
    && EndAnchor(h, k + 5)
  }

  /** `re.compile(r'/listen/[^/]+-\d+\.html$').search(h)` succeeds. */
  ghost predicate StrictSearch(h: string) {
    exists i, j, k :: StrictMatchAt(h, i, j, k)
  }

  /** `/listen/[^/]+\.html$` matches from `i`, the slug ending at `k`. */
  ghost predicate LooseMatchAt(h: string, i: int, k: int) {
    && LiteralAt(h, i, "/listen/")
    && SlugSpan(h, i + 8, k)
    && LiteralAt(h, k, ".html")
    && EndAnchor(h, k + 5)
  }

  /** `re.compile(r'/listen/[^/]+\.html$').search(h)` succeeds. */
  ghost predicate LooseSearch(h: string) {
    exists i, k :: LooseMatchAt(h, i, k)
  }

  /** Every href the strict pattern accepts, the loose one accepts too. */
  lemma StrictImpliesLoose(h: string)
    requires StrictSearch(h)
    ensures LooseSearch(h)
  {
    var i, j, k :| StrictMatchAt(h, i, j, k);
    assert h[j] == h[j..j + 1][0];
    assert forall m :: j < m < k ==> IsDigit(h[m]);
    assert LooseMatchAt(h, i, k);
  }

  // ---------------------------------------------------------------------
  // The hand-rolled matchers

  /** The position `$` anchors `.html` to. */
  function PatternEnd(h: string): (e: nat)
    ensures e <= |h| && EndAnchor(h, e)
  {
    if |h| > 0 && h[|h| - 1] == '\n' then |h| - 1 else |h|
  }

  /** The last '/' in `h[..e]`, or -1. */
  function LastSlash(h: string, e: nat): (p: int)
    requires e <= |h|
    ensures -1 <= p < e
    ensures p >= 0 ==> h[p] == '/'
    ensures forall m :: p < m < e ==> h[m] != '/'
  {
    if e == 0 then -1 else if h[e - 1] == '/' then e - 1 else LastSlash(h, e - 1)
  }

  /** The start of the run of digits that ends at `k`. */
  function DigitRunStart(h: string, k: nat): (d: nat)
    requires k <= |h|
    ensures d <= k
    ensures forall m :: d <= m < k ==> IsDigit(h[m])
    ensures d == 0 || !IsDigit(h[d - 1])
  {
    if k > 0 && IsDigit(h[k - 1]) then DigitRunStart(h, k - 1) else k
  }

  /** `/listen/<slug>` ends at `j`: the last '/' before `j` closes a
      "/listen/" and a non-empty slug follows it. */
  predicate ListenSlugBefore(h: string, j: nat)
    requires j <= |h|
  {
    var p := LastSlash(h, j);
    p >= 7 && h[p - 7..p + 1] == "/listen/" && p + 1 < j
  }

  lemma ListenSlugBeforeIff(h: string, j: nat)
    requires j <= |h|
    ensures ListenSlugBefore(h, j) <==> exists i :: LiteralAt(h, i, "/listen/") && SlugSpan(h, i + 8, j)
  {
    var p := LastSlash(h, j);
    if ListenSlugBefore(h, j) {
      assert LiteralAt(h, p - 7, "/listen/") && SlugSpan(h, p + 1, j);
    }
    if i :| LiteralAt(h, i, "/listen/") && SlugSpan(h, i + 8, j) {
      assert h[i + 7] == h[i..i + 8][7] == '/';
      assert p == i + 7;
    }
  }

  /** Where the "/listen/" before a slug accepted by the matcher starts. */
  lemma ListenSlugWitness(h: string, j: nat) returns (i: int)
    requires j <= |h| && ListenSlugBefore(h, j)
    ensures LiteralAt(h, i, "/listen/") && SlugSpan(h, i + 8, j)
  {
    ListenSlugBeforeIff(h, j);
    i :| LiteralAt(h, i, "/listen/") && SlugSpan(h, i + 8, j);
  }

  /** The strict href matcher. */
  predicate IsStrictHref(h: string) {
    var e := PatternEnd(h);
    && e >= 5 && h[e - 5..e] == ".html"
    && var d := DigitRunStart(h, e - 5);
       && 1 <= d < e - 5 && h[d - 1] == '-'
       && ListenSlugBefore(h, d - 1)
  }

  /** The loose href matcher. */
  predicate IsLooseHref(h: string) {
    var e := PatternEnd(h);
    && e >= 5 && h[e - 5..e] == ".html"
    && ListenSlugBefore(h, e - 5)
  }

  /** `$` can only sit after a ".html" at one place. */
  lemma HtmlEnd(h: string, k: int)
    requires LiteralAt(h, k, ".html") && EndAnchor(h, k + 5)
    ensures PatternEnd(h) == k + 5
  {
    assert h[k + 4] == h[k..k + 5][4] == 'l';
  }

  lemma StrictHrefSound(h: string)
    requires IsStrictHref(h)
    ensures StrictSearch(h)
  {
    var k := PatternEnd(h) - 5;
    var j := DigitRunStart(h, k) - 1;
    assert LiteralAt(h, k, ".html") && EndAnchor(h, k + 5);
    assert DigitSpan(h, j + 1, k);
    assert LiteralAt(h, j, "-") by {
      assert h[j..j + 1] == [h[j]];
    }
    var i := ListenSlugWitness(h, j);
    assert StrictMatchAt(h, i, j, k);
  }

  /** The digits before ".html" start right after the '-'. */
  lemma DigitRunAfterDash(h: string, j: int, k: nat)
    requires 0 <= j < k <= |h| && h[j] == '-' && DigitSpan(h, j + 1, k)
    ensures DigitRunStart(h, k) == j + 1
  {
    var d := DigitRunStart(h, k);
  }

  /** The positions of a strict match. */
  lemma StrictWitness(h: string) returns (i: int, j: int, k: int)
    requires StrictSearch(h)
    ensures StrictMatchAt(h, i, j, k)
  {
    i, j, k :| StrictMatchAt(h, i, j, k);
  }

  /** One way the strict pattern matches, accepted by the matcher. */
  lemma StrictShapeFound(h: string, i: int, j: int, k: int)
    requires StrictMatchAt(h, i, j, k)
    ensures IsStrictHref(h)
  {
    HtmlEnd(h, k);
    assert h[j] == h[j..j + 1][0] == '-';
    DigitRunAfterDash(h, j, k);
    ListenSlugBeforeIff(h, j);
    assert ListenSlugBefore(h, j);
    var e := PatternEnd(h);
    assert e == k + 5 && h[e - 5..e] == ".html";
    assert DigitRunStart(h, e - 5) == j + 1;
  }

  lemma StrictHrefComplete(h: string)
    requires StrictSearch(h)
    ensures IsStrictHref(h)
  {
    var i, j, k := StrictWitness(h);
    StrictShapeFound(h, i, j, k);
  }

  lemma StrictHrefCorrect(h: string)
    ensures IsStrictHref(h) <==> StrictSearch(h)
  {
    if IsStrictHref(h) { StrictHrefSound(h); }
    if StrictSearch(h) { StrictHrefComplete(h); }
  }

  lemma LooseHrefSound(h: string)
    requires IsLooseHref(h)
    ensures LooseSearch(h)
  {
    var e := PatternEnd(h);
    assert LiteralAt(h, e - 5, ".html") && EndAnchor(h, e);
    var i := ListenSlugWitness(h, e - 5);
    assert LooseMatchAt(h, i, e - 5);
  }

  /** The positions of a loose match. */
  lemma LooseWitness(h: string) returns (i: int, k: int)
    requires LooseSearch(h)
    ensures LooseMatchAt(h, i, k)
  {
    i, k :| LooseMatchAt(h, i, k);
  }

  /** One way the loose pattern matches, accepted by the matcher. */
  lemma LooseShapeFound(h: string, i: int, k: int)
    requires LooseMatchAt(h, i, k)
    ensures IsLooseHref(h)
  {
    HtmlEnd(h, k);
    ListenSlugBeforeIff(h, k);
    assert ListenSlugBefore(h, k);
    var e := PatternEnd(h);
    assert e == k + 5 && h[e - 5..e] == ".html";
  }

  lemma LooseHrefComplete(h: string)
    requires LooseSearch(h)
    ensures IsLooseHref(h)
  {
    var i, k := LooseWitness(h);
    LooseShapeFound(h, i, k);
  }

  lemma LooseHrefCorrect(h: string)
    ensures IsLooseHref(h) <==> LooseSearch(h)
  {
    if IsLooseHref(h) { LooseHrefSound(h); }
    if LooseSearch(h) { LooseHrefComplete(h); }
  }

  lemma StrictHrefIsLoose(h: string)
    requires IsStrictHref(h)
    ensures IsLooseHref(h)
  {
    StrictHrefCorrect(h);
    StrictImpliesLoose(h);
    LooseHrefCorrect(h);
  }

  // ---------------------------------------------------------------------
  // Choosing the newest episode

  /** An `<a>` element of the listing page, in document order: its `href`
      attribute, if any, and `get_text(strip=True)`. */
  datatype Anchor = Anchor(href: Option<string>, text: string)

  predicate StrictAnchor(a: Anchor) {
    a.href.Some? && IsStrictHref(a.href.value)
  }

  predicate LooseAnchor(a: Anchor) {
    a.href.Some? && IsLooseHref(a.href.value)
  }

  /** `a` is the first anchor of `anchors` that satisfies `p`. */
  ghost predicate FirstSuch(anchors: seq<Anchor>, a: Anchor, p: Anchor -> bool) {
    exists i :: 0 <= i < |anchors| && anchors[i] == a && p(a) && forall j :: 0 <= j < i ==> !p(anchors[j])
  }

  lemma FirstSuchTail(anchors: seq<Anchor>, a: Anchor, p: Anchor -> bool)
    requires |anchors| > 0 && !p(anchors[0]) && FirstSuch(anchors[1..], a, p)
    ensures FirstSuch(anchors, a, p)
  {
    var i :| 0 <= i < |anchors[1..]| && anchors[1..][i] == a && p(a)
             && forall j :: 0 <= j < i ==> !p(anchors[1..][j]);
    assert anchors[i + 1] == a;
    forall j | 0 <= j < i + 1 ensures !p(anchors[j]) {
      if j > 0 { assert anchors[j] == anchors[1..][j - 1]; }
    }
  }

  /** `soup.find_all('a', href=pattern)`: the anchors that satisfy `p`, in
      document order. */
  function FindAll(anchors: seq<Anchor>, p: Anchor -> bool): (r: seq<Anchor>)
    ensures forall x :: x in r ==> x in anchors && p(x)
    ensures forall i :: 0 <= i < |anchors| && p(anchors[i]) ==> anchors[i] in r
    ensures r != [] ==> FirstSuch(anchors, r[0], p)
  {
    if anchors == [] then []
    else
      var rest := FindAll(anchors[1..], p);
      if p(anchors[0]) then
        var r := [anchors[0]] + rest;
        assert r[0] == anchors[0];
        r
      else
        if rest != [] then FirstSuchTail(anchors, rest[0], p); rest else rest
  }

  /** The episode links: the strict matches, or the loose ones when there is
      no strict match. */
  function EpisodeLinks(anchors: seq<Anchor>): seq<Anchor> {
    var strict := FindAll(anchors, StrictAnchor);
    if strict != [] then strict else FindAll(anchors, LooseAnchor)
  }

  /** `episode_links[0]`, the episode taken to be the newest. */
  function FirstEpisode(anchors: seq<Anchor>): (r: Option<Anchor>)
    ensures r.None? <==> forall i :: 0 <= i < |anchors| ==> !LooseAnchor(anchors[i])
    ensures (exists i :: 0 <= i < |anchors| && StrictAnchor(anchors[i])) ==>
              r.Some? && FirstSuch(anchors, r.value, StrictAnchor)
    ensures (forall i :: 0 <= i < |anchors| ==> !StrictAnchor(anchors[i])) && r.Some? ==>
              FirstSuch(anchors, r.value, LooseAnchor)
  {
    forall a | StrictAnchor(a) ensures LooseAnchor(a) {
      StrictHrefIsLoose(a.href.value);
    }
    var links := EpisodeLinks(anchors);
    if links == [] then None else Some(links[0])
  }

  /** Makes the chosen href absolute. */
  function EpisodeUrl(href: string): (r: string)
    ensures StartsWith(r, "http") && EndsWith(r, href)
    ensures r == href <==> StartsWith(href, "http")
    ensures r == href || r == SiteRoot + href
  {
    if StartsWith(href, "http") then href
    else
      var r := SiteRoot + href;
      assert r[..4] == "http";
      r
  }

  // ---------------------------------------------------------------------
  // Spans of one character class

  /** Where the run of characters satisfying `p` that starts at `a` ends. */
  function SpanEnd(s: string, a: nat, p: char -> bool): (b: nat)
    requires a <= |s|
    decreases |s| - a
    ensures a <= b <= |s|
    ensures forall m :: a <= m < b ==> p(s[m])
    ensures b == |s| || !p(s[b])
  {
    if a < |s| && p(s[a]) then SpanEnd(s, a + 1, p) else a
  }

  /** A run that stops at a character outside the class is the one `SpanEnd`
      finds. */
  lemma SpanEndUnique(s: string, a: nat, b: nat, p: char -> bool)
    requires a <= b <= |s|
    requires forall m :: a <= m < b ==> p(s[m])
    requires b == |s| || !p(s[b])
    ensures SpanEnd(s, a, p) == b
  {
    var e := SpanEnd(s, a, p);
  }

  // ---------------------------------------------------------------------
  // Removing the date from the title

  const Months: seq<string> := ["enero", "febrero", "marzo", "abril", "mayo", "junio",
                                "julio", "agosto", "septiembre", "octubre", "noviembre", "diciembre"]

  /** The lower-case letter a character matches under re.IGNORECASE: ASCII
      letters fold by case; 'İ', 'ı' fold onto 'i', 'ſ' onto 's' and the
      Kelvin sign onto 'k'. */
  function Fold(c: char): char {
    if 'A' <= c <= 'Z' then (c as int + 32) as char
    else if c == '\U{130}' || c == '\U{131}' then 'i'
    else if c == '\U{17F}' then 's'
    else if c == '\U{212A}' then 'k'
    else c
  }

  /** The lower-case word `w` matches at `s[i..]` ignoring case. */
  predicate WordAt(s: string, i: nat, w: string) {
    i + |w| <= |s| && forall m :: 0 <= m < |w| ==> Fold(s[i + m]) == w[m]
  }

  /** The alternation of month names, tried in order from `from`: where the
      first one that matches at `i` ends. */
  function MonthEnd(s: string, i: nat, from: nat): (r: Option<nat>)
    requires from <= 12
    decreases 12 - from
    ensures r.Some? ==> i <= r.value <= |s|
  {
    if from == 12 then None
    else if WordAt(s, i, Months[from]) then Some(i + |Months[from]|)
    else MonthEnd(s, i, from + 1)
  }

  /** What `MonthEnd` finds is a month name that matches. */
  lemma {:induction false} MonthEndSound(s: string, i: nat, from: nat)
    requires from <= 12 && MonthEnd(s, i, from).Some?
    ensures exists mi :: from <= mi < 12 && WordAt(s, i, Months[mi]) && MonthEnd(s, i, from).value == i + |Months[mi]|
    decreases 12 - from
  {
    if !WordAt(s, i, Months[from]) {
      MonthEndSound(s, i, from + 1);
    }
  }

  /** A month name that matches is not missed. */
  lemma {:induction false} MonthEndComplete(s: string, i: nat, from: nat, mi: nat)
    requires from <= mi < 12 && WordAt(s, i, Months[mi])
    ensures MonthEnd(s, i, from).Some?
    decreases 12 - from
  {
    if from < mi && !WordAt(s, i, Months[from]) {
      MonthEndComplete(s, i, from + 1, mi);
    }
  }

  /** No two month names match at the same place: their first three letters
      differ. */
  lemma MonthsExclusive(s: string, i: nat, x: nat, y: nat)
    requires x < 12 && y < 12
    requires WordAt(s, i, Months[x]) && WordAt(s, i, Months[y])
    ensures x == y
  {
    assert Months[x][0] == Fold(s[i]) == Months[y][0];
    assert Months[x][1] == Fold(s[i + 1]) == Months[y][1];
    assert Months[x][2] == Fold(s[i + 2]) == Months[y][2];
  }

  /** The month name `MonthEnd` found. */
  lemma MonthWitness(s: string, i: nat) returns (mj: nat)
    requires MonthEnd(s, i, 0).Some?
    ensures mj < 12 && WordAt(s, i, Months[mj]) && MonthEnd(s, i, 0).value == i + |Months[mj]|
  {
    MonthEndSound(s, i, 0);
    mj :| 0 <= mj < 12 && WordAt(s, i, Months[mj]) && MonthEnd(s, i, 0).value == i + |Months[mj]|;
  }

  lemma MonthEndFinds(s: string, i: nat, mi: nat)
    requires mi < 12 && WordAt(s, i, Months[mi])
    ensures MonthEnd(s, i, 0) == Some(i + |Months[mi]|)
  {
    MonthEndComplete(s, i, 0, mi);
    var mj := MonthWitness(s, i);
    MonthsExclusive(s, i, mi, mj);
  }

  /** `\s+` spans `s[a..b]`. */
  ghost predicate SpaceSpan(s: string, a: int, b: int) {
    0 <= a < b <= |s| && forall m :: a <= m < b ==> IsPySpace(s[m])
  }

  /** `\s+\d{1,2},\s+\d{4}` matches `s[a..d + 4]`, the day at `s[b..c]`
      and the year at `s[d..d + 4]`. */
  ghost predicate DayYearShape(s: string, a: int, b: int, c: int, d: int) {
    && SpaceSpan(s, a, b)
    && DigitSpan(s, b, c) && c <= b + 2
    && c < |s| && s[c] == ','
    && SpaceSpan(s, c + 1, d)
    && DigitSpan(s, d, d + 4)
  }

  /** `(enero|...|diciembre)\s+\d{1,2},\s+\d{4}` matches `s[i..d + 4]`
      with month `mi`. */
  ghost predicate DateShape(s: string, i: nat, mi: int, b: int, c: int, d: int) {
    0 <= mi < 12 && WordAt(s, i, Months[mi]) && DayYearShape(s, i + |Months[mi]|, b, c, d)
  }

  /** A date fragment occupies `s[i..e]`. */
  ghost predicate DateMatch(s: string, i: nat, e: int) {
    exists mi, b, c, d :: DateShape(s, i, mi, b, c, d) && e == d + 4
  }

  /** The part of the date pattern after the month, tried at `a`. */
  function DayYearAt(s: string, a: nat): (r: Option<nat>)
    requires a <= |s|
    ensures r.Some? ==> a < r.value <= |s|
  {
    var b := SpanEnd(s, a, IsPySpace);
    var c := SpanEnd(s, b, IsDigit);
    if a < b && b < c <= b + 2 && c < |s| && s[c] == ',' then
      var d := SpanEnd(s, c + 1, IsPySpace);
      if c + 1 < d && d + 4 <= |s| && AllDigits(s[d..d + 4]) then Some(d + 4) else None
    else None
  }

  lemma DayYearAtSound(s: string, a: nat)
    requires a <= |s| && DayYearAt(s, a).Some?
    ensures exists b, c, d :: DayYearShape(s, a, b, c, d) && DayYearAt(s, a).value == d + 4
  {
    var b := SpanEnd(s, a, IsPySpace);
    var c := SpanEnd(s, b, IsDigit);
    assert a < b && b < c <= b + 2 && c < |s| && s[c] == ',';
    var d := SpanEnd(s, c + 1, IsPySpace);
    assert c + 1 < d && d + 4 <= |s|;
    var year := s[d..d + 4];
    assert AllDigits(year);
    forall m | d <= m < d + 4 ensures IsDigit(s[m]) {
      assert s[m] == year[m - d];
    }
    assert DayYearShape(s, a, b, c, d);
  }

  lemma DayYearAtComplete(s: string, a: nat, b: int, c: int, d: int)
    requires a <= |s| && DayYearShape(s, a, b, c, d)
    ensures DayYearAt(s, a) == Some(d + 4)
  {
    SpanEndUnique(s, a, b, IsPySpace);
    SpanEndUnique(s, b, c, IsDigit);
    SpanEndUnique(s, c + 1, d, IsPySpace);
    assert AllDigits(s[d..d + 4]);
  }

  /** The date pattern tried at `i`: where its match ends, if it matches. */
  function DateAt(s: string, i: nat): (r: Option<nat>)
    requires i <= |s|
    ensures r.Some? ==> i < r.value <= |s|
  {
    match MonthEnd(s, i, 0)
    case None => None
    case Some(a) => DayYearAt(s, a)
  }

  lemma DateAtSound(s: string, i: nat)
    requires i <= |s| && DateAt(s, i).Some?
    ensures DateMatch(s, i, DateAt(s, i).value)
  {
    MonthEndSound(s, i, 0);
    var a := MonthEnd(s, i, 0).value;
    var mi :| 0 <= mi < 12 && WordAt(s, i, Months[mi]) && a == i + |Months[mi]|;
    DayYearAtSound(s, a);
    var b, c, d :| DayYearShape(s, a, b, c, d) && DayYearAt(s, a).value == d + 4;
    assert DateShape(s, i, mi, b, c, d);
  }

  lemma DateAtAfterMonth(s: string, i: nat, a: nat)
    requires i <= |s| && MonthEnd(s, i, 0) == Some(a)
    ensures DateAt(s, i) == DayYearAt(s, a)
  {
  }

  /** One way the date pattern matches, found by the matcher. */
  lemma DateShapeFound(s: string, i: nat, mi: int, b: int, c: int, d: int)
    requires i <= |s| && DateShape(s, i, mi, b, c, d)
    ensures DateAt(s, i) == Some(d + 4)
  {
    var a := i + |Months[mi]|;
    MonthEndFinds(s, i, mi);
    DayYearAtComplete(s, a, b, c, d);
    DateAtAfterMonth(s, i, a);
  }

  /** The parts of a date fragment. */
  lemma DateWitness(s: string, i: nat, e: int) returns (mi: int, b: int, c: int, d: int)
    requires DateMatch(s, i, e)
    ensures DateShape(s, i, mi, b, c, d) && e == d + 4
  {
    mi, b, c, d :| DateShape(s, i, mi, b, c, d) && e == d + 4;
  }

  lemma DateAtComplete(s: string, i: nat, e: int)
    requires i <= |s| && DateMatch(s, i, e)
    ensures DateAt(s, i) == Some(e)
  {
    var mi, b, c, d := DateWitness(s, i, e);
    DateShapeFound(s, i, mi, b, c, d);
  }

  lemma DateAtCorrect(s: string, i: nat, e: int)
    requires i <= |s|
    ensures DateAt(s, i) == Some(e) <==> DateMatch(s, i, e)
  {
    if DateAt(s, i) == Some(e) { DateAtSound(s, i); }
    if DateMatch(s, i, e) { DateAtComplete(s, i, e); }
  }

  /** Match ends that lie after their start and within the string. */
  predicate ProperEnds(ends: seq<Option<nat>>) {
    forall j :: 0 <= j < |ends| && ends[j].Some? ==> j < ends[j].value <= |ends|
  }

  /** `re.sub(pattern, '', s[i..])` for a pattern that, tried at `j`,
      matches up to `ends[j]`: scanning left to right, each match is dropped
      and the scan resumes after it. */
  function SubFrom(s: string, ends: seq<Option<nat>>, i: nat): (r: string)
    requires |ends| == |s| && ProperEnds(ends) && i <= |s|
    decreases |s| - i
    ensures |r| <= |s| - i
  {
    if i == |s| then []
    else match ends[i]
      case Some(e) => SubFrom(s, ends, e)
      case None => [s[i]] + SubFrom(s, ends, i + 1)
  }

  /** With no match anywhere, nothing is removed. */
  lemma {:induction false} SubNoMatch(s: string, ends: seq<Option<nat>>, i: nat)
    requires |ends| == |s| && ProperEnds(ends) && i <= |s|
    requires forall j :: i <= j < |s| ==> ends[j].None?
    ensures SubFrom(s, ends, i) == s[i..]
    decreases |s| - i
  {
    if i < |s| {
      SubNoMatch(s, ends, i + 1);
      assert s[i..] == [s[i]] + s[i + 1..];
    }
  }

  /** Positions where no match starts are copied as they are. */
  lemma {:induction false} SubCopies(s: string, ends: seq<Option<nat>>, i: nat, j: nat)
    requires |ends| == |s| && ProperEnds(ends) && i <= j <= |s|
    requires forall k :: i <= k < j ==> ends[k].None?
    ensures SubFrom(s, ends, i) == s[i..j] + SubFrom(s, ends, j)
    decreases j - i
  {
    if i < j {
      assert ends[i].None?;
      assert SubFrom(s, ends, i) == [s[i]] + SubFrom(s, ends, i + 1);
      SubCopies(s, ends, i + 1, j);
      assert s[i..j] == [s[i]] + s[i + 1..j];
    }
  }

  /** With a match somewhere, something is removed. */
  lemma {:induction false} SubSomeMatch(s: string, ends: seq<Option<nat>>, i: nat, j: nat)
    requires |ends| == |s| && ProperEnds(ends) && i <= j < |s| && ends[j].Some?
    ensures |SubFrom(s, ends, i)| < |s| - i
    decreases |s| - i
  {
    if ends[i].None? {
      SubSomeMatch(s, ends, i + 1, j);
    }
  }

  /** Where the date pattern tried at each position of `s` matches up to. */
  function DateEnds(s: string): (ends: seq<Option<nat>>)
    ensures |ends| == |s| && ProperEnds(ends)
    ensures forall j :: 0 <= j < |s| ==> ends[j] == DateAt(s, j)
  {
    seq(|s|, j requires 0 <= j < |s| => DateAt(s, j))
  }

  /** `re.sub(date_pattern, '', s, flags=re.IGNORECASE)` */
  function RemoveDates(s: string): (r: string)
    ensures |r| <= |s|
  {
    SubFrom(s, DateEnds(s), 0)
  }

  /** Some date fragment occurs in `s`. */
  ghost predicate ContainsDate(s: string) {
    exists i: nat, e :: i <= |s| && DateMatch(s, i, e)
  }

  /** Removing the dates changes the title exactly when it contains one. */
  lemma RemoveDatesIdentity(s: string)
    ensures RemoveDates(s) == s <==> !ContainsDate(s)
  {
    var ends := DateEnds(s);
    if ContainsDate(s) {
      var i: nat, e :| i <= |s| && DateMatch(s, i, e);
      DateAtComplete(s, i, e);
      SubSomeMatch(s, ends, 0, i);
    } else {
      forall j | 0 <= j < |s| ensures ends[j].None? {
        if DateAt(s, j).Some? { DateAtSound(s, j); }
      }
      SubNoMatch(s, ends, 0);
    }
  }

  /** `clean_title = re.sub(date_pattern, '', title, flags=re.IGNORECASE).strip()` */
  function CleanTitle(title: string): (r: string)
    ensures |r| <= |title|
    ensures r == [] || (!IsPySpace(r[0]) && !IsPySpace(r[|r| - 1]))
  {
    Trim(RemoveDates(title), IsPySpace)
  }

  /** A date at the very end, with no date starting earlier, is cut off and
      the text before it is kept. */
  lemma TrailingDateRemoved(t: string, d: string)
    requires forall k: nat, e :: k < |t| ==> !DateMatch(t + d, k, e)
    requires DateMatch(t + d, |t|, |t + d|)
    ensures RemoveDates(t + d) == t
  {
    var s := t + d;
    var ends := DateEnds(s);
    forall k | 0 <= k < |t| ensures ends[k].None? {
      if DateAt(s, k).Some? { DateAtSound(s, k); }
    }
    DateAtComplete(s, |t|, |s|);
    SubCopies(s, ends, 0, |t|);
    assert s[0..|t|] == t;
  }

  /** A title that ends with its date (the link text runs the two together)
      comes out as the episode name, stripped. */
  lemma CleanTitleTrailingDate(t: string, d: string)
    requires forall k: nat, e :: k < |t| ==> !DateMatch(t + d, k, e)
    requires DateMatch(t + d, |t|, |t + d|)
    ensures CleanTitle(t + d) == Trim(t, IsPySpace)
  {
    TrailingDateRemoved(t, d);
  }

  /** A title without a date is only stripped. */
  lemma CleanTitleWithoutDate(title: string)
    requires !ContainsDate(title)
    ensures CleanTitle(title) == Trim(title, IsPySpace)
  {
    RemoveDatesIdentity(title);
  }

  // ---------------------------------------------------------------------
  // The MP3 address in the episode page

  predicate IsQuote(c: char) {
    c == '\'' || c == '"'
  }

  predicate NotQuote(c: char) {
    !IsQuote(c)
  }

  /** `fileUrl:\s*['"]([^'"]+)['"]` matches from `i`, the opening quote at
      `w` and the closing one at `e`; the captured group is `t[w + 1..e]`. */
  ghost predicate FileUrlShape(t: string, i: int, w: int, e: int) {
    && LiteralAt(t, i, "fileUrl:")
    && i + 8 <= w < |t|
    && (forall m :: i + 8 <= m < w ==> IsPySpace(t[m]))
    && IsQuote(t[w])
    && w + 1 < e < |t|
    && (forall m :: w + 1 <= m < e ==> NotQuote(t[m]))
    && IsQuote(t[e])
  }

  /** The pattern tried at `i`: group 1 of its match, if it matches. */
  function FileUrlAt(t: string, i: nat): (r: Option<string>)
    requires i <= |t|
    ensures r.Some? ==> |r.value| > 0 && forall m :: 0 <= m < |r.value| ==> NotQuote(r.value[m])
  {
    if i + 8 <= |t| && t[i..i + 8] == "fileUrl:" then
      var w := SpanEnd(t, i + 8, IsPySpace);
      if w < |t| && IsQuote(t[w]) then
        var e := SpanEnd(t, w + 1, NotQuote);
        if w + 1 < e < |t| then Some(t[w + 1..e]) else None
      else None
    else None
  }

  lemma FileUrlAtSound(t: string, i: nat)
    requires i <= |t| && FileUrlAt(t, i).Some?
    ensures exists w, e :: FileUrlShape(t, i, w, e) && FileUrlAt(t, i).value == t[w + 1..e]
  {
    var w := SpanEnd(t, i + 8, IsPySpace);
    var e := SpanEnd(t, w + 1, NotQuote);
    assert FileUrlShape(t, i, w, e);
  }

  lemma FileUrlAtComplete(t: string, i: nat, w: int, e: int)
    requires i <= |t| && FileUrlShape(t, i, w, e)
    ensures FileUrlAt(t, i) == Some(t[w + 1..e])
  {
    assert t[i..i + 8] == "fileUrl:";
    SpanEndUnique(t, i + 8, w, IsPySpace);
    SpanEndUnique(t, w + 1, e, NotQuote);
  }

  lemma FileUrlAtCorrect(t: string, i: nat, u: string)
    requires i <= |t|
    ensures FileUrlAt(t, i) == Some(u) <==> exists w, e :: FileUrlShape(t, i, w, e) && u == t[w + 1..e]
  {
    if FileUrlAt(t, i) == Some(u) {
      FileUrlAtSound(t, i);
    }
    if w, e :| FileUrlShape(t, i, w, e) && u == t[w + 1..e] {
      FileUrlAtComplete(t, i, w, e);
    }
  }

  /** `re.search(pattern, t[i..])` read from position `i` on: the leftmost
      match wins. */
  function FindFileUrlFrom(t: string, i: nat): (r: Option<string>)
    requires i <= |t|
    decreases |t| - i
    ensures r.Some? ==> |r.value| > 0 && forall m :: 0 <= m < |r.value| ==> NotQuote(r.value[m])
  {
    match FileUrlAt(t, i)
    case Some(u) => Some(u)
    case None => if i == |t| then None else FindFileUrlFrom(t, i + 1)
  }

  lemma {:induction false} FindFileUrlFromLeftmost(t: string, i: nat)
    requires i <= |t| && FindFileUrlFrom(t, i).Some?
    ensures exists j :: i <= j <= |t| && FileUrlAt(t, j) == FindFileUrlFrom(t, i)
                        && forall k :: i <= k < j ==> FileUrlAt(t, k).None?
    decreases |t| - i
  {
    if FileUrlAt(t, i).None? {
      FindFileUrlFromLeftmost(t, i + 1);
      var j :| i + 1 <= j <= |t| && FileUrlAt(t, j) == FindFileUrlFrom(t, i + 1)
               && forall k :: i + 1 <= k < j ==> FileUrlAt(t, k).None?;
      assert forall k :: i <= k < j ==> FileUrlAt(t, k).None?;
    }
  }

  lemma {:induction false} FindFileUrlFromNone(t: string, i: nat)
    requires i <= |t|
    ensures FindFileUrlFrom(t, i).None? <==> forall j :: i <= j <= |t| ==> FileUrlAt(t, j).None?
    decreases |t| - i
  {
    match FileUrlAt(t, i)
    case Some(_) =>
    case None =>
      if i < |t| {
        FindFileUrlFromNone(t, i + 1);
        assert FindFileUrlFrom(t, i) == FindFileUrlFrom(t, i + 1);
      }
  }

  /** `re.search(pattern, t).group(1)`. */
  function FindFileUrl(t: string): (r: Option<string>)
    ensures r.Some? ==> |r.value| > 0 && forall m :: 0 <= m < |r.value| ==> NotQuote(r.value[m])
  {
    FindFileUrlFrom(t, 0)
  }

  /** The address found comes from the leftmost match, and none is found
      only when the pattern matches nowhere. */
  lemma FindFileUrlLeftmost(t: string)
    ensures FindFileUrl(t).Some? ==> exists j :: 0 <= j <= |t| && FileUrlAt(t, j) == FindFileUrl(t)
                                                && forall k :: 0 <= k < j ==> FileUrlAt(t, k).None?
    ensures FindFileUrl(t).None? <==> forall j :: 0 <= j <= |t| ==> FileUrlAt(t, j).None?
  {
    if FindFileUrl(t).Some? { FindFileUrlFromLeftmost(t, 0); }
    FindFileUrlFromNone(t, 0);
  }

  // ---------------------------------------------------------------------
  // Streaming the MP3 to disk

  newtype Byte = b: int | 0 <= b < 256

  type Chunk = seq<Byte>

  /** The chunks `if chunk:` lets through, in order. */
  function NonEmpty(chunks: seq<Chunk>): (r: seq<Chunk>)
    ensures |r| <= |chunks|
    ensures forall k :: 0 <= k < |r| ==> |r[k]| > 0
  {
    if chunks == [] then []
    else
      var last := chunks[|chunks| - 1];
      NonEmpty(chunks[..|chunks| - 1]) + (if |last| > 0 then [last] else [])
  }

  /** The bytes of `chunks`, one after the other. */
  function Concat(chunks: seq<Chunk>): seq<Byte> {
    if chunks == [] then [] else Concat(chunks[..|chunks| - 1]) + chunks[|chunks| - 1]
  }

  lemma ConcatAppend(chunks: seq<Chunk>, c: Chunk)
    ensures Concat(chunks + [c]) == Concat(chunks) + c
  {
    assert (chunks + [c])[..|chunks|] == chunks;
  }

  /** Skipping the empty chunks loses no bytes. */
  lemma {:induction false} ConcatNonEmpty(chunks: seq<Chunk>)
    ensures Concat(NonEmpty(chunks)) == Concat(chunks)
  {
    if chunks != [] {
      var init := chunks[..|chunks| - 1];
      var last := chunks[|chunks| - 1];
      ConcatNonEmpty(init);
      if |last| > 0 {
        ConcatAppend(NonEmpty(init), last);
      } else {
        assert NonEmpty(chunks) == NonEmpty(init);
        assert Concat(chunks) == Concat(init) + last;
      }
    }
  }

  /** `a` is the first `|a|` bytes of `b`. */
  predicate IsPrefix(a: seq<Byte>, b: seq<Byte>) {
    |a| <= |b| && a == b[..|a|]
  }

  /** The bytes of the first `k` chunks come first in the bytes of all. */
  lemma {:induction false} ConcatPrefix(chunks: seq<Chunk>, k: nat)
    requires k <= |chunks|
    ensures IsPrefix(Concat(chunks[..k]), Concat(chunks))
  {
    if k < |chunks| {
      var init := chunks[..|chunks| - 1];
      assert init[..k] == chunks[..k];
      ConcatPrefix(init, k);
      assert Concat(chunks) == Concat(init) + chunks[|chunks| - 1];
      assert Concat(chunks)[..|Concat(init)|] == Concat(init);
    } else {
      assert chunks[..k] == chunks;
    }
  }

  lemma NonEmptySnoc(chunks: seq<Chunk>, i: nat)
    requires i < |chunks|
    ensures NonEmpty(chunks[..i + 1]) == NonEmpty(chunks[..i]) + (if |chunks[i]| > 0 then [chunks[i]] else [])
  {
    assert chunks[..i + 1][..i] == chunks[..i];
  }

  /** The chunks the loop lets through up to `i` are the first ones it lets
      through overall. */
  lemma {:induction false} NonEmptyPrefix(chunks: seq<Chunk>, i: nat)
    requires i <= |chunks|
    ensures |NonEmpty(chunks[..i])| <= |NonEmpty(chunks)|
    ensures NonEmpty(chunks[..i]) == NonEmpty(chunks)[..|NonEmpty(chunks[..i])|]
    decreases |chunks| - i
  {
    if i < |chunks| {
      NonEmptyPrefix(chunks, i + 1);
      NonEmptySnoc(chunks, i);
      var p, q := NonEmpty(chunks[..i]), NonEmpty(chunks[..i + 1]);
      assert q[..|p|] == p;
    } else {
      assert chunks[..i] == chunks;
    }
  }

  /** An OSError raised by the `f.write` call number `call` (counting from 0). */
  datatype WriteFault = WriteFault(call: nat, message: string)

  /** The failing write is one the loop makes: there are more than `call`
      non-empty chunks. */
  predicate WriteFails(chunks: seq<Chunk>, writeFault: Option<WriteFault>) {
    writeFault.Some? && writeFault.value.call < |NonEmpty(chunks)|
  }

  /** The `with open(output_path, 'wb')` loop over `iter_content`: writes
      every non-empty chunk in order and counts the bytes written, until a
      write raises `failure`. */
  method WriteChunks(chunks: seq<Chunk>, writeFault: Option<WriteFault>)
    returns (written: seq<Chunk>, contents: seq<Byte>, downloaded: nat, failure: Option<string>)
    ensures failure.Some? <==> WriteFails(chunks, writeFault)
    ensures failure.Some? ==> failure.value == writeFault.value.message
                              && written == NonEmpty(chunks)[..writeFault.value.call]
    ensures failure.None? ==> written == NonEmpty(chunks) && contents == Concat(chunks)
    ensures contents == Concat(written)
    ensures downloaded == |contents|
  {
    written, contents, downloaded, failure := [], [], 0, None;
    var i := 0;
    while i < |chunks|
      invariant 0 <= i <= |chunks|
      invariant written == NonEmpty(chunks[..i])
      invariant writeFault.None? || writeFault.value.call >= |written|
      invariant contents == Concat(written)
      invariant downloaded == |contents|
    {
      var chunk := chunks[i];
      NonEmptySnoc(chunks, i);
      if |chunk| > 0 {
        if writeFault.Some? && writeFault.value.call == |written| {
          // the OSError leaves the loop and the `with` block
          failure := Some(writeFault.value.message);
          NonEmptyPrefix(chunks, i);
          NonEmptyPrefix(chunks, i + 1);
          return;
        }
        ConcatAppend(written, chunk);
        written := written + [chunk];
        contents := contents + chunk;
        downloaded := downloaded + |chunk|;
      }
      i := i + 1;
    }
    assert chunks[..i] == chunks;
    ConcatNonEmpty(chunks);
  }

  // ---------------------------------------------------------------------
  // The download

  /** `int(headers.get('content-length', 0))`: absent (0), a number, or a
      value `int()` rejects with a ValueError. */
  datatype LengthHeader = NoLength | Length(n: int) | BadLength(message: string)

  /** What `requests.get(url)` followed by `raise_for_status()` gives. For a
      page: its text, the `<a>` elements the HTML parser finds in it, its
      Content-Length, the body as `iter_content(8192)` yields it and the
      RequestException raised while reading past those chunks, if any. */
  datatype Response =
    | Failed(message: string)
    | Page(text: string, anchors: seq<Anchor>, contentLength: LengthHeader,
           chunks: seq<Chunk>, streamError: Option<string>)

  type Web = string -> Response

  /** `{"title": episode_title}` */
  datatype Downloaded = Downloaded(title: string)

  const HttpPrefix := "Error en la petición HTTP: "
  const ScrapePrefix := "Error descargando desde El Sitio Cristiano: "
  const NoEpisodes := "No se encontraron episodios en la pagina"
  const NoMediaUrl := "No se encontró la URL del MP3 en la página del episodio"

  /** The two handlers around the whole download: a RequestException and
      anything else, the strategy's own ScraperError included. */
  function Wrap(e: Exception): (r: Exception)
    ensures r.ScraperError?
    ensures StartsWith(r.message, HttpPrefix) <==> e.RequestException?
    ensures r.message == HttpPrefix + e.message || r.message == ScrapePrefix + e.message
    ensures StartsWith(r.message, HttpPrefix) || StartsWith(r.message, ScrapePrefix)
  {
    var r := if e.RequestException? then ScraperError(HttpPrefix + e.message) else ScraperError(ScrapePrefix + e.message);
    assert !StartsWith(ScrapePrefix + e.message, HttpPrefix) by {
      assert ScrapePrefix[6] == 'd' && HttpPrefix[6] == 'e';
      assert (ScrapePrefix + e.message)[6] == 'd';
    }
    r
  }

  /** Step 1: the listing page, the newest episode's absolute URL and its
      cleaned title. */
  function FindEpisode(url: string, web: Web): (r: Result<(string, string), Exception>)
    ensures r.Ok? ==> StartsWith(r.value.0, "http")
    ensures r.Err? ==> r.error.RequestException? || r.error == ScraperError(NoEpisodes)
    ensures web(Canonicalize(url)).Failed? <==> r.Err? && r.error.RequestException?
    ensures web(Canonicalize(url)).Page? ==>
              var f := FirstEpisode(web(Canonicalize(url)).anchors);
              && (r.Ok? <==> f.Some?)
              && (f.Some? ==> r.value == (EpisodeUrl(f.value.href.value), CleanTitle(f.value.text)))
  {
    match web(Canonicalize(url))
    case Failed(m) => Err(RequestException(m))
    case Page(_, anchors, _, _, _) =>
      match FirstEpisode(anchors)
      case None => Err(ScraperError(NoEpisodes))
      case Some(a) => Ok((EpisodeUrl(a.href.value), CleanTitle(a.text)))
  }

  /** Step 2: the episode page and the MP3 address in its script. */
  function FindMediaUrl(episodeUrl: string, web: Web): (r: Result<string, Exception>)
    ensures r.Ok? ==> |r.value| > 0 && forall m :: 0 <= m < |r.value| ==> NotQuote(r.value[m])
    ensures r.Err? ==> r.error.RequestException? || r.error == ScraperError(NoMediaUrl)
    ensures web(episodeUrl).Page? && FindFileUrl(web(episodeUrl).text).Some? <==> r.Ok?
    ensures r.Ok? ==> r.value == FindFileUrl(web(episodeUrl).text).value
    ensures web(episodeUrl).Failed? <==> r.Err? && r.error.RequestException?
  {
    match web(episodeUrl)
    case Failed(m) => Err(RequestException(m))
    case Page(text, _, _, _, _) =>
      match FindFileUrl(text)
      case None => Err(ScraperError(NoMediaUrl))
      case Some(u) => Ok(u)
  }

  /** Step 3: the MP3 request, the Content-Length header, the file and the
      chunk loop, once the title is known. */
  function MediaOutcome(title: string, media: Response, openError: Option<string>, writeFault: Option<WriteFault>)
    : (Result<Downloaded, Exception>, Option<seq<Byte>>)
  {
    match media
    case Failed(m) => (Err(Wrap(RequestException(m))), None)
    case Page(_, _, contentLength, chunks, streamError) =>
      if contentLength.BadLength? then (Err(Wrap(OtherError(contentLength.message))), None)
      else if openError.Some? then (Err(Wrap(OtherError(openError.value))), None)
      else if WriteFails(chunks, writeFault) then
        (Err(Wrap(OtherError(writeFault.value.message))), Some(Concat(NonEmpty(chunks)[..writeFault.value.call])))
      else if streamError.Some? then (Err(Wrap(RequestException(streamError.value))), Some(Concat(chunks)))
      else (Ok(Downloaded(title)), Some(Concat(chunks)))
  }

  /** The outcome of `download(url, output_path)`: the result and what ends
      up in the file at `output_path`. `web` answers every request;
      `openError` is the OSError `open(output_path, 'wb')` raises, if any,
      and `writeFault` the one a `f.write` call raises, if any. */
  function DownloadOutcome(url: string, web: Web, openError: Option<string>, writeFault: Option<WriteFault>)
    : (Result<Downloaded, Exception>, Option<seq<Byte>>)
  {
    match FindEpisode(url, web)
    case Err(e) => (Err(Wrap(e)), None)
    case Ok(episode) =>
      match FindMediaUrl(episode.0, web)
      case Err(e) => (Err(Wrap(e)), None)
      case Ok(mediaUrl) => MediaOutcome(episode.1, web(mediaUrl), openError, writeFault)
  }

  /** Whatever the file holds is a prefix of the body: all of it unless a
      write failed, and then exactly the chunks written before that one. */
  lemma MediaOutcomeProperties(title: string, media: Response, openError: Option<string>, writeFault: Option<WriteFault>)
    ensures var o := MediaOutcome(title, media, openError, writeFault);
            && (o.0.Err? ==> o.0.error.ScraperError?
                             && (StartsWith(o.0.error.message, HttpPrefix) || StartsWith(o.0.error.message, ScrapePrefix)))
            && (o.0.Ok? <==> && media.Page? && !media.contentLength.BadLength? && openError.None?
                             && !WriteFails(media.chunks, writeFault) && media.streamError.None?)
            && (o.0.Ok? ==> o.0.value.title == title && o.1.Some?)
            && (o.1.Some? ==> media.Page? && IsPrefix(o.1.value, Concat(media.chunks)))
            && (o.1.Some? && !WriteFails(media.chunks, writeFault) ==> o.1.value == Concat(media.chunks))
            && (media.Page? && !media.contentLength.BadLength? && openError.None? && WriteFails(media.chunks, writeFault) ==>
                  o == (Err(ScraperError(ScrapePrefix + writeFault.value.message)),
                        Some(Concat(NonEmpty(media.chunks)[..writeFault.value.call]))))
  {
    var o := MediaOutcome(title, media, openError, writeFault);
    if o.1.Some? {
      ConcatNonEmpty(media.chunks);
      if WriteFails(media.chunks, writeFault) {
        ConcatPrefix(NonEmpty(media.chunks), writeFault.value.call);
      }
    }
  }

  /** Every failure is reported as a ScraperError under one of the two
      prefixes, and a failure before the MP3 request leaves no file. */
  lemma DownloadErrors(url: string, web: Web, openError: Option<string>, writeFault: Option<WriteFault>)
    ensures var o := DownloadOutcome(url, web, openError, writeFault);
            o.0.Err? ==> o.0.error.ScraperError?
                         && (StartsWith(o.0.error.message, HttpPrefix) || StartsWith(o.0.error.message, ScrapePrefix))
    ensures FindEpisode(url, web).Err? ==>
              DownloadOutcome(url, web, openError, writeFault) == (Err(Wrap(FindEpisode(url, web).error)), None)
    ensures FindEpisode(url, web).Ok? && FindMediaUrl(FindEpisode(url, web).value.0, web).Err? ==>
              DownloadOutcome(url, web, openError, writeFault)
              == (Err(Wrap(FindMediaUrl(FindEpisode(url, web).value.0, web).error)), None)
  {
    match FindEpisode(url, web)
    case Err(e) =>
    case Ok(episode) =>
      match FindMediaUrl(episode.0, web)
      case Err(e) =>
      case Ok(mediaUrl) => MediaOutcomeProperties(episode.1, web(mediaUrl), openError, writeFault);
  }

  /** The download succeeds exactly when both pages yield what is looked for,
      the MP3 request and its stream succeed, the length header is numeric,
      the file opens and every write goes through; the title returned is the
      cleaned one and the file then holds every byte of the body. Whatever
      file is left behind holds a prefix of the body. */
  lemma DownloadSuccess(url: string, web: Web, openError: Option<string>, writeFault: Option<WriteFault>)
    ensures var o := DownloadOutcome(url, web, openError, writeFault);
            o.0.Ok? <==>
              && FindEpisode(url, web).Ok?
              && FindMediaUrl(FindEpisode(url, web).value.0, web).Ok?
              && var media := web(FindMediaUrl(FindEpisode(url, web).value.0, web).value);
                 && media.Page? && !media.contentLength.BadLength? && openError.None?
                 && !WriteFails(media.chunks, writeFault) && media.streamError.None?
    ensures var o := DownloadOutcome(url, web, openError, writeFault);
            o.0.Ok? ==> FindEpisode(url, web).Ok? && o.0.value.title == FindEpisode(url, web).value.1 && o.1.Some?
    ensures var o := DownloadOutcome(url, web, openError, writeFault);
            o.1.Some? ==>
              && FindEpisode(url, web).Ok?
              && FindMediaUrl(FindEpisode(url, web).value.0, web).Ok?
              && var media := web(FindMediaUrl(FindEpisode(url, web).value.0, web).value);
                 && media.Page? && IsPrefix(o.1.value, Concat(media.chunks))
                 && (!WriteFails(media.chunks, writeFault) ==> o.1.value == Concat(media.chunks))
  {
    match FindEpisode(url, web)
    case Err(e) =>
    case Ok(episode) =>
      match FindMediaUrl(episode.0, web)
      case Err(e) =>
      case Ok(mediaUrl) => MediaOutcomeProperties(episode.1, web(mediaUrl), openError, writeFault);
  }

  /** The listing page itself: a failed request, or a page without episode
      links, each with its own message. */
  lemma ListingErrors(url: string, web: Web, openError: Option<string>, writeFault: Option<WriteFault>)
    ensures web(Canonicalize(url)).Failed? ==>
              DownloadOutcome(url, web, openError, writeFault).0 == Err(ScraperError(HttpPrefix + web(Canonicalize(url)).message))
    ensures web(Canonicalize(url)).Page? && FirstEpisode(web(Canonicalize(url)).anchors).None? ==>
              DownloadOutcome(url, web, openError, writeFault).0 == Err(ScraperError(ScrapePrefix + NoEpisodes))
  {
  }

  /** `download(url, output_path)`. */
  method Download(url: string, web: Web, openError: Option<string>, writeFault: Option<WriteFault>)
    returns (r: Result<Downloaded, Exception>, file: Option<seq<Byte>>)
    ensures (r, file) == DownloadOutcome(url, web, openError, writeFault)
  {
    file := None;
    match FindEpisode(url, web) {
      case Err(e) => r := Err(Wrap(e));
      case Ok(episode) =>
        match FindMediaUrl(episode.0, web) {
          case Err(e) => r := Err(Wrap(e));
          case Ok(mediaUrl) =>
            match web(mediaUrl) {
              case Failed(m) => r := Err(Wrap(RequestException(m)));
              case Page(_, _, contentLength, chunks, streamError) =>
                if contentLength.BadLength? {
                  r := Err(Wrap(OtherError(contentLength.message)));
                } else if openError.Some? {
                  r := Err(Wrap(OtherError(openError.value)));
                } else {
                  var written, contents, downloaded, failure := WriteChunks(chunks, writeFault);
                  file := Some(contents);
                  if failure.Some? {
                    r := Err(Wrap(OtherError(failure.value)));
                  } else if streamError.Some? {
                    r := Err(Wrap(RequestException(streamError.value)));
                  } else {
                    r := Ok(Downloaded(episode.1));
                  }
                }
            }
        }
    }
  }
}
