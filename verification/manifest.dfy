/** The clone's bookkeeping: the manifest written next to the page, and the
    name of the output directory, derived from the host name and the clock. */
module Manifest {
  import opened Text
  import opened Capture
  import opened Assets

  /** The per-kind counts in the manifest. Each is its own filter over the
      table, so the kinds overlap and need not add up to the total. */
  datatype Breakdown = Breakdown(css: nat, js: nat, images: nat, fonts: nat)

  /** `clone-manifest.json`. `clonedAt` is the clock's ISO timestamp. */
  datatype Manifest = Manifest(
    originalUrl: string,
    clonedAt: string,
    totalResources: nat,
    failedResources: nat,
    resourceBreakdown: Breakdown,
    clonedDirectory: string)

  /** The values of the keys `ks`, in the order of `ks`. */
  function ValuesOf(ks: seq<string>, m: map<string, Resource>): (vs: seq<Resource>)
    requires forall i :: 0 <= i < |ks| ==> ks[i] in m
    ensures |vs| == |ks|
    ensures forall i :: 0 <= i < |vs| ==> vs[i] == m[ks[i]]
  {
    seq(|ks|, i requires 0 <= i < |ks| => m[ks[i]])
  }

  /** The table's values in iteration order (`[...resources.values()]`). */
  function Values(t: Table): (vs: seq<Resource>)
    requires t.Valid()
  {
    ValuesOf(t.order, t.entries)
  }

  /** `vs.filter(p).length`. */
  function CountWhere(vs: seq<Resource>, p: Resource -> bool): (n: nat)
    decreases |vs|
    ensures n <= |vs|
  {
    if |vs| == 0 then 0
    else CountWhere(vs[..|vs| - 1], p) + (if p(vs[|vs| - 1]) then 1 else 0)
  }

  /** A count is zero exactly when no value passes, and the full length
      exactly when every value does. */
  lemma {:induction false} CountExtremes(vs: seq<Resource>, p: Resource -> bool)
    ensures CountWhere(vs, p) == 0 <==> forall i :: 0 <= i < |vs| ==> !p(vs[i])
    ensures CountWhere(vs, p) == |vs| <==> forall i :: 0 <= i < |vs| ==> p(vs[i])
    decreases |vs|
  {
    if |vs| > 0 {
      var init := vs[..|vs| - 1];
      CountExtremes(init, p);
      assert forall i :: 0 <= i < |init| ==> init[i] == vs[i];
    }
  }

  /** The font extensions the manifest counts: the placement list without `.otf`. */
  const ManifestFontExtensions: seq<string> := [".woff", ".woff2", ".ttf", ".eot"]

  /** Counted as an image: declared as one; the extension is not looked at. */
  predicate CountedImage(r: Resource) {
    r.resourceType == "image"
  }

  predicate CountedFont(r: Resource) {
    r.extension in ManifestFontExtensions
  }

  /** The stored URLs whose resource satisfies `p`. */
  function UrlsWhere(entries: map<string, Resource>, p: Resource -> bool): set<string> {
    set u | u in entries && p(entries[u])
  }

  /** The manifest for one run: the table size, the failure-set size, the four
      filters over the stored resources, and the run's URL, time and directory.
      Each breakdown figure is the number of stored URLs whose resource passes
      that figure's own filter. */
  function BuildManifest(url: string, clonedAt: string, c: Captures, dir: string): (m: Manifest)
    requires c.resources.Valid()
    ensures m.originalUrl == url && m.clonedAt == clonedAt && m.clonedDirectory == dir
    ensures m.totalResources == |c.resources.entries|
    ensures m.failedResources == |c.failed|
    ensures m.resourceBreakdown.css <= m.totalResources
    ensures m.resourceBreakdown.js <= m.totalResources
    ensures m.resourceBreakdown.images <= m.totalResources
    ensures m.resourceBreakdown.fonts <= m.totalResources
    ensures m.resourceBreakdown.css == |UrlsWhere(c.resources.entries, IsStyle)|
    ensures m.resourceBreakdown.js == |UrlsWhere(c.resources.entries, IsScript)|
    ensures m.resourceBreakdown.images == |UrlsWhere(c.resources.entries, CountedImage)|
    ensures m.resourceBreakdown.fonts == |UrlsWhere(c.resources.entries, CountedFont)|
  {
    var vs := Values(c.resources);
    TableSize(c.resources);
    CountCountsUrls(c.resources, IsStyle);
    CountCountsUrls(c.resources, IsScript);
    CountCountsUrls(c.resources, CountedImage);
    CountCountsUrls(c.resources, CountedFont);
    Manifest(
      url, clonedAt, |c.resources.entries|, |c.failed|,
      Breakdown(
        CountWhere(vs, IsStyle), CountWhere(vs, IsScript),
        CountWhere(vs, CountedImage), CountWhere(vs, CountedFont)),
      dir)
  }

  // ---------------------------------------------------------------------
  // Counting against the table's keys

  /** The keys among `ks` whose value satisfies `p`. */
  function KeysWhere(ks: seq<string>, m: map<string, Resource>, p: Resource -> bool): set<string>
    requires forall i :: 0 <= i < |ks| ==> ks[i] in m
  {
    set u | u in ks && p(m[u])
  }

  lemma KeysWhereSnoc(ks: seq<string>, m: map<string, Resource>, p: Resource -> bool)
    requires |ks| > 0
    requires forall i :: 0 <= i < |ks| ==> ks[i] in m
    ensures KeysWhere(ks, m, p)
         == KeysWhere(ks[..|ks| - 1], m, p) + (if p(m[ks[|ks| - 1]]) then {ks[|ks| - 1]} else {})
  {
    var init := ks[..|ks| - 1];
    assert ks == init + [ks[|ks| - 1]];
  }

  lemma CountStep(ks: seq<string>, m: map<string, Resource>, p: Resource -> bool)
    requires |ks| > 0 && ks[|ks| - 1] !in ks[..|ks| - 1]
    requires forall i :: 0 <= i < |ks| ==> ks[i] in m
    requires CountWhere(ValuesOf(ks[..|ks| - 1], m), p) == |KeysWhere(ks[..|ks| - 1], m, p)|
    ensures CountWhere(ValuesOf(ks, m), p) == |KeysWhere(ks, m, p)|
  {
    var vs := ValuesOf(ks, m);
    var init := ks[..|ks| - 1];
    var last := ks[|ks| - 1];
    var before := KeysWhere(init, m, p);
    assert vs[..|vs| - 1] == ValuesOf(init, m);
    KeysWhereSnoc(ks, m, p);
    if p(m[last]) {
      assert last !in before;
      assert |before + {last}| == |before| + 1;
    }
  }

  lemma {:induction false} CountIsKeyCount(ks: seq<string>, m: map<string, Resource>, p: Resource -> bool)
    requires Distinct(ks)
    requires forall i :: 0 <= i < |ks| ==> ks[i] in m
    ensures CountWhere(ValuesOf(ks, m), p) == |KeysWhere(ks, m, p)|
    decreases |ks|
  {
    if |ks| > 0 {
      var init := ks[..|ks| - 1];
      assert Distinct(init);
      assert ks[|ks| - 1] !in init;
      CountIsKeyCount(init, m, p);
      CountStep(ks, m, p);
    }
  }

  /** Each count is the number of URLs in the table whose resource passes the
      count's filter. */
  lemma CountCountsUrls(t: Table, p: Resource -> bool)
    requires t.Valid()
    ensures CountWhere(Values(t), p) == |set u | u in t.entries && p(t.entries[u])|
  {
    CountIsKeyCount(t.order, t.entries, p);
    var a := set u | u in t.entries && p(t.entries[u]);
    var b := KeysWhere(t.order, t.entries, p);
    forall u | u in a
      ensures u in b
    {
      assert u in t.order;
    }
    assert a == b;
  }

  /** A filter that admits no more than another counts no more. */
  lemma {:induction false} CountMonotone(vs: seq<Resource>, p: Resource -> bool, q: Resource -> bool)
    requires forall r :: p(r) ==> q(r)
    ensures CountWhere(vs, p) <= CountWhere(vs, q)
    decreases |vs|
  {
    if |vs| > 0 {
      CountMonotone(vs[..|vs| - 1], p, q);
    }
  }

  /** Filters that agree on every resource count the same. */
  lemma {:induction false} CountCongruent(vs: seq<Resource>, p: Resource -> bool, q: Resource -> bool)
    requires forall r :: p(r) == q(r)
    ensures CountWhere(vs, p) == CountWhere(vs, q)
    decreases |vs|
  {
    if |vs| > 0 {
      CountCongruent(vs[..|vs| - 1], p, q);
    }
  }

  predicate PlacedInCss(r: Resource) {
    Classify(r) == Css
  }

  predicate PlacedInJs(r: Resource) {
    Classify(r) == Js
  }

  /** The css count is the number of resources written to `css/`; the js
      count is at least the number written to `js/`, and more when a
      stylesheet has a `.js` extension. */
  lemma CountsAgainstPlacement(t: Table)
    requires t.Valid()
    ensures CountWhere(Values(t), IsStyle) == CountWhere(Values(t), PlacedInCss)
    ensures CountWhere(Values(t), PlacedInJs) <= CountWhere(Values(t), IsScript)
  {
    CountCongruent(Values(t), IsStyle, PlacedInCss);
    CountMonotone(Values(t), PlacedInJs, IsScript);
  }

  /** The four counts can add up to more than the total: a stylesheet served
      with a `.js` extension is counted as css and as js. */
  lemma BreakdownCanExceedTotal()
    ensures var c := Captures(Put(EmptyTable, "u", Resource("stylesheet", [], "", ".js")), {});
            var b := BuildManifest("u", "", c, "").resourceBreakdown;
            b.css + b.js + b.images + b.fonts > BuildManifest("u", "", c, "").totalResources
  {
    var t := Put(EmptyTable, "u", Resource("stylesheet", [], "", ".js"));
    var vs := Values(t);
    assert vs == [Resource("stylesheet", [], "", ".js")];
    assert |t.entries| == 1;
  }

  /** An `.otf` font is written to `fonts/` but not counted as a font. */
  lemma OtfPlacedButNotCounted(r: Resource)
    requires r.extension == ".otf" && !IsStyle(r) && !IsScript(r) && !IsImage(r)
    ensures Classify(r) == Fonts
    ensures !CountedFont(r)
  {
  }

  /** An image-typed resource is counted as an image wherever it is placed,
      and a `.png` that is not declared an image is placed in `images/` but not
      counted. */
  lemma ImageCountIgnoresExtension()
    ensures CountedImage(Resource("image", [], "", ".css")) && Classify(Resource("image", [], "", ".css")) == Css
    ensures !CountedImage(Resource("other", [], "", ".png")) && Classify(Resource("other", [], "", ".png")) == Images
  {
    assert ".png" in ImageExtensions;
  }

  // ---------------------------------------------------------------------
  // The site name and the output directory

  predicate IsAsciiAlnum(c: char) {
    ('a' <= c <= 'z') || ('A' <= c <= 'Z') || ('0' <= c <= '9')
  }

  /** A character the site name can contain. */
  predicate IsNameChar(c: char) {
    IsAsciiAlnum(c) || c == '_'
  }

  predicate AllNameChars(s: string) {
    forall k :: 0 <= k < |s| ==> IsNameChar(s[k])
  }

  function SanitizeChar(c: char): char {
    if IsAsciiAlnum(c) then c else '_'
  }

  /** The host name with every character other than an ASCII letter or digit
      replaced by `_`, one for one. */
  function SiteName(host: string): (s: string)
    ensures |s| == |host|
    ensures AllNameChars(s)
    ensures forall k :: 0 <= k < |host| && IsAsciiAlnum(host[k]) ==> s[k] == host[k]
    ensures forall k :: 0 <= k < |host| && !IsAsciiAlnum(host[k]) ==> s[k] == '_'
  {
    seq(|host|, k requires 0 <= k < |host| => SanitizeChar(host[k]))
  }

  /** A host name is its own site name exactly when it has no character other
      than letters, digits and `_`. */
  lemma SiteNameFixedIff(host: string)
    ensures SiteName(host) == host <==> AllNameChars(host)
  {
    if AllNameChars(host) {
      forall k | 0 <= k < |host|
        ensures SiteName(host)[k] == host[k]
      {
      }
    }
  }

  /** Sanitising twice is sanitising once. */
  lemma SiteNameIdempotent(host: string)
    ensures SiteName(SiteName(host)) == SiteName(host)
  {
    SiteNameFixedIff(SiteName(host));
  }

  /** Host names that differ only in their punctuation get the same name:
      `a.b` and `a_b`, or `a-b`, all become `a_b`. */
  lemma SiteNamesCollide()
    ensures SiteName("a.b") == SiteName("a_b") == SiteName("a-b") == "a_b"
  {
  }

  /** `cloned_<site name>_<milliseconds since the epoch>`. */
  function OutputDir(siteName: string, now: nat): (d: string)
    ensures StartsWith(d, "cloned_")
    ensures AllNameChars(siteName) ==> AllNameChars(d)
  {
    var d := "cloned_" + siteName + "_" + NatToString(now);
    assert d[..7] == "cloned_";
    d
  }

  lemma UnderscoreVsDigit(s1: string, d1: string, s2: string, d2: string)
    requires AllDigits(d2) && |d1| < |d2|
    ensures s1 + "_" + d1 != s2 + "_" + d2
  {
    var x := s1 + "_" + d1;
    var y := s2 + "_" + d2;
    if |x| == |y| {
      var k := |x| - |d1| - 1;
      assert x[k] == '_';
      assert y[k] == d2[|d2| - |d1| - 1];
    }
  }

  lemma UnderscoreThenDigits(s1: string, d1: string, s2: string, d2: string)
    requires AllDigits(d1) && AllDigits(d2)
    requires s1 + "_" + d1 == s2 + "_" + d2
    ensures s1 == s2 && d1 == d2
  {
    var x := s1 + "_" + d1;
    var y := s2 + "_" + d2;
    var n := |x|;
    if |d1| < |d2| {
      UnderscoreVsDigit(s1, d1, s2, d2);
    } else if |d2| < |d1| {
      UnderscoreVsDigit(s2, d2, s1, d1);
    } else {
      assert d1 == x[n - |d1|..];
      assert d2 == y[n - |d2|..];
      assert s1 == x[..|s1|];
      assert s2 == y[..|s2|];
    }
  }

  /** The directory name determines both the site name and the clock reading:
      runs at different milliseconds never share a directory, and runs at the
      same millisecond share one exactly when their site names agree. */
  lemma OutputDirInjective(s1: string, n1: nat, s2: string, n2: nat)
    requires OutputDir(s1, n1) == OutputDir(s2, n2)
    ensures s1 == s2 && n1 == n2
  {
    var p := "cloned_";
    assert OutputDir(s1, n1) == p + (s1 + "_" + NatToString(n1));
    assert OutputDir(s2, n2) == p + (s2 + "_" + NatToString(n2));
    assert s1 + "_" + NatToString(n1) == OutputDir(s1, n1)[|p|..];
    assert s2 + "_" + NatToString(n2) == OutputDir(s2, n2)[|p|..];
    UnderscoreThenDigits(s1, NatToString(n1), s2, NatToString(n2));
    NatToStringInjective(n1, n2);
  }
}
