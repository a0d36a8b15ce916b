/** The meta block put into the saved page: a charset declaration, a
    viewport directive and a `<base>` element pointing at the cloned URL,
    placed right after the first literal `<head>`.

    The program inserts it with `String.prototype.replace`, whose replacement
    text is a template: `$$`, `$&`, `` $` `` and `$'` in it are expanded. The
    URL is part of that template, so a URL containing one of these sequences
    is not copied into the `<base>` element as written. `InjectMetaAsWritten`
    models that call; `InjectMeta` is the literal insertion that was meant,
    and the two agree on every URL without a `$`. */
module Meta {
  import opened Wrappers
  import opened Text

  const HeadTag: string := "<head>"

  /** The block's text before and after the URL. The opening is written as
      short pieces so that `FixedTextDollarFree` can check it piece by piece. */
  const MetaOpening: string :=
    "\n    <meta charset=" + "\"UTF-8\">\n    <meta" + " name=\"viewport\" content"
    + "=\"width=device-width, " + "initial-scale=1.0\">\n    <base href=\""
  const MetaClosing: string := "\">\n"

  function MetaTags(url: string): string {
    MetaOpening + url + MetaClosing
  }

  lemma HeadSplice(html: string, url: string, i: nat)
    requires FirstOccurrence(html, HeadTag, i)
    ensures ReplaceFirst(html, HeadTag, HeadTag + MetaTags(url))
         == html[..i + |HeadTag|] + MetaTags(url) + html[i + |HeadTag|..]
  {
    assert html[..i] + HeadTag == html[..i + |HeadTag|];
  }

  /** The meta block goes in right after the first `<head>`, once; a page
      without a literal `<head>` (say `<head lang="en">`) is left as it is. */
  function InjectMeta(html: string, url: string): (r: string)
    ensures !Contains(html, HeadTag) ==> r == html
    ensures forall i: nat :: FirstOccurrence(html, HeadTag, i) ==>
              r == html[..i + |HeadTag|] + MetaTags(url) + html[i + |HeadTag|..]
  {
    if Contains(html, HeadTag) then
      var i := IndexOf(html, HeadTag).value;
      HeadSplice(html, url, i);
      ReplaceFirst(html, HeadTag, HeadTag + MetaTags(url))
    else html
  }

  /** Takes the block out again: the text right after the first `<head>`, if it
      is the block for `url`. */
  function RemoveMeta(r: string, url: string): string {
    match IndexOf(r, HeadTag)
    case None => r
    case Some(i) =>
      if StartsWith(r[i + |HeadTag|..], MetaTags(url))
      then r[..i + |HeadTag|] + r[i + |HeadTag| + |MetaTags(url)|..]
      else r
  }

  lemma FirstOccurrenceUnique(s: string, pat: string, i: nat, j: nat)
    requires FirstOccurrence(s, pat, i) && FirstOccurrence(s, pat, j)
    ensures i == j
  {
  }

  /** Text inserted after the first `<head>` leaves it the first. */
  lemma InsertKeepsFirstHead(html: string, m: string, i: nat)
    requires FirstOccurrence(html, HeadTag, i)
    ensures FirstOccurrence(html[..i + |HeadTag|] + m + html[i + |HeadTag|..], HeadTag, i)
  {
    var k := i + |HeadTag|;
    var r := html[..k] + m + html[k..];
    assert r[..k] == html[..k];
    assert r[i..k] == html[i..k];
    forall j: nat | j < i
      ensures !OccursAt(r, HeadTag, j)
    {
      assert !OccursAt(html, HeadTag, j);
      assert j + |HeadTag| <= k;
      assert r[j..j + |HeadTag|] == r[..k][j..j + |HeadTag|];
      assert html[j..j + |HeadTag|] == html[..k][j..j + |HeadTag|];
    }
  }

  lemma SpliceParts(a: string, m: string, b: string)
    ensures (a + m + b)[..|a|] == a
    ensures StartsWith((a + m + b)[|a|..], m)
    ensures (a + m + b)[|a| + |m|..] == b
  {
    assert (a + m + b)[|a|..] == m + b;
    assert (m + b)[..|m|] == m;
  }

  /** Injection keeps the first `<head>` where it was and can be undone: the
      page is the injected page with the block taken out. */
  lemma MetaRoundTrip(html: string, url: string)
    ensures RemoveMeta(InjectMeta(html, url), url) == html
  {
    if Contains(html, HeadTag) {
      var i := IndexOf(html, HeadTag).value;
      var m := MetaTags(url);
      var k := i + |HeadTag|;
      var r := html[..k] + m + html[k..];
      assert InjectMeta(html, url) == r;
      BlockAfterFirstHead(html, m, i);
    }
  }

  /** Any block inserted right after the first `<head>` is found again there,
      and cutting it out gives the page back. */
  lemma BlockAfterFirstHead(html: string, m: string, i: nat)
    requires FirstOccurrence(html, HeadTag, i)
    ensures var k := i + |HeadTag|;
            var r := html[..k] + m + html[k..];
            && IndexOf(r, HeadTag) == Some(i)
            && StartsWith(r[k..], m)
            && r[..k] + r[k + |m|..] == html
  {
    var k := i + |HeadTag|;
    var r := html[..k] + m + html[k..];
    InsertKeepsFirstHead(html, m, i);
    var found := IndexOf(r, HeadTag);
    assert OccursAt(r, HeadTag, i);
    assert found.Some?;
    FirstOccurrenceUnique(r, HeadTag, i, found.value);
    SpliceParts(html[..k], m, html[k..]);
    assert html[..k] + html[k..] == html;
  }

  /** The page grows by exactly the block when it has a `<head>`. */
  lemma InjectMetaLength(html: string, url: string)
    requires Contains(html, HeadTag)
    ensures |InjectMeta(html, url)| == |html| + |MetaTags(url)|
  {
    var i := IndexOf(html, HeadTag).value;
    assert |html[..i + |HeadTag|]| + |html[i + |HeadTag|..]| == |html|;
  }

  // ---------------------------------------------------------------------
  // The replacement template of String.prototype.replace

  /** The expansion of a replacement template for one match of a string
      pattern (no capture groups): `$$` is `$`, `$&` the matched text,
      `` $` `` the text before the match, `$'` the text after it; any other `$`
      stands for itself. */
  function Substitute(t: string, matched: string, before: string, after: string): string
    decreases |t|
  {
    if |t| == 0 then ""
    else if t[0] == '$' && |t| >= 2 && t[1] == '$' then "$" + Substitute(t[2..], matched, before, after)
    else if t[0] == '$' && |t| >= 2 && t[1] == '&' then matched + Substitute(t[2..], matched, before, after)
    else if t[0] == '$' && |t| >= 2 && t[1] == '`' then before + Substitute(t[2..], matched, before, after)
    else if t[0] == '$' && |t| >= 2 && t[1] == '\'' then after + Substitute(t[2..], matched, before, after)
    else [t[0]] + Substitute(t[1..], matched, before, after)
  }

  /** `s.replace(pat, template)` with a string pattern: the first occurrence is
      replaced by the expanded template. */
  function JsReplaceFirst(s: string, pat: string, template: string): string {
    match IndexOf(s, pat)
    case None => s
    case Some(i) =>
      s[..i] + Substitute(template, s[i..i + |pat|], s[..i], s[i + |pat|..]) + s[i + |pat|..]
  }

  /** The injection as the program performs it. */
  function InjectMetaAsWritten(html: string, url: string): (r: string)
    ensures !Contains(html, HeadTag) ==> r == html
  {
    if Contains(html, HeadTag) then JsReplaceFirst(html, HeadTag, HeadTag + MetaTags(url)) else html
  }

  predicate NoDollar(s: string) {
    forall k :: 0 <= k < |s| ==> s[k] != '$'
  }

  /** Text without `$` passes through the template expansion unchanged. */
  lemma {:induction false} SubstituteDollarFreePrefix(p: string, t: string, m: string, b: string, a: string)
    requires NoDollar(p)
    ensures Substitute(p + t, m, b, a) == p + Substitute(t, m, b, a)
    decreases |p|
  {
    if |p| > 0 {
      var q, rest := p + t, Substitute(t, m, b, a);
      assert q[0] == p[0] && q[0] != '$';
      assert q[1..] == p[1..] + t;
      assert Substitute(q, m, b, a) == [p[0]] + Substitute(p[1..] + t, m, b, a);
      assert NoDollar(p[1..]);
      SubstituteDollarFreePrefix(p[1..], t, m, b, a);
      Regroup([p[0]], p[1..], rest, "");
      assert [p[0]] + p[1..] == p;
    } else {
      assert p + t == t;
    }
  }

  lemma SubstituteDollarFree(p: string, m: string, b: string, a: string)
    requires NoDollar(p)
    ensures Substitute(p, m, b, a) == p
  {
    SubstituteDollarFreePrefix(p, "", m, b, a);
    assert p + "" == p;
  }

  lemma NoDollarConcat(a: string, b: string)
    requires NoDollar(a) && NoDollar(b)
    ensures NoDollar(a + b)
  {
    forall k | 0 <= k < |a + b|
      ensures (a + b)[k] != '$'
    {
      if k < |a| {
        assert (a + b)[k] == a[k];
      } else {
        assert (a + b)[k] == b[k - |a|];
      }
    }
  }

  lemma FixedTextDollarFree()
    ensures NoDollar(HeadTag) && NoDollar(MetaOpening) && NoDollar(MetaClosing)
  {
    var p1, p2, p3 := "\n    <meta charset=", "\"UTF-8\">\n    <meta", " name=\"viewport\" content";
    var p4, p5 := "=\"width=device-width, ", "initial-scale=1.0\">\n    <base href=\"";
    assert NoDollar(p1) && NoDollar(p2) && NoDollar(p3) && NoDollar(p4) && NoDollar(p5);
    NoDollarConcat(p1, p2);
    NoDollarConcat(p1 + p2, p3);
    NoDollarConcat(p1 + p2 + p3, p4);
    NoDollarConcat(p1 + p2 + p3 + p4, p5);
  }

  lemma TemplateDollarFree(url: string)
    requires NoDollar(url)
    ensures NoDollar(HeadTag + MetaTags(url))
  {
    FixedTextDollarFree();
    NoDollarConcat(MetaOpening, url);
    NoDollarConcat(MetaOpening + url, MetaClosing);
    NoDollarConcat(HeadTag, MetaOpening + url + MetaClosing);
    assert HeadTag + MetaTags(url) == HeadTag + (MetaOpening + url + MetaClosing);
  }

  /** `$&` between two stretches of plain text expands to the matched text. */
  lemma ExpandMatched(lead: string, tail: string, m: string, b: string, a: string)
    requires NoDollar(lead) && NoDollar(tail)
    ensures Substitute(lead + "$&" + tail, m, b, a) == lead + m + tail
  {
    assert lead + "$&" + tail == lead + ("$&" + tail);
    SubstituteDollarFreePrefix(lead, "$&" + tail, m, b, a);
    assert ("$&" + tail)[2..] == tail;
    SubstituteDollarFree(tail, m, b, a);
  }

  /** For a URL without `$` the program's injection is the literal one. */
  lemma AsWrittenAgreesWithoutDollar(html: string, url: string)
    requires NoDollar(url)
    ensures InjectMetaAsWritten(html, url) == InjectMeta(html, url)
  {
    if Contains(html, HeadTag) {
      var i := IndexOf(html, HeadTag).value;
      var t := HeadTag + MetaTags(url);
      TemplateDollarFree(url);
      SubstituteDollarFree(t, html[i..i + |HeadTag|], html[..i], html[i + |HeadTag|..]);
    }
  }

  /** A URL containing `$&` gets the matched `<head>` in its place inside the
      `<base>` element, so the injected block differs from the literal one. */
  lemma DollarAmpersandInsertsHead(html: string, u1: string, u2: string)
    requires Contains(html, HeadTag) && NoDollar(u1) && NoDollar(u2)
    ensures InjectMetaAsWritten(html, u1 + "$&" + u2) == InjectMeta(html, u1 + HeadTag + u2)
    ensures InjectMetaAsWritten(html, u1 + "$&" + u2) != InjectMeta(html, u1 + "$&" + u2)
  {
    DollarAmpersandExpands(html, u1, u2);
    InjectMetaLength(html, u1 + HeadTag + u2);
    InjectMetaLength(html, u1 + "$&" + u2);
  }

  /** The expansion step: `$&` in the template becomes the matched `<head>`. */
  lemma DollarAmpersandExpands(html: string, u1: string, u2: string)
    requires Contains(html, HeadTag) && NoDollar(u1) && NoDollar(u2)
    ensures InjectMetaAsWritten(html, u1 + "$&" + u2) == InjectMeta(html, u1 + HeadTag + u2)
  {
    var withDollar, withHead := u1 + "$&" + u2, u1 + HeadTag + u2;
    var i := IndexOf(html, HeadTag).value;
    var before, after := html[..i], html[i + |HeadTag|..];
    var matched := html[i..i + |HeadTag|];
    var lead, tail := HeadTag + MetaOpening + u1, u2 + MetaClosing;
    TemplateAroundDollarAmpersand(u1, u2);
    ExpandMatched(lead, tail, matched, before, after);
    assert matched == HeadTag;
    assert html[..i + |HeadTag|] == before + HeadTag;
    calc {
      InjectMetaAsWritten(html, withDollar);
      JsReplaceFirst(html, HeadTag, lead + "$&" + tail);
      before + Substitute(lead + "$&" + tail, matched, before, after) + after;
      before + (HeadTag + MetaTags(withHead)) + after;
      { Regroup(before, HeadTag, MetaTags(withHead), after); }
      html[..i + |HeadTag|] + MetaTags(withHead) + after;
      InjectMeta(html, withHead);
    }
  }

  /** The template for a URL `u1 + "$&" + u2` is dollar-free text around the
      one `$&`, and putting `<head>` in its place gives the block for the URL
      `u1 + "<head>" + u2`. */
  lemma TemplateAroundDollarAmpersand(u1: string, u2: string)
    requires NoDollar(u1) && NoDollar(u2)
    ensures var lead, tail := HeadTag + MetaOpening + u1, u2 + MetaClosing;
      && NoDollar(lead) && NoDollar(tail)
      && HeadTag + MetaTags(u1 + "$&" + u2) == lead + "$&" + tail
      && lead + HeadTag + tail == HeadTag + MetaTags(u1 + HeadTag + u2)
  {
    FixedTextDollarFree();
    NoDollarConcat(HeadTag, MetaOpening);
    NoDollarConcat(HeadTag + MetaOpening, u1);
    NoDollarConcat(u2, MetaClosing);
  }
}
