/** The save loop: the captured resources, in table order, are each written
    to their file and then rewritten in the page text, first by their full
    URL and then by their path. One counter, shared by every directory,
    numbers the files; it advances only once a resource's file is written
    and both rewrites are done. */
module Rewrite {
  import opened Wrappers
  import opened Text
  import opened Capture
  import opened Assets

  /** A resource whose file was written: its number, directory, file name and
      the path that replaces its URL in the page. */
  datatype Asset = Asset(
    url: string,
    id: nat,
    category: Category,
    fileName: string,
    relativePath: string)

  /** The file name and location a resource gets when the counter stands at `id`. */
  function Assign(url: string, res: Resource, id: nat): (a: Asset)
    ensures a.url == url && a.id == id
    ensures StartsWith(a.fileName, "asset_")
  {
    var fileName := FileName(id, res.extension);
    var c := Classify(res);
    Asset(url, id, c, fileName, RelativePath(c, fileName))
  }

  /** The path of a resource URL, when the URL parses. */
  function Lookup(pathnames: map<string, string>, url: string): Option<string> {
    if url in pathnames then Some(pathnames[url]) else None
  }

  /** The path pass runs only for a path that parsed and is neither empty nor `/`. */
  predicate RewritablePath(pathname: Option<string>) {
    pathname.Some? && pathname.value != "" && pathname.value != "/"
  }

  /** Both rewrites for one resource: every occurrence of the full URL, then
      every occurrence of its path. */
  function RewriteOne(html: string, url: string, rel: string, pathname: Option<string>): string {
    var afterUrl := ReplaceAll(html, url, rel);
    if RewritablePath(pathname) then ReplaceAll(afterUrl, pathname.value, rel) else afterUrl
  }

  /** What the loop leaves behind: the page text, the counter, and the files
      written, in the order they were written. */
  datatype Saved = Saved(html: string, count: nat, assets: seq<Asset>)

  /** The loop over the table's pairs. A resource whose write throws is
      skipped: the counter and the page text stay as they were. */
  function SaveAll(
    es: seq<(string, Resource)>, html: string, count: nat,
    writeFails: set<string>, pathnames: map<string, string>): (s: Saved)
    decreases |es|
    ensures s.count == count + |s.assets|
    ensures |s.assets| <= |es|
    ensures forall k :: 0 <= k < |s.assets| ==> s.assets[k].id == count + k
    ensures forall k :: 0 <= k < |s.assets| ==> s.assets[k].url !in writeFails
  {
    if |es| == 0 then Saved(html, count, [])
    else
      var (url, res) := es[0];
      if url in writeFails then SaveAll(es[1..], html, count, writeFails, pathnames)
      else
        var a := Assign(url, res, count);
        var h := RewriteOne(html, url, a.relativePath, Lookup(pathnames, url));
        var rest := SaveAll(es[1..], h, count + 1, writeFails, pathnames);
        Saved(rest.html, rest.count, [a] + rest.assets)
  }

  // ---------------------------------------------------------------------
  // The same loop described in three separate stages

  /** Stage 1: the pairs whose write succeeds, in table order. */
  function Committed(es: seq<(string, Resource)>, writeFails: set<string>): (cs: seq<(string, Resource)>)
    decreases |es|
    ensures |cs| <= |es|
    ensures forall k :: 0 <= k < |cs| ==> cs[k] in es && cs[k].0 !in writeFails
    ensures forall k :: 0 <= k < |es| && es[k].0 !in writeFails ==> es[k] in cs
  {
    if |es| == 0 then []
    else if es[0].0 in writeFails then Committed(es[1..], writeFails)
    else [es[0]] + Committed(es[1..], writeFails)
  }

  /** Stage 2: consecutive numbers from `start`. */
  function Number(cs: seq<(string, Resource)>, start: nat): (as_: seq<Asset>)
    decreases |cs|
  {
    if |cs| == 0 then [] else [Assign(cs[0].0, cs[0].1, start)] + Number(cs[1..], start + 1)
  }

  /** Stage 3: the two rewrites of each numbered resource, in order. */
  function RewriteWith(html: string, assets: seq<Asset>, pathnames: map<string, string>): string
    decreases |assets|
  {
    if |assets| == 0 then html
    else
      var a := assets[0];
      RewriteWith(RewriteOne(html, a.url, a.relativePath, Lookup(pathnames, a.url)), assets[1..], pathnames)
  }

  /** The loop is the three stages run one after the other: filter by write
      success, number from the counter's start, rewrite in that order. */
  lemma {:induction false} SaveAllIsStaged(
    es: seq<(string, Resource)>, html: string, count: nat,
    writeFails: set<string>, pathnames: map<string, string>)
    ensures var assets := Number(Committed(es, writeFails), count);
            SaveAll(es, html, count, writeFails, pathnames)
            == Saved(RewriteWith(html, assets, pathnames), count + |assets|, assets)
    decreases |es|
  {
    if |es| > 0 {
      var (url, res) := es[0];
      if url in writeFails {
        SaveAllIsStaged(es[1..], html, count, writeFails, pathnames);
      } else {
        var a := Assign(url, res, count);
        var h := RewriteOne(html, url, a.relativePath, Lookup(pathnames, url));
        SaveAllIsStaged(es[1..], h, count + 1, writeFails, pathnames);
        var cs := Committed(es, writeFails);
        assert cs == [es[0]] + Committed(es[1..], writeFails);
        assert cs[1..] == Committed(es[1..], writeFails);
        var assets := Number(cs, count);
        assert assets == [a] + Number(cs[1..], count + 1);
        assert assets[1..] == Number(cs[1..], count + 1);
      }
    }
  }

  /** A resource whose write throws leaves no trace: the rest of the loop runs
      exactly as if it were not in the table. */
  lemma FailedWriteLeavesNoTrace(
    url: string, res: Resource, es: seq<(string, Resource)>, html: string, count: nat,
    writeFails: set<string>, pathnames: map<string, string>)
    requires url in writeFails
    ensures SaveAll([(url, res)] + es, html, count, writeFails, pathnames)
         == SaveAll(es, html, count, writeFails, pathnames)
  {
    assert ([(url, res)] + es)[1..] == es;
  }

  /** Every pair of the table whose write succeeds gets a file; the numbers
      run from the counter's start without gaps or repeats, in table order. */
  lemma SavedFilesAreTheCommittedOnes(
    es: seq<(string, Resource)>, html: string, count: nat,
    writeFails: set<string>, pathnames: map<string, string>)
    ensures var s := SaveAll(es, html, count, writeFails, pathnames);
            forall k :: 0 <= k < |es| && es[k].0 !in writeFails ==>
              exists j :: 0 <= j < |s.assets| && s.assets[j].url == es[k].0
  {
    SaveAllIsStaged(es, html, count, writeFails, pathnames);
    var cs := Committed(es, writeFails);
    NumberKeepsUrls(cs, count);
    var s := SaveAll(es, html, count, writeFails, pathnames);
    forall k | 0 <= k < |es| && es[k].0 !in writeFails
      ensures exists j :: 0 <= j < |s.assets| && s.assets[j].url == es[k].0
    {
      assert es[k] in cs;
      var j :| 0 <= j < |cs| && cs[j] == es[k];
      assert s.assets[j].url == es[k].0;
    }
  }

  /** Every file written belongs to a pair of the table. */
  lemma SavedComeFromTable(
    es: seq<(string, Resource)>, html: string, count: nat,
    writeFails: set<string>, pathnames: map<string, string>)
    ensures var s := SaveAll(es, html, count, writeFails, pathnames);
            forall k :: 0 <= k < |s.assets| ==>
              exists j :: 0 <= j < |es| && es[j].0 == s.assets[k].url
  {
    SaveAllIsStaged(es, html, count, writeFails, pathnames);
    var cs := Committed(es, writeFails);
    NumberKeepsUrls(cs, count);
    var s := SaveAll(es, html, count, writeFails, pathnames);
    forall k | 0 <= k < |s.assets|
      ensures exists j :: 0 <= j < |es| && es[j].0 == s.assets[k].url
    {
      assert s.assets[k].url == cs[k].0;
      assert cs[k] in es;
      var j :| 0 <= j < |es| && es[j] == cs[k];
    }
  }

  /** The pairs kept appear in the same relative order as in the table. */
  lemma CommittedKeepsOrder(es: seq<(string, Resource)>, writeFails: set<string>, a: nat, b: nat)
    requires a < b < |es| && es[a].0 !in writeFails && es[b].0 !in writeFails
    ensures exists ja, jb :: 0 <= ja < jb < |Committed(es, writeFails)|
              && Committed(es, writeFails)[ja] == es[a] && Committed(es, writeFails)[jb] == es[b]
  {
    var ja, jb := CommittedPositions(es, writeFails, a, b);
  }

  /** Where two kept pairs end up, in table order. */
  lemma {:induction false} CommittedPositions(es: seq<(string, Resource)>, writeFails: set<string>, a: nat, b: nat)
    returns (ja: nat, jb: nat)
    requires a < b < |es| && es[a].0 !in writeFails && es[b].0 !in writeFails
    ensures ja < jb < |Committed(es, writeFails)|
    ensures Committed(es, writeFails)[ja] == es[a] && Committed(es, writeFails)[jb] == es[b]
    decreases |es|
  {
    assert es[1..][b - 1] == es[b];
    if es[0].0 in writeFails {
      assert es[1..][a - 1] == es[a];
      ja, jb := CommittedPositions(es[1..], writeFails, a - 1, b - 1);
    } else if a == 0 {
      var j := CommittedPosition(es[1..], writeFails, b - 1);
      ja, jb := 0, j + 1;
    } else {
      assert es[1..][a - 1] == es[a];
      var ia, ib := CommittedPositions(es[1..], writeFails, a - 1, b - 1);
      ja, jb := ia + 1, ib + 1;
    }
  }

  /** Where one kept pair ends up. */
  lemma {:induction false} CommittedPosition(es: seq<(string, Resource)>, writeFails: set<string>, b: nat)
    returns (j: nat)
    requires b < |es| && es[b].0 !in writeFails
    ensures j < |Committed(es, writeFails)| && Committed(es, writeFails)[j] == es[b]
    decreases |es|
  {
    if b == 0 {
      j := 0;
    } else {
      assert es[1..][b - 1] == es[b];
      var i := CommittedPosition(es[1..], writeFails, b - 1);
      j := if es[0].0 in writeFails then i else i + 1;
    }
  }

  /** No URL occurs twice among the pairs. */
  predicate DistinctKeys(es: seq<(string, Resource)>) {
    forall i, j :: 0 <= i < j < |es| ==> es[i].0 != es[j].0
  }

  /** Keeping some of the pairs keeps their URLs distinct. */
  lemma {:induction false} CommittedDistinct(es: seq<(string, Resource)>, writeFails: set<string>)
    requires DistinctKeys(es)
    ensures DistinctKeys(Committed(es, writeFails))
    decreases |es|
  {
    if |es| > 0 {
      var rest := Committed(es[1..], writeFails);
      assert DistinctKeys(es[1..]) by {
        forall i, j | 0 <= i < j < |es[1..]|
          ensures es[1..][i].0 != es[1..][j].0
        {
          assert es[1..][i] == es[i + 1] && es[1..][j] == es[j + 1];
        }
      }
      CommittedDistinct(es[1..], writeFails);
      if es[0].0 !in writeFails {
        var cs := [es[0]] + rest;
        forall j | 0 <= j < |rest|
          ensures rest[j].0 != es[0].0
        {
          assert rest[j] in es[1..];
          var k :| 0 <= k < |es[1..]| && es[1..][k] == rest[j];
          assert es[1..][k] == es[k + 1];
        }
        forall i, j | 0 <= i < j < |cs|
          ensures cs[i].0 != cs[j].0
        {
          if i == 0 {
            assert cs[j] == rest[j - 1];
          } else {
            assert cs[i] == rest[i - 1] && cs[j] == rest[j - 1];
          }
        }
      }
    }
  }

  /** One file per kept pair, no more and no fewer. */
  lemma SavedCountIsCommitted(
    es: seq<(string, Resource)>, html: string, count: nat,
    writeFails: set<string>, pathnames: map<string, string>)
    ensures |SaveAll(es, html, count, writeFails, pathnames).assets| == |Committed(es, writeFails)|
    ensures forall k :: 0 <= k < |Committed(es, writeFails)| ==>
              SaveAll(es, html, count, writeFails, pathnames).assets[k]
              == Assign(Committed(es, writeFails)[k].0, Committed(es, writeFails)[k].1, count + k)
  {
    SaveAllIsStaged(es, html, count, writeFails, pathnames);
    NumberAssigns(Committed(es, writeFails), count);
  }

  /** Files are numbered in table order: of two pairs whose writes succeed,
      the earlier in the table gets the smaller number. */
  lemma SavedInTableOrder(
    es: seq<(string, Resource)>, html: string, count: nat,
    writeFails: set<string>, pathnames: map<string, string>, a: nat, b: nat)
    requires a < b < |es| && es[a].0 !in writeFails && es[b].0 !in writeFails
    ensures var s := SaveAll(es, html, count, writeFails, pathnames);
            exists ja, jb :: 0 <= ja < jb < |s.assets|
              && s.assets[ja].url == es[a].0 && s.assets[jb].url == es[b].0
              && s.assets[ja].id < s.assets[jb].id
  {
    var s := SaveAll(es, html, count, writeFails, pathnames);
    var cs := Committed(es, writeFails);
    SavedCountIsCommitted(es, html, count, writeFails, pathnames);
    CommittedKeepsOrder(es, writeFails, a, b);
    var ja, jb :| 0 <= ja < jb < |cs| && cs[ja] == es[a] && cs[jb] == es[b];
    assert s.assets[ja].url == es[a].0 && s.assets[jb].url == es[b].0;
  }

  /** When the table's URLs are distinct, as a `Map`'s keys are, each URL gets
      at most one file. */
  lemma SavedOncePerUrl(
    es: seq<(string, Resource)>, html: string, count: nat,
    writeFails: set<string>, pathnames: map<string, string>)
    requires DistinctKeys(es)
    ensures var s := SaveAll(es, html, count, writeFails, pathnames);
            forall j, k :: 0 <= j < k < |s.assets| ==> s.assets[j].url != s.assets[k].url
  {
    var s := SaveAll(es, html, count, writeFails, pathnames);
    var cs := Committed(es, writeFails);
    SavedCountIsCommitted(es, html, count, writeFails, pathnames);
    CommittedDistinct(es, writeFails);
    forall j, k | 0 <= j < k < |s.assets|
      ensures s.assets[j].url != s.assets[k].url
    {
      assert s.assets[j].url == cs[j].0 && s.assets[k].url == cs[k].0;
    }
  }

  lemma {:induction false} NumberKeepsUrls(cs: seq<(string, Resource)>, start: nat)
    ensures |Number(cs, start)| == |cs|
    ensures forall k :: 0 <= k < |cs| ==> Number(cs, start)[k].url == cs[k].0
    decreases |cs|
  {
    if |cs| > 0 {
      NumberKeepsUrls(cs[1..], start + 1);
    }
  }

  /** Two files written by one loop never share a path, provided no extension
      starts with a digit. */
  lemma SavedPathsDistinct(
    es: seq<(string, Resource)>, html: string, count: nat,
    writeFails: set<string>, pathnames: map<string, string>, j: nat, k: nat)
    requires forall i :: 0 <= i < |es| ==> SeparableExtension(es[i].1.extension)
    requires j < k < |SaveAll(es, html, count, writeFails, pathnames).assets|
    ensures var s := SaveAll(es, html, count, writeFails, pathnames);
            s.assets[j].relativePath != s.assets[k].relativePath
  {
    SaveAllIsStaged(es, html, count, writeFails, pathnames);
    var cs := Committed(es, writeFails);
    NumberAssigns(cs, count);
    assert SaveAll(es, html, count, writeFails, pathnames).assets == Number(cs, count);
    forall i | 0 <= i < |cs|
      ensures SeparableExtension(cs[i].1.extension)
    {
      assert cs[i] in es;
      var w :| 0 <= w < |es| && es[w] == cs[i];
      assert SeparableExtension(es[w].1.extension);
    }
    NumberedPathsDistinct(cs, count, j, k);
  }

  lemma NumberedPathsDistinct(cs: seq<(string, Resource)>, start: nat, j: nat, k: nat)
    requires forall i :: 0 <= i < |cs| ==> SeparableExtension(cs[i].1.extension)
    requires j < k < |cs|
    ensures |Number(cs, start)| == |cs|
    ensures Number(cs, start)[j].relativePath != Number(cs, start)[k].relativePath
  {
    NumberAssigns(cs, start);
    var a := Assign(cs[j].0, cs[j].1, start + j);
    var b := Assign(cs[k].0, cs[k].1, start + k);
    assert a.relativePath == RelativePath(a.category, FileName(start + j, cs[j].1.extension));
    assert b.relativePath == RelativePath(b.category, FileName(start + k, cs[k].1.extension));
    PathsOfDifferentIds(start + j, cs[j].1.extension, a.category, start + k, cs[k].1.extension, b.category);
    assert Number(cs, start)[j] == a && Number(cs, start)[k] == b;
  }

  /** Two different counters never share a path, whatever the directories. */
  lemma PathsOfDifferentIds(m: nat, e1: string, c1: Category, n: nat, e2: string, c2: Category)
    requires m != n && SeparableExtension(e1) && SeparableExtension(e2)
    ensures RelativePath(c1, FileName(m, e1)) != RelativePath(c2, FileName(n, e2))
  {
    if RelativePath(c1, FileName(m, e1)) == RelativePath(c2, FileName(n, e2)) {
      RelativePathInjective(c1, FileName(m, e1), c2, FileName(n, e2));
      FileNameInjective(m, e1, n, e2);
    }
  }

  lemma {:induction false} NumberAssigns(cs: seq<(string, Resource)>, start: nat)
    ensures |Number(cs, start)| == |cs|
    ensures forall k :: 0 <= k < |cs| ==> Number(cs, start)[k] == Assign(cs[k].0, cs[k].1, start + k)
    decreases |cs|
  {
    if |cs| > 0 {
      NumberAssigns(cs[1..], start + 1);
      var ns := Number(cs, start);
      assert ns == [Assign(cs[0].0, cs[0].1, start)] + Number(cs[1..], start + 1);
      forall k | 0 <= k < |cs|
        ensures ns[k] == Assign(cs[k].0, cs[k].1, start + k)
      {
        if k > 0 {
          assert cs[1..][k - 1] == cs[k];
        }
      }
    }
  }

  // ---------------------------------------------------------------------
  // The two passes for one resource

  /** A page that mentions neither the URL nor a rewritable path is left as it is. */
  lemma RewriteOneUntouched(html: string, url: string, rel: string, pathname: Option<string>)
    requires |url| > 0 && !Contains(html, url)
    requires RewritablePath(pathname) ==> !Contains(html, pathname.value)
    ensures RewriteOne(html, url, rel, pathname) == html
  {
    ReplaceAllWithoutMatch(html, url, rel);
    if RewritablePath(pathname) {
      ReplaceAllWithoutMatch(html, pathname.value, rel);
    }
  }

  /** The root path and an empty path are never rewritten on their own, and a
      URL whose path does not parse still gets its full-URL pass. */
  lemma OnlyUrlPassWithoutPath(html: string, url: string, rel: string, p: Option<string>)
    requires p.None? || p == Some("") || p == Some("/")
    ensures RewriteOne(html, url, rel, p) == ReplaceAll(html, url, rel)
  {
  }

  lemma WholeTextReplaced(s: string, rep: string)
    requires |s| > 0
    ensures ReplaceAll(s, s, rep) == rep
  {
    ReplaceAllIsSplitJoin(s, s, rep);
    assert OccursAt(s, s, 0);
    assert s[|s|..] == "";
    assert IndexOf("", s).None? by {
      forall j: nat
        ensures !OccursAt("", s, j)
      {
      }
    }
    assert Split(s, s) == ["", ""];
  }

  /** The path pass runs after the URL pass of the same resource and can
      reach into the path that pass has just written: when the resource's own
      path occurs inside its local path, a reference written as the full URL
      does not end up as the local path. */
  lemma PathPassCanHitOwnLocalPath(url: string, rel: string, p: string)
    requires |url| > 0
    requires RewritablePath(Some(p)) && Contains(rel, p) && p != rel
    ensures RewriteOne(url, url, rel, Some(p)) != rel
  {
    WholeTextReplaced(url, rel);
    assert RewriteOne(url, url, rel, Some(p)) == ReplaceAll(rel, p, rel);
    var i :| OccursAt(rel, p, i);
    assert |p| < |rel|;
    ReplaceAllLength(rel, p, rel);
    MatchCountPositive(rel, p);
    ProductPositive(MatchCount(rel, p), |rel| - |p|);
  }

  /** The path pass of one resource also runs over the full URLs of the
      resources still to come. When a later URL ends in an earlier resource's
      path, and that path first occurs there, the earlier resource's passes
      rewrite inside the later URL, so the later URL pass no longer finds it. */
  lemma EarlierPathReachesLaterUrl(url: string, rel: string, p: string, host: string)
    requires |url| > 0 && !Contains(host + p, url)
    requires RewritablePath(Some(p)) && FirstOccurrence(host + p, p, |host|)
    ensures RewriteOne(host + p, url, rel, Some(p)) == host + rel
    ensures rel != p ==> RewriteOne(host + p, url, rel, Some(p)) != host + p
  {
    var later := host + p;
    ReplaceAllWithoutMatch(later, url, rel);
    ReplaceAllIsSplitJoin(later, p, rel);
    assert IndexOf(later, p) == Some(|host|);
    assert later[..|host|] == host && later[|host| + |p|..] == "";
    assert IndexOf("", p).None? by {
      forall j: nat
        ensures !OccursAt("", p, j)
      {
      }
    }
    assert Split(later, p) == [host, ""];
    assert host + rel + "" == host + rel;
    if rel != p {
      assert (host + rel)[|host|..] == rel && later[|host|..] == p;
    }
  }

  /** An instance: `/a.css` of `https://h/a.css`, processed first, turns a
      reference to `https://cdn.test/a.css` into `https://cdn.test./css/asset_0.css`. */
  lemma CdnUrlRewrittenByEarlierPath(later: string, url: string, rel: string, p: string)
    requires later == "https://cdn.test/a.css" && url == "https://h/a.css"
    requires rel == "./css/asset_0.css" && p == "/a.css"
    ensures RewriteOne(later, url, rel, Some(p)) == "https://cdn.test./css/asset_0.css"
  {
    var host := "https://cdn.test";
    assert later == host + p;
    OtherHostHasNoMatch(host, p, url);
    PathFirstAtEnd(host, p);
    EarlierPathReachesLaterUrl(url, rel, p, host);
  }

  /** `https://h/a.css` does not occur in `https://cdn.test/a.css`. */
  lemma OtherHostHasNoMatch(host: string, p: string, url: string)
    requires host == "https://cdn.test" && p == "/a.css" && url == "https://h/a.css"
    ensures !Contains(host + p, url)
  {
    forall j: nat
      ensures !OccursAt(host + p, url, j)
    {
      if j + |url| <= |host + p| {
        assert (host + p)[j + 8] != url[8];
      }
    }
  }

  /** `/a.css` first occurs in `https://cdn.test/a.css` where the host ends. */
  lemma PathFirstAtEnd(host: string, p: string)
    requires host == "https://cdn.test" && p == "/a.css"
    ensures FirstOccurrence(host + p, p, |host|)
  {
    forall j: nat | j < |host|
      ensures !OccursAt(host + p, p, j)
    {
      assert (host + p)[j + 1] != p[1];
    }
    assert (host + p)[|host|..] == p;
  }

  lemma ProductPositive(a: int, b: int)
    requires a >= 1 && b >= 1
    ensures a * b >= 1
  {
  }
}
