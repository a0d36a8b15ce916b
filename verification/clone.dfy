/** One run of the clone tool, end to end: parse the URL, record the page's
    traffic, save every recorded resource and rewrite the page, add the meta
    block, and write the page and the manifest. The browser, the file system
    and the clock are inputs: the run is a function of what they report. */
module Clone {
  import opened Wrappers
  import opened Capture
  import opened Rewrite
  import opened Meta
  import opened Manifest

  /** What the browser reports: every completed exchange, in the order its
      buffer read finished, and the page's final HTML. */
  datatype Session = Session(responses: seq<Response>, snapshot: string)

  /** The run's surroundings.
      `hostname`: the host of the parsed URL, None when the URL does not parse.
      `session`: None when launching the browser, navigating or reading the
      page throws. `now`: milliseconds since the epoch; `clonedAt`: the ISO
      timestamp. `dirsCreated`: the output directory and its five
      sub-directories were made. `writeFails`: the URLs whose file write
      throws. `pathnames`: the path of each resource URL that parses.
      `indexWritten`, `manifestWritten`: the two final writes succeed. */
  datatype Env = Env(
    hostname: Option<string>,
    session: Option<Session>,
    now: nat,
    clonedAt: string,
    dirsCreated: bool,
    writeFails: set<string>,
    pathnames: map<string, string>,
    indexWritten: bool,
    manifestWritten: bool)

  /** `Rejected`: the URL does not parse, and the call rejects instead of
      returning a message. `Failed`: a step inside the guarded block threw and
      the failure message is returned. `Completed`: the page and the manifest
      were written. */
  datatype Outcome =
    | Rejected
    | Failed
    | Completed(directory: string, indexHtml: string, manifest: Manifest, assets: seq<Asset>)

  /** Every step outside the program's own logic goes through. */
  predicate Succeeds(env: Env) {
    env.hostname.Some? && env.session.Some? && env.dirsCreated && env.indexWritten && env.manifestWritten
  }

  /** The saved page before the meta block and the files written. */
  function SaveSession(s: Session, writeFails: set<string>, pathnames: map<string, string>): Saved {
    SaveAll(Entries(CaptureAll(s.responses).resources), s.snapshot, 0, writeFails, pathnames)
  }

  function Clone(url: string, env: Env): (o: Outcome)
    ensures o.Rejected? <==> env.hostname.None?
    ensures o.Completed? <==> Succeeds(env)
  {
    match env.hostname
    case None => Rejected
    case Some(host) =>
      var dir := OutputDir(SiteName(host), env.now);
      match env.session
      case None => Failed
      case Some(s) =>
        if !env.dirsCreated then Failed
        else
          var c := CaptureAll(s.responses);
          var saved := SaveSession(s, env.writeFails, env.pathnames);
          var page := InjectMeta(saved.html, url);
          if !env.indexWritten then Failed
          else
            var m := BuildManifest(url, env.clonedAt, c, dir);
            if !env.manifestWritten then Failed
            else Completed(dir, page, m, saved.assets)
  }

  /** What a completed run is made of. */
  lemma CompletedParts(url: string, env: Env)
    requires Succeeds(env)
    ensures var saved := SaveSession(env.session.value, env.writeFails, env.pathnames);
            && Clone(url, env).assets == saved.assets
            && Clone(url, env).indexHtml == InjectMeta(saved.html, url)
  {
  }

  /** A completed run writes to `cloned_<site name>_<now>`; its manifest
      records the URL, the time and that directory, counts the table and the
      failure set, and never lists more files than the table holds; the files
      are numbered from 0 without gaps, none of them a failed write; and taking
      the meta block out of the saved page gives the rewritten page back. */
  lemma CompletedRun(url: string, env: Env)
    requires Succeeds(env)
    ensures var o := Clone(url, env);
      var c := CaptureAll(env.session.value.responses);
      && o.directory == OutputDir(SiteName(env.hostname.value), env.now)
      && o.manifest.clonedDirectory == o.directory
      && o.manifest.originalUrl == url
      && o.manifest.clonedAt == env.clonedAt
      && o.manifest.totalResources == |c.resources.entries|
      && o.manifest.failedResources == |c.failed|
      && |o.assets| <= o.manifest.totalResources
      && (forall k :: 0 <= k < |o.assets| ==> o.assets[k].id == k)
      && (forall k :: 0 <= k < |o.assets| ==> o.assets[k].url !in env.writeFails)
      && RemoveMeta(o.indexHtml, url) == SaveSession(env.session.value, env.writeFails, env.pathnames).html
  {
    var s := env.session.value;
    var c := CaptureAll(s.responses);
    var saved := SaveSession(s, env.writeFails, env.pathnames);
    CompletedParts(url, env);
    MetaRoundTrip(saved.html, url);
    TableSize(c.resources);
  }

  /** Every file written is a resource of the table, that is, of an exchange
      that passed the capture test and had its bytes read. */
  lemma SavedAreStored(s: Session, writeFails: set<string>, pathnames: map<string, string>)
    ensures var saved := SaveSession(s, writeFails, pathnames);
            forall k :: 0 <= k < |saved.assets| ==>
              exists i :: 0 <= i < |s.responses| && IsStored(s.responses[i]) && s.responses[i].url == saved.assets[k].url
  {
    var rs := s.responses;
    var t := CaptureAll(rs).resources;
    var es := Entries(t);
    var saved := SaveSession(s, writeFails, pathnames);
    assert saved == SaveAll(es, s.snapshot, 0, writeFails, pathnames);
    SavedComeFromTable(es, s.snapshot, 0, writeFails, pathnames);
    forall k | 0 <= k < |saved.assets|
      ensures exists i :: 0 <= i < |rs| && IsStored(rs[i]) && rs[i].url == saved.assets[k].url
    {
      var j :| 0 <= j < |es| && es[j].0 == saved.assets[k].url;
      assert saved.assets[k].url in t.entries;
      StoredIff(rs, saved.assets[k].url);
    }
  }

  /** Every exchange that was stored and whose write succeeds gets a file. */
  lemma StoredAreSaved(s: Session, writeFails: set<string>, pathnames: map<string, string>, i: nat)
    requires i < |s.responses| && IsStored(s.responses[i]) && s.responses[i].url !in writeFails
    ensures var saved := SaveSession(s, writeFails, pathnames);
            exists k :: 0 <= k < |saved.assets| && saved.assets[k].url == s.responses[i].url
  {
    var rs := s.responses;
    var t := CaptureAll(rs).resources;
    var es := Entries(t);
    var u := rs[i].url;
    StoredIff(rs, u);
    assert SaveSession(s, writeFails, pathnames) == SaveAll(es, s.snapshot, 0, writeFails, pathnames);
    SavedFilesAreTheCommittedOnes(es, s.snapshot, 0, writeFails, pathnames);
    var j :| 0 <= j < |t.order| && t.order[j] == u;
    assert es[j].0 == u;
  }

  /** Files are written in the table's key order: of two URLs in the table
      whose writes succeed, the one earlier in the key order gets the earlier
      file and the smaller number, and no URL gets two files. The key order is
      the order of first stores (`KeyOrderIsFirstStoreOrder`). */
  lemma FilesInCaptureOrder(s: Session, writeFails: set<string>, pathnames: map<string, string>, a: nat, b: nat)
    requires var t := CaptureAll(s.responses).resources;
             a < b < |t.order| && t.order[a] !in writeFails && t.order[b] !in writeFails
    ensures var t := CaptureAll(s.responses).resources;
            var saved := SaveSession(s, writeFails, pathnames);
            exists ja, jb :: 0 <= ja < jb < |saved.assets|
              && saved.assets[ja].url == t.order[a] && saved.assets[jb].url == t.order[b]
              && saved.assets[ja].id < saved.assets[jb].id
    ensures var saved := SaveSession(s, writeFails, pathnames);
            forall j, k :: 0 <= j < k < |saved.assets| ==> saved.assets[j].url != saved.assets[k].url
  {
    var t := CaptureAll(s.responses).resources;
    var es := Entries(t);
    assert SaveSession(s, writeFails, pathnames) == SaveAll(es, s.snapshot, 0, writeFails, pathnames);
    SavedInTableOrder(es, s.snapshot, 0, writeFails, pathnames, a, b);
    assert DistinctKeys(es) by {
      forall i, j | 0 <= i < j < |es| ensures es[i].0 != es[j].0 {
        assert es[i].0 == t.order[i] && es[j].0 == t.order[j];
      }
    }
    SavedOncePerUrl(es, s.snapshot, 0, writeFails, pathnames);
  }

  /** For a URL without `$`, the page the run writes is exactly what
      agent.js's own string replacement produces. */
  lemma PageAsProgramWritesIt(url: string, env: Env)
    requires Succeeds(env) && NoDollar(url)
    ensures Clone(url, env).indexHtml
         == InjectMetaAsWritten(SaveSession(env.session.value, env.writeFails, env.pathnames).html, url)
  {
    var saved := SaveSession(env.session.value, env.writeFails, env.pathnames);
    CompletedParts(url, env);
    AsWrittenAgreesWithoutDollar(saved.html, url);
  }

  /** The manifest's totals do not depend on which writes fail: a resource
      whose file could not be written is still counted. */
  lemma TotalsIgnoreWriteFailures(url: string, env: Env, writeFails: set<string>)
    requires Succeeds(env)
    ensures Clone(url, env).manifest.totalResources
         == Clone(url, env.(writeFails := writeFails)).manifest.totalResources
    ensures Clone(url, env).manifest.failedResources
         == Clone(url, env.(writeFails := writeFails)).manifest.failedResources
  {
    CompletedRun(url, env);
    CompletedRun(url, env.(writeFails := writeFails));
  }

  /** A page whose traffic stores nothing is saved as it was, with only the
      meta block added, and the manifest counts nothing. */
  lemma NothingStoredOnlyMeta(url: string, env: Env)
    requires Succeeds(env)
    requires forall i :: 0 <= i < |env.session.value.responses| ==> !IsStored(env.session.value.responses[i])
    ensures Clone(url, env).indexHtml == InjectMeta(env.session.value.snapshot, url)
    ensures Clone(url, env).assets == []
    ensures Clone(url, env).manifest.totalResources == 0
  {
    var rs := env.session.value.responses;
    var t := CaptureAll(rs).resources;
    forall u | u in t.entries
      ensures false
    {
      StoredIff(rs, u);
    }
    TableSize(t);
    assert t.entries == map[];
  }
}
