/** Recording the page's network traffic: which completed exchanges are kept,
    and the two collections they are kept in. The resource table is a
    JavaScript `Map`, so besides its key/value pairs it remembers the order in
    which keys were first inserted; writing an existing key replaces its value
    and keeps its place. */
module Capture {
  import opened Wrappers
  import opened Text

  newtype byte = b: int | 0 <= b < 256

  /** A completed exchange as the page reports it, in the order the buffer
      reads finish. `contentType` is the `content-type` header, absent when the
      server sent none; `body` is None when reading the buffer throws;
      `extension` is what the extension helper yields for the exchange. */
  datatype Response = Response(
    url: string,
    resourceType: string,
    contentType: Option<string>,
    body: Option<seq<byte>>,
    extension: string)

  /** A captured resource, as stored under its URL. */
  datatype Resource = Resource(
    resourceType: string,
    content: seq<byte>,
    contentType: string,
    extension: string)

  /** The resource types captured whatever their content type. */
  const CapturedTypes: set<string> := {"stylesheet", "script", "image", "font", "media"}

  /** The capture test: a captured resource type, or a content type that
      mentions `css` or `javascript`. */
  predicate IsEligible(r: Response) {
    || r.resourceType in CapturedTypes
    || (r.contentType.Some? && Contains(r.contentType.value, "css"))
    || (r.contentType.Some? && Contains(r.contentType.value, "javascript"))
  }

  /** An eligible exchange whose bytes were read: it goes into the table. */
  predicate IsStored(r: Response) {
    IsEligible(r) && r.body.Some?
  }

  /** An eligible exchange whose buffer read threw: it goes into the failure set. */
  predicate IsFailed(r: Response) {
    IsEligible(r) && r.body.None?
  }

  /** The record kept for a stored exchange; a missing header is kept as "". */
  function ToResource(r: Response): Resource
    requires r.body.Some?
  {
    Resource(r.resourceType, r.body.value, r.contentType.GetOr(""), r.extension)
  }

  predicate Distinct(s: seq<string>) {
    forall i, j :: 0 <= i < j < |s| ==> s[i] != s[j]
  }

  /** A `Map` from URL to resource: its pairs and its key order. */
  datatype Table = Table(order: seq<string>, entries: map<string, Resource>) {
    predicate Valid() {
      && Distinct(order)
      && (forall u :: u in entries ==> u in order)
      && (forall i :: 0 <= i < |order| ==> order[i] in entries)
    }
  }

  const EmptyTable: Table := Table([], map[])

  /** `table.set(url, res)`: the new value replaces any earlier one; a new key
      goes to the end of the order, an existing key keeps its place. */
  function Put(t: Table, url: string, res: Resource): (r: Table)
    requires t.Valid()
    ensures r.Valid()
    ensures r.entries == t.entries[url := res]
    ensures url in t.entries ==> r.order == t.order
    ensures url !in t.entries ==> r.order == t.order + [url]
  {
    if url in t.entries then Table(t.order, t.entries[url := res])
    else Table(t.order + [url], t.entries[url := res])
  }

  /** The pairs of a table in iteration order. */
  function Entries(t: Table): (es: seq<(string, Resource)>)
    requires t.Valid()
    ensures |es| == |t.order|
    ensures forall i :: 0 <= i < |es| ==> es[i].0 == t.order[i] && es[i].1 == t.entries[t.order[i]]
  {
    seq(|t.order|, i requires 0 <= i < |t.order| => (t.order[i], t.entries[t.order[i]]))
  }

  /** What one capture run has recorded so far. */
  datatype Captures = Captures(resources: Table, failed: set<string>)

  const NoCaptures: Captures := Captures(EmptyTable, {})

  /** The response handler: an ineligible exchange is ignored; an eligible one
      is stored under its URL, or its URL joins the failure set when the
      buffer read throws. */
  function Observe(c: Captures, r: Response): (c': Captures)
    requires c.resources.Valid()
    ensures c'.resources.Valid()
    ensures !IsStored(r) ==> c'.resources == c.resources
    ensures IsStored(r) ==> c'.resources.entries == c.resources.entries[r.url := ToResource(r)]
    ensures c'.failed == if IsFailed(r) then c.failed + {r.url} else c.failed
  {
    if !IsEligible(r) then c
    else if r.body.Some? then Captures(Put(c.resources, r.url, ToResource(r)), c.failed)
    else Captures(c.resources, c.failed + {r.url})
  }

  /** Every response of a run, handled in order. */
  function CaptureAll(rs: seq<Response>): (c: Captures)
    decreases |rs|
    ensures c.resources.Valid()
  {
    if |rs| == 0 then NoCaptures else Observe(CaptureAll(rs[..|rs| - 1]), rs[|rs| - 1])
  }

  /** The responses the capture test admits, in order. */
  function EligibleOnly(rs: seq<Response>): (es: seq<Response>)
    decreases |rs|
    ensures forall i :: 0 <= i < |es| ==> IsEligible(es[i])
  {
    if |rs| == 0 then []
    else if IsEligible(rs[|rs| - 1]) then EligibleOnly(rs[..|rs| - 1]) + [rs[|rs| - 1]]
    else EligibleOnly(rs[..|rs| - 1])
  }

  /** A URL is in the table exactly when some eligible exchange for it had its
      bytes read. */
  lemma {:induction false} StoredIff(rs: seq<Response>, url: string)
    ensures url in CaptureAll(rs).resources.entries
        <==> exists i :: 0 <= i < |rs| && IsStored(rs[i]) && rs[i].url == url
    decreases |rs|
  {
    if |rs| > 0 {
      var init := rs[..|rs| - 1];
      StoredIff(init, url);
      if exists i :: 0 <= i < |init| && IsStored(init[i]) && init[i].url == url {
        var i :| 0 <= i < |init| && IsStored(init[i]) && init[i].url == url;
        assert rs[i] == init[i];
      }
      if exists i :: 0 <= i < |rs| && IsStored(rs[i]) && rs[i].url == url {
        var i :| 0 <= i < |rs| && IsStored(rs[i]) && rs[i].url == url;
        if i < |rs| - 1 {
          assert init[i] == rs[i];
        }
      }
    }
  }

  /** A URL is in the failure set exactly when some eligible exchange for it
      had its buffer read throw. A URL can be in both collections. */
  lemma {:induction false} FailedIff(rs: seq<Response>, url: string)
    ensures url in CaptureAll(rs).failed
        <==> exists i :: 0 <= i < |rs| && IsFailed(rs[i]) && rs[i].url == url
    decreases |rs|
  {
    if |rs| > 0 {
      var init := rs[..|rs| - 1];
      FailedIff(init, url);
      if exists i :: 0 <= i < |init| && IsFailed(init[i]) && init[i].url == url {
        var i :| 0 <= i < |init| && IsFailed(init[i]) && init[i].url == url;
        assert rs[i] == init[i];
      }
      if exists i :: 0 <= i < |rs| && IsFailed(rs[i]) && rs[i].url == url {
        var i :| 0 <= i < |rs| && IsFailed(rs[i]) && rs[i].url == url;
        if i < |rs| - 1 {
          assert init[i] == rs[i];
        }
      }
    }
  }

  /** A URL is recorded, in the table or the failure set, exactly when some
      exchange for it passed the capture test. */
  lemma RecordedIffEligible(rs: seq<Response>, url: string)
    ensures (url in CaptureAll(rs).resources.entries || url in CaptureAll(rs).failed)
        <==> exists i :: 0 <= i < |rs| && IsEligible(rs[i]) && rs[i].url == url
  {
    StoredIff(rs, url);
    FailedIff(rs, url);
    if exists i :: 0 <= i < |rs| && IsEligible(rs[i]) && rs[i].url == url {
      var i :| 0 <= i < |rs| && IsEligible(rs[i]) && rs[i].url == url;
      assert IsStored(rs[i]) || IsFailed(rs[i]);
    }
  }

  /** Last write wins: the table holds the record of the last exchange for
      the URL whose bytes were read, whatever came earlier. */
  lemma {:induction false} LastWriteWins(rs: seq<Response>, i: nat)
    requires i < |rs| && IsStored(rs[i])
    requires forall j :: i < j < |rs| ==> !(IsStored(rs[j]) && rs[j].url == rs[i].url)
    ensures rs[i].url in CaptureAll(rs).resources.entries
    ensures CaptureAll(rs).resources.entries[rs[i].url] == ToResource(rs[i])
    decreases |rs|
  {
    if i < |rs| - 1 {
      var init := rs[..|rs| - 1];
      forall j | i < j < |init|
        ensures !(IsStored(init[j]) && init[j].url == init[i].url)
      {
        assert init[j] == rs[j];
      }
      LastWriteWins(init, i);
    }
  }

  /** Later exchanges never reorder the table: the key order of a run is a
      prefix of the key order of any longer run. */
  lemma {:induction false} OrderOnlyGrows(rs: seq<Response>, more: seq<Response>)
    ensures CaptureAll(rs).resources.order <= CaptureAll(rs + more).resources.order
    decreases |more|
  {
    if |more| > 0 {
      var init := more[..|more| - 1];
      OrderOnlyGrows(rs, init);
      assert (rs + more)[..|rs + more| - 1] == rs + init;
    } else {
      assert rs + more == rs;
    }
  }

  /** The table's key order is the order of first successful stores: when the
      exchange at `j` is the first stored one for its URL, any URL stored
      earlier comes before it in the key order. */
  lemma KeyOrderIsFirstStoreOrder(rs: seq<Response>, i: nat, j: nat)
    requires i < j < |rs| && IsStored(rs[i]) && IsStored(rs[j])
    requires forall k :: 0 <= k < j ==> !(IsStored(rs[k]) && rs[k].url == rs[j].url)
    ensures var order := CaptureAll(rs).resources.order;
            exists a, b :: 0 <= a < b < |order| && order[a] == rs[i].url && order[b] == rs[j].url
  {
    var before, upTo := rs[..j], rs[..j + 1];
    var t := CaptureAll(before).resources;
    StoredIff(before, rs[i].url);
    assert before[i] == rs[i];
    StoredIff(before, rs[j].url);
    assert rs[j].url !in t.entries;
    assert upTo[..j] == before;
    assert CaptureAll(upTo).resources.order == t.order + [rs[j].url];
    var a :| 0 <= a < |t.order| && t.order[a] == rs[i].url;
    var b := |t.order|;
    OrderOnlyGrows(upTo, rs[j + 1..]);
    assert upTo + rs[j + 1..] == rs;
    var order := CaptureAll(rs).resources.order;
    assert order[a] == rs[i].url && order[b] == rs[j].url;
  }

  /** Dropping the exchanges the capture test refuses changes nothing. */
  lemma {:induction false} IneligibleChangeNothing(rs: seq<Response>)
    ensures CaptureAll(EligibleOnly(rs)) == CaptureAll(rs)
    decreases |rs|
  {
    if |rs| > 0 {
      var init := rs[..|rs| - 1];
      IneligibleChangeNothing(init);
      if IsEligible(rs[|rs| - 1]) {
        var es := EligibleOnly(init) + [rs[|rs| - 1]];
        assert es[..|es| - 1] == EligibleOnly(init);
      }
    }
  }

  lemma {:induction false} DistinctSize(s: seq<string>)
    requires Distinct(s)
    ensures |set u | u in s| == |s|
    decreases |s|
  {
    if |s| > 0 {
      var init := s[..|s| - 1];
      DistinctSize(init);
      assert (set u | u in s) == (set u | u in init) + {s[|s| - 1]};
      assert s[|s| - 1] !in init;
    }
  }

  /** The table's size (`resources.size`) is the length of its key order. */
  lemma TableSize(t: Table)
    requires t.Valid()
    ensures |t.entries| == |t.order|
  {
    DistinctSize(t.order);
    assert t.entries.Keys == set u | u in t.order;
  }
}
