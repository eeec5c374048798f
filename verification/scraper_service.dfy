/** `scrapeUrls` of the client service: the `results` object of the response,
    flattened into one list of images. */
module ScraperService {
  import opened Wrappers
  import opened Extractor
  import opened Batch

  /** One value of the response's `results` object, as the client declares it:
      every field but `success` may be missing. */
  datatype ClientResult = ClientResult(success: bool, count: Option<int>, images: Option<seq<Image>>,
                                       error: Option<string>)

  /** One pair of `Object.entries(response.data.results)`. */
  datatype ClientEntry = ClientEntry(url: string, result: ClientResult)

  /** The images an entry adds: those of a successful entry with a non-empty
      `images` list, and none otherwise. */
  function Contribution(r: ClientResult): (images: seq<Image>)
    ensures !r.success || r.images.None? ==> images == []
    ensures r.success && r.images.Some? ==> images == r.images.value
  {
    if r.success && r.images.Some? && |r.images.value| > 0 then r.images.value else []
  }

  /** The reference definition: the contributions of the entries, concatenated
      in entry order. */
  function SuccessfulImages(entries: seq<ClientEntry>): seq<Image>
    decreases |entries|
  {
    if entries == [] then []
    else
      var n := |entries| - 1;
      SuccessfulImages(entries[..n]) + Contribution(entries[n].result)
  }

  /** The `forEach` loop of `scrapeUrls`, spreading each qualifying `images`
      list onto the end of `allImages`. */
  method FlattenResults(entries: seq<ClientEntry>) returns (allImages: seq<Image>)
    ensures allImages == SuccessfulImages(entries)
  {
    allImages := [];
    var i := 0;
    while i < |entries|
      invariant 0 <= i <= |entries|
      invariant allImages == SuccessfulImages(entries[..i])
    {
      assert entries[..i + 1][..i] == entries[..i];
      var result := entries[i].result;
      if result.success && result.images.Some? && |result.images.value| > 0 {
        allImages := allImages + result.images.value;
      }
      i := i + 1;
    }
    assert entries[..i] == entries;
  }

  /** One more entry appends its contribution. */
  lemma {:induction false} SuccessfulImagesSnoc(xs: seq<ClientEntry>, e: ClientEntry)
    ensures SuccessfulImages(xs + [e]) == SuccessfulImages(xs) + Contribution(e.result)
  {
    var ys := xs + [e];
    assert ys[..|ys| - 1] == xs;
    assert ys[|ys| - 1] == e;
  }

  /** Flattening splits over concatenation: the output keeps entry order. */
  lemma {:induction false} SuccessfulImagesAppend(a: seq<ClientEntry>, b: seq<ClientEntry>)
    ensures SuccessfulImages(a + b) == SuccessfulImages(a) + SuccessfulImages(b)
    decreases |b|
  {
    if b == [] {
      assert a + b == a;
    } else {
      var n := |b| - 1;
      var front, e := b[..n], b[n];
      assert b == front + [e];
      assert a + b == (a + front) + [e];
      SuccessfulImagesSnoc(a + front, e);
      SuccessfulImagesSnoc(front, e);
      SuccessfulImagesAppend(a, front);
    }
  }

  /** A failed entry, or a successful one without images, adds nothing
      wherever it stands. */
  lemma EmptyContributionAddsNothing(a: seq<ClientEntry>, e: ClientEntry, b: seq<ClientEntry>)
    requires !e.result.success || e.result.images.None? || e.result.images.value == []
    ensures SuccessfulImages(a + [e] + b) == SuccessfulImages(a + b)
  {
    var single := [e];
    assert Contribution(e.result) == [];
    assert single[..0] == [];
    assert SuccessfulImages(single) == [];
    SuccessfulImagesAppend(a, single);
    SuccessfulImagesAppend(a + single, b);
    SuccessfulImagesAppend(a, b);
  }


  /** The number of images of the successful entries. */
  function SuccessfulCount(entries: seq<ClientEntry>): nat
    decreases |entries|
  {
    if entries == [] then 0
    else
      var r := entries[0].result;
      (if r.success && r.images.Some? then |r.images.value| else 0) + SuccessfulCount(entries[1..])
  }

  /** The output is exactly as long as the successful entries' lists together. */
  lemma {:induction false} FlattenLength(entries: seq<ClientEntry>)
    ensures |SuccessfulImages(entries)| == SuccessfulCount(entries)
    decreases |entries|
  {
    if entries != [] {
      FlattenLength(entries[1..]);
      SuccessfulImagesAppend([entries[0]], entries[1..]);
      assert [entries[0]] + entries[1..] == entries;
      assert SuccessfulImages([entries[0]]) == SuccessfulImages([]) + Contribution(entries[0].result);
    }
  }

  /** Every image of the output is listed by some successful entry. */
  lemma {:induction false} FlattenSound(entries: seq<ClientEntry>, x: Image) returns (i: nat)
    requires x in SuccessfulImages(entries)
    ensures i < |entries| && entries[i].result.success && entries[i].result.images.Some? &&
            x in entries[i].result.images.value
    decreases |entries|
  {
    var n := |entries| - 1;
    if x in Contribution(entries[n].result) {
      i := n;
    } else {
      i := FlattenSound(entries[..n], x);
    }
  }

  /** Every image a successful entry lists is in the output. */
  lemma FlattenComplete(entries: seq<ClientEntry>, i: nat, x: Image)
    requires i < |entries| && entries[i].result.success && entries[i].result.images.Some?
    requires x in entries[i].result.images.value
    ensures x in SuccessfulImages(entries)
  {
    var before, after := entries[..i], entries[i + 1..];
    assert entries == before + [entries[i]] + after;
    SuccessfulImagesAppend(before + [entries[i]], after);
    SuccessfulImagesAppend(before, [entries[i]]);
    assert SuccessfulImages([entries[i]]) == SuccessfulImages([]) + Contribution(entries[i].result);
  }

  /** An image is in the output exactly when some successful entry lists it. */
  lemma FlattenProvenance(entries: seq<ClientEntry>, x: Image)
    ensures x in SuccessfulImages(entries) <==>
              exists i :: 0 <= i < |entries| && entries[i].result.success &&
                          entries[i].result.images.Some? && x in entries[i].result.images.value
  {
    if x in SuccessfulImages(entries) {
      var i := FlattenSound(entries, x);
    }
    if exists i :: 0 <= i < |entries| && entries[i].result.success &&
                   entries[i].result.images.Some? && x in entries[i].result.images.value {
      var i :| 0 <= i < |entries| && entries[i].result.success &&
               entries[i].result.images.Some? && x in entries[i].result.images.value;
      FlattenComplete(entries, i, x);
    }
  }

  /** The JSON form of a server-side result as the client reads it. */
  function ToClient(r: SourceResult): (c: ClientResult)
    ensures c.success <==> r.Succeeded?
    ensures r.Succeeded? ==> c.images == Some(r.images) && c.count == Some(r.count)
    ensures r.Failed? ==> c.images.None? && c.error == Some(r.error)
  {
    match r
    case Succeeded(count, images) => ClientResult(true, Some(count), Some(images), None)
    case Failed(error) => ClientResult(false, None, None, Some(error))
  }

  /** The entries of the serialised `results` object, in property order. */
  function ToClientEntries(results: seq<Entry>): (c: seq<ClientEntry>)
    ensures |c| == |results|
    ensures forall i :: 0 <= i < |results| ==>
              c[i].url == results[i].key && c[i].result == ToClient(results[i].result)
  {
    seq(|results|, i requires 0 <= i < |results| => ClientEntry(results[i].key, ToClient(results[i].result)))
  }

  /** The server-side view: the images of the succeeded keys, in key order. */
  function ServerImages(results: seq<Entry>): seq<Image>
    decreases |results|
  {
    if results == [] then []
    else
      var n := |results| - 1;
      ServerImages(results[..n]) + (match results[n].result case Succeeded(_, images) => images case Failed(_) => [])
  }

  /** Round trip through the response: what the client collects is exactly
      what the server found on the pages it could fetch, in key order. */
  lemma {:induction false} ClientSeesServerImages(results: seq<Entry>)
    ensures SuccessfulImages(ToClientEntries(results)) == ServerImages(results)
    decreases |results|
  {
    if results != [] {
      var n := |results| - 1;
      ClientSeesServerImages(results[..n]);
      assert ToClientEntries(results)[..n] == ToClientEntries(results[..n]);
    }
  }
}
