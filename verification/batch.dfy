/** The `/api/scrape` handler: the guard on `urls`, then one result per input
    string, each URL validated, fetched, parsed and extracted on its own. */
module Batch {
  import opened Wrappers
  import opened UrlNormalizer
  import opened Extractor

  /** The value stored under one key of `results`. */
  datatype SourceResult = Succeeded(count: nat, images: seq<Image>) | Failed(error: string)

  /** One own property of the `results` object. */
  datatype Entry = Entry(key: string, result: SourceResult)

  /** The foreign collaborators of the handler.
      - `validate`: `new URL(url).href`, or the message of the error it throws;
      - `fetch`: the body of the GET issued for the `i`-th input, or the
        message of the error; indexing by position lets two requests for the
        same URL answer differently, as the network may;
      - `parse`: `cheerio.load` of the body, yielding the page's elements, or
        the message of the error it throws;
      - `resolve`: the resolver used by `Normalize`. */
  datatype Environment = Environment(
    validate: string -> Result<string, string>,
    fetch: (nat, string) -> Result<string, string>,
    parse: string -> Result<Document, string>,
    resolve: Resolver)

  /** The `urls` field of the request body: absent or falsy, some value that is
      not an array, or an array of strings. */
  datatype UrlsField = Absent | NotAList | List(items: seq<string>)

  /** The handler's reply: an error status with its message, or status 200 with
      the `results` object. */
  datatype Response = Rejected(status: nat, message: string) | Completed(results: seq<Entry>)

  const BadRequest: nat := 400
  const BadRequestMessage := "Please provide an array of URLs"

  /** The body of the per-URL `try`: validation, fetch, parsing, then
      extraction with the validated URL as the base; an error thrown by any of
      the first three becomes a failure that carries its message. */
  function ProcessUrl(env: Environment, index: nat, url: string): (r: SourceResult)
    ensures r.Succeeded? ==> r.count == |r.images|
    ensures env.validate(url).Failure? ==> r == Failed(env.validate(url).error)
    ensures env.validate(url).Success? && env.fetch(index, env.validate(url).value).Failure? ==>
              r == Failed(env.fetch(index, env.validate(url).value).error)
    ensures env.validate(url).Success? && env.fetch(index, env.validate(url).value).Success? &&
            env.parse(env.fetch(index, env.validate(url).value).value).Failure? ==>
              r == Failed(env.parse(env.fetch(index, env.validate(url).value).value).error)
    ensures r.Succeeded? <==>
              env.validate(url).Success? && env.fetch(index, env.validate(url).value).Success? &&
              env.parse(env.fetch(index, env.validate(url).value).value).Success?
    ensures r.Succeeded? ==>
              var base := env.validate(url).value;
              r.images == Extract(env.parse(env.fetch(index, base).value).value, base, env.resolve)
  {
    match env.validate(url)
    case Failure(message) => Failed(message)
    case Success(href) =>
      match env.fetch(index, href)
      case Failure(message) => Failed(message)
      case Success(body) =>
        match env.parse(body)
        case Failure(message) => Failed(message)
        case Success(doc) =>
          var images := Extract(doc, href, env.resolve);
          Succeeded(|images|, images)
  }

  /** The own keys of `results`, in property order. */
  function Keys(results: seq<Entry>): (ks: seq<string>)
    ensures |ks| == |results|
    decreases |results|
  {
    if results == [] then [] else [results[0].key] + Keys(results[1..])
  }

  /** No string occurs twice. */
  predicate NoDuplicates(xs: seq<string>) {
    forall i, j :: 0 <= i < j < |xs| ==> xs[i] != xs[j]
  }

  /** `results[key]`, or `None` for `undefined`. */
  function Lookup(results: seq<Entry>, key: string): (r: Option<SourceResult>)
    ensures r.Some? <==> key in Keys(results)
    decreases |results|
  {
    if results == [] then None
    else if results[0].key == key then Some(results[0].result)
    else Lookup(results[1..], key)
  }

  /** `results[key] = value`: an existing key keeps its place and takes the new
      value, a new key is appended. */
  function Assign(results: seq<Entry>, key: string, value: SourceResult): (r: seq<Entry>)
    ensures |results| <= |r| <= |results| + 1
    ensures Lookup(r, key) == Some(value)
    decreases |results|
  {
    if results == [] then [Entry(key, value)]
    else if results[0].key == key then [Entry(key, value)] + results[1..]
    else [results[0]] + Assign(results[1..], key, value)
  }

  /** Assignment adds the key at the end if it is new and leaves the key order
      alone otherwise. */
  lemma {:induction false} AssignKeys(results: seq<Entry>, key: string, value: SourceResult)
    ensures key in Keys(results) ==> Keys(Assign(results, key, value)) == Keys(results)
    ensures key !in Keys(results) ==> Keys(Assign(results, key, value)) == Keys(results) + [key]
    decreases |results|
  {
    if results != [] && results[0].key != key {
      var rest := Assign(results[1..], key, value);
      AssignKeys(results[1..], key, value);
      assert ([results[0]] + rest)[1..] == rest;
    } else if results != [] {
      assert ([Entry(key, value)] + results[1..])[1..] == results[1..];
    }
  }

  /** After `results[key] = value`, reading `key` gives `value` and every other
      key reads as before. */
  lemma {:induction false} AssignLookup(results: seq<Entry>, key: string, value: SourceResult, k: string)
    ensures Lookup(Assign(results, key, value), k) == if k == key then Some(value) else Lookup(results, k)
    decreases |results|
  {
    if results != [] && results[0].key != key {
      var rest := Assign(results[1..], key, value);
      AssignLookup(results[1..], key, value, k);
      assert ([results[0]] + rest)[1..] == rest;
    } else if results != [] {
      assert ([Entry(key, value)] + results[1..])[1..] == results[1..];
    }
  }

  /** The position of the first occurrence of `x`. */
  function FirstIndex(xs: seq<string>, x: string): (i: nat)
    requires x in xs
    ensures i < |xs| && xs[i] == x
    ensures forall j :: 0 <= j < i ==> xs[j] != x
    decreases |xs|
  {
    if xs[0] == x then 0 else 1 + FirstIndex(xs[1..], x)
  }

  /** The strings of `xs`, each once, in order of first occurrence. */
  function Distinct(xs: seq<string>): (d: seq<string>)
    ensures forall x :: x in d <==> x in xs
    ensures NoDuplicates(d)
    ensures forall i, j :: 0 <= i < j < |d| ==> FirstIndex(xs, d[i]) < FirstIndex(xs, d[j])
    decreases |xs|
  {
    if xs == [] then []
    else
      var n := |xs| - 1;
      var front := xs[..n];
      var d := Distinct(front);
      assert forall x :: x in xs <==> x in front || x == xs[n];
      FirstIndexOfPrefix(xs, n, d);
      if xs[n] in d then d else d + [xs[n]]
  }

  /** A string met before position `n` has its first occurrence there; one
      not met before `n` has it at `n` or later. */
  lemma {:induction false} FirstIndexOfPrefix(xs: seq<string>, n: nat, d: seq<string>)
    requires n < |xs|
    requires forall x :: x in d ==> x in xs[..n]
    ensures forall x :: x in d ==> FirstIndex(xs, x) == FirstIndex(xs[..n], x)
    ensures xs[n] !in xs[..n] ==> FirstIndex(xs, xs[n]) == n
  {
    forall x | x in d
      ensures FirstIndex(xs, x) == FirstIndex(xs[..n], x)
    {
      var k := FirstIndex(xs[..n], x);
      forall j | 0 <= j < k
        ensures xs[j] != x
      {
        assert xs[j] == xs[..n][j];
      }
      FirstIndexIsFirst(xs, x, k);
    }
    if xs[n] !in xs[..n] {
      forall j | 0 <= j < n
        ensures xs[j] != xs[n]
      {
        assert xs[j] == xs[..n][j];
      }
      FirstIndexIsFirst(xs, xs[n], n);
    }
  }

  /** The first occurrence is the one no earlier position matches. */
  lemma FirstIndexIsFirst(xs: seq<string>, x: string, k: nat)
    requires k < |xs| && xs[k] == x
    requires forall j :: 0 <= j < k ==> xs[j] != x
    ensures FirstIndex(xs, x) == k
  {
  }

  /** The position of the last occurrence of `x`: the loop iteration whose
      assignment stands at the end. */
  function LastIndex(xs: seq<string>, x: string): (i: nat)
    requires x in xs
    ensures i < |xs| && xs[i] == x
    ensures forall j :: i < j < |xs| ==> xs[j] != x
    decreases |xs|
  {
    if xs[|xs| - 1] == x then |xs| - 1
    else
      assert x in xs[..|xs| - 1];
      LastIndex(xs[..|xs| - 1], x)
  }

  /** The `for (const url of urls)` loop: the results object after processing
      the inputs in order. Keys appear once each, in order of first occurrence,
      and each key holds the outcome of its last occurrence. */
  function Results(urls: seq<string>, env: Environment): (r: seq<Entry>)
    ensures Keys(r) == Distinct(urls)
    ensures forall i :: 0 <= i < |urls| ==>
              Lookup(r, urls[i]) == Some(ProcessUrl(env, LastIndex(urls, urls[i]), urls[i]))
    decreases |urls|
  {
    if urls == [] then []
    else
      var n := |urls| - 1;
      var previous := Results(urls[..n], env);
      var outcome := ProcessUrl(env, n, urls[n]);
      AssignKeys(previous, urls[n], outcome);
      ResultsStep(urls, env, previous, outcome);
      Assign(previous, urls[n], outcome)
  }

  /** The inductive step of `Results`: the last iteration settles its own key
      and leaves every other key with the outcome of its last occurrence. */
  lemma ResultsStep(urls: seq<string>, env: Environment, previous: seq<Entry>, outcome: SourceResult)
    requires |urls| > 0
    requires outcome == ProcessUrl(env, |urls| - 1, urls[|urls| - 1])
    requires forall i :: 0 <= i < |urls| - 1 ==>
               Lookup(previous, urls[i]) == Some(ProcessUrl(env, LastIndex(urls[..|urls| - 1], urls[i]), urls[i]))
    ensures forall i :: 0 <= i < |urls| ==>
              Lookup(Assign(previous, urls[|urls| - 1], outcome), urls[i]) ==
                Some(ProcessUrl(env, LastIndex(urls, urls[i]), urls[i]))
  {
    var n := |urls| - 1;
    var front := urls[..n];
    forall i | 0 <= i < |urls|
      ensures Lookup(Assign(previous, urls[n], outcome), urls[i]) ==
                Some(ProcessUrl(env, LastIndex(urls, urls[i]), urls[i]))
    {
      AssignLookup(previous, urls[n], outcome, urls[i]);
      if urls[i] != urls[n] {
        assert urls[i] == front[i];
        assert LastIndex(urls, urls[i]) == LastIndex(front, urls[i]);
      }
    }
  }

  /** The handler: the 400 guard, then the loop. */
  function HandleScrape(field: UrlsField, env: Environment): (r: Response)
    ensures r.Rejected? <==> !(field.List? && |field.items| > 0)
    ensures r.Rejected? ==> r.status == BadRequest && r.message == BadRequestMessage
    ensures r.Completed? ==> Keys(r.results) == Distinct(field.items)
    ensures r.Completed? ==> NoDuplicates(Keys(r.results))
    ensures r.Completed? ==> forall k :: Lookup(r.results, k).Some? <==> k in field.items
    ensures r.Completed? ==> |r.results| <= |field.items|
    ensures r.Completed? ==> forall i :: 0 <= i < |field.items| ==>
              Lookup(r.results, field.items[i]) ==
                Some(ProcessUrl(env, LastIndex(field.items, field.items[i]), field.items[i]))
  {
    if !field.List? || |field.items| == 0 then Rejected(BadRequest, BadRequestMessage)
    else
      var results := Results(field.items, env);
      DistinctNoLonger(field.items);
      Completed(results)
  }

  lemma {:induction false} DistinctNoLonger(xs: seq<string>)
    ensures |Distinct(xs)| <= |xs|
    decreases |xs|
  {
    if xs != [] {
      DistinctNoLonger(xs[..|xs| - 1]);
    }
  }

  /** Isolation: the result under a key is decided by that key's own last
      request alone. Two environments that agree on it agree on the key,
      whatever happens to every other URL of the batch. */
  lemma OutcomeDependsOnlyOnOwnRequest(urls: seq<string>, env1: Environment, env2: Environment, i: nat)
    requires i < |urls|
    requires env1.validate(urls[i]) == env2.validate(urls[i])
    requires env1.validate(urls[i]).Success? ==>
               var j := LastIndex(urls, urls[i]);
               var href := env1.validate(urls[i]).value;
               env1.fetch(j, href) == env2.fetch(j, href)
    requires env1.parse == env2.parse && env1.resolve == env2.resolve
    ensures Lookup(Results(urls, env1), urls[i]) == Lookup(Results(urls, env2), urls[i])
  {
  }

  /** A batch where the first URL's fetch times out and the second's succeeds
      reports the failure and the success side by side. */
  lemma TimeoutBesideSuccess(a: string, b: string, env: Environment)
    requires a != b
    requires env.validate(a).Success? && env.validate(b).Success?
    requires env.fetch(0, env.validate(a).value) == Failure("timeout of 10000ms exceeded")
    requires env.fetch(1, env.validate(b).value).Success?
    requires env.parse(env.fetch(1, env.validate(b).value).value).Success?
    ensures var r := HandleScrape(List([a, b]), env);
            r.Completed? && Keys(r.results) == [a, b] &&
            Lookup(r.results, a) == Some(Failed("timeout of 10000ms exceeded")) &&
            Lookup(r.results, b).Some? && Lookup(r.results, b).value.Succeeded?
  {
    var urls := [a, b];
    assert urls[..1] == [a];
    assert Distinct([a]) == [a];
    assert Distinct(urls) == [a, b];
    assert LastIndex(urls, urls[0]) == 0;
    assert LastIndex(urls, urls[1]) == 1;
  }

  /** A URL given twice is one key, holding the outcome of its second request. */
  lemma DuplicateKeepsLastOutcome(u: string, env: Environment)
    requires env.validate(u).Success?
    requires env.fetch(0, env.validate(u).value).Success?
    requires env.fetch(1, env.validate(u).value) == Failure("socket hang up")
    ensures var r := HandleScrape(List([u, u]), env);
            r.Completed? && Keys(r.results) == [u] && Lookup(r.results, u) == Some(Failed("socket hang up"))
  {
    var urls := [u, u];
    assert urls[..1] == [u];
    assert [u][..0] == [];
    assert Distinct([u]) == [u];
    assert Distinct(urls) == [u];
    assert LastIndex(urls, urls[0]) == 1;
  }
}
