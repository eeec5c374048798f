/** `normalizeUrl` of the scraping server: turns an image reference found in a
    page into an absolute URL, or `None` where the source returns `null`. */
module UrlNormalizer {
  import opened Wrappers
  import opened Strings

  /** WHATWG `new URL(reference, base).href`, with `None` when the constructor
      throws. It is foreign code, so the model takes it as a parameter. */
  type Resolver = (string, string) -> Option<string>

  /** Already absolute: starts with `http://` or `https://`. */
  predicate IsHttpAbsolute(s: string) {
    StartsWith(s, "http://") || StartsWith(s, "https://")
  }

  /** Protocol-relative: starts with `//`. */
  predicate IsProtocolRelative(s: string) {
    StartsWith(s, "//")
  }

  /** The three rules of `normalizeUrl`, tried in order. The `try`/`catch` of
      the source only ever catches the resolver's exception, so every failure
      is the resolver's `None`. */
  function Normalize(reference: string, base: string, resolve: Resolver): (r: Option<string>)
    ensures (IsHttpAbsolute(reference) || IsProtocolRelative(reference)) ==>
              r.Some? && IsHttpAbsolute(r.value)
    ensures r.None? ==> resolve(reference, base).None?
    ensures r.Some? && !IsHttpAbsolute(reference) && !IsProtocolRelative(reference) ==>
              resolve(reference, base) == r
  {
    if IsHttpAbsolute(reference) then Some(reference)
    else if IsProtocolRelative(reference) then Some("https:" + reference)
    else resolve(reference, base)
  }

  /** An absolute `http(s)` reference comes back unchanged, whatever the base
      and whatever the resolver would have said. */
  lemma AbsoluteUnchanged(reference: string, base: string, resolve: Resolver)
    requires IsHttpAbsolute(reference)
    ensures Normalize(reference, base, resolve) == Some(reference)
  {
  }

  /** A protocol-relative reference gains exactly the `https:` scheme, without
      consulting the resolver: stripping the six characters gives it back. */
  lemma ProtocolRelativeGetsHttps(reference: string, base: string, resolve: Resolver)
    requires IsProtocolRelative(reference)
    ensures Normalize(reference, base, resolve).Some?
    ensures var u := Normalize(reference, base, resolve).value;
            StartsWith(u, "https://") && u[6..] == reference
  {
    assert !StartsWith(reference, "http://") by {
      assert reference[0] == '/';
    }
    assert !StartsWith(reference, "https://") by {
      assert reference[0] == '/';
    }
    var u := "https:" + reference;
    assert u[..8] == "https:" + reference[..2];
  }

  /** Any other reference is exactly the resolver's answer, failure included. */
  lemma RelativeDelegatesToResolver(reference: string, base: string, resolve: Resolver)
    requires !IsHttpAbsolute(reference) && !IsProtocolRelative(reference)
    ensures Normalize(reference, base, resolve) == resolve(reference, base)
  {
  }

  /** Idempotence: once a result is an absolute `http(s)` URL, normalising it
      again, against any base and resolver, changes nothing. */
  lemma NormalizeIdempotent(reference: string, base: string, resolve: Resolver,
                            base': string, resolve': Resolver)
    requires Normalize(reference, base, resolve).Some?
    requires IsHttpAbsolute(Normalize(reference, base, resolve).value)
    ensures var u := Normalize(reference, base, resolve).value;
            Normalize(u, base', resolve') == Some(u)
  {
  }

  /** A resolver that only ever produces `http(s)` URLs makes every result of
      `Normalize` absolute: no relative or protocol-relative string survives. */
  lemma ResultsAreAbsolute(reference: string, base: string, resolve: Resolver)
    requires forall x, y :: resolve(x, y).Some? ==> IsHttpAbsolute(resolve(x, y).value)
    requires Normalize(reference, base, resolve).Some?
    ensures IsHttpAbsolute(Normalize(reference, base, resolve).value)
    ensures !IsProtocolRelative(Normalize(reference, base, resolve).value)
  {
    var u := Normalize(reference, base, resolve).value;
    assert u[0] == 'h';
  }

  /** WHATWG `href` always carries a scheme, so it never starts with `//`.
      Under that weaker assumption on the resolver, no result of `Normalize`
      is protocol-relative, whatever its scheme. */
  lemma NeverProtocolRelative(reference: string, base: string, resolve: Resolver)
    requires forall x, y :: resolve(x, y).Some? ==> !IsProtocolRelative(resolve(x, y).value)
    requires Normalize(reference, base, resolve).Some?
    ensures !IsProtocolRelative(Normalize(reference, base, resolve).value)
  {
    if IsHttpAbsolute(reference) || IsProtocolRelative(reference) {
      var u := Normalize(reference, base, resolve).value;
      assert u[0] == 'h';
    }
  }
}
