/** The `url(...)` token taken from a `style` attribute: the regular expression
    `/url\(['"]?([^'")]+)['"]?\)/i`, first (leftmost) match, first group. */
module BackgroundToken {
  import opened Wrappers
  import opened Strings

  predicate IsQuote(c: char) {
    c == '\'' || c == '"'
  }

  /** The character class `[^'")]` of the captured group. */
  predicate IsTokenChar(c: char) {
    !IsQuote(c) && c != ')'
  }

  /** The end of the maximal run of token characters that starts at `j`. */
  function RunEnd(s: string, j: nat): (k: nat)
    requires j <= |s|
    ensures j <= k <= |s|
    ensures forall m :: j <= m < k ==> IsTokenChar(s[m])
    ensures k < |s| ==> !IsTokenChar(s[k])
    decreases |s| - j
  {
    if j == |s| || !IsTokenChar(s[j]) then j else RunEnd(s, j + 1)
  }

  /** One way the pattern can match at `p`: `url(` in any case, `o` opening
      quotes, the token `t`, `c` closing quotes, then `)`. */
  ghost predicate Shape(s: string, p: nat, o: nat, t: string, c: nat) {
    && o <= 1 && c <= 1
    && MatchesIgnoringCaseAt(s, p, "url(")
    && |t| >= 1
    && p + 4 + o + |t| + c < |s|
    && (o == 1 ==> IsQuote(s[p + 4]))
    && s[p + 4 + o .. p + 4 + o + |t|] == t
    && (forall m :: 0 <= m < |t| ==> IsTokenChar(t[m]))
    && (c == 1 ==> IsQuote(s[p + 4 + o + |t|]))
    && s[p + 4 + o + |t| + c] == ')'
  }

  /** The pattern matches at `p` capturing `t`, by some choice of the two
      optional quotes. */
  ghost predicate PatternMatchesAt(s: string, p: nat, t: string) {
    exists o: nat, c: nat :: Shape(s, p, o, t, c)
  }

  /** The match attempt at `p` as the backtracking engine performs it: both
      optional quotes and the greedy group leave no real choice, so the attempt
      is deterministic. */
  function MatchAt(s: string, p: nat): (r: Option<string>)
    requires p <= |s|
    ensures r.Some? ==> |r.value| >= 1
    ensures r.Some? ==> forall m :: 0 <= m < |r.value| ==> IsTokenChar(r.value[m])
  {
    if !MatchesIgnoringCaseAt(s, p, "url(") then None
    else
      var q := if p + 4 < |s| && IsQuote(s[p + 4]) then p + 5 else p + 4;
      var k := RunEnd(s, q);
      if k == q then None
      else
        var close := if k < |s| && IsQuote(s[k]) then k + 1 else k;
        if close < |s| && s[close] == ')' then Some(s[q..k]) else None
  }

  /** A run of token characters followed by a non-token character (or the
      end) is the maximal run. */
  lemma RunEndIsUnique(s: string, j: nat, k: nat)
    requires j <= k <= |s|
    requires forall m :: j <= m < k ==> IsTokenChar(s[m])
    requires k < |s| ==> !IsTokenChar(s[k])
    ensures RunEnd(s, j) == k
  {
  }

  /** What the deterministic attempt finds, the pattern admits. */
  lemma MatchAtIsSound(s: string, p: nat, t: string)
    requires p <= |s| && MatchAt(s, p) == Some(t)
    ensures PatternMatchesAt(s, p, t)
  {
    var o: nat := if p + 4 < |s| && IsQuote(s[p + 4]) then 1 else 0;
    var q := p + 4 + o;
    var k := RunEnd(s, q);
    var c: nat := if k < |s| && IsQuote(s[k]) then 1 else 0;
    assert k == q + |t|;
    assert Shape(s, p, o, t, c);
  }

  /** What the pattern admits, the deterministic attempt finds. */
  lemma MatchAtIsComplete(s: string, p: nat, o: nat, t: string, c: nat)
    requires p <= |s| && Shape(s, p, o, t, c)
    ensures MatchAt(s, p) == Some(t)
  {
    var q := p + 4 + o;
    assert t[0] == s[q];
    assert q == (if p + 4 < |s| && IsQuote(s[p + 4]) then p + 5 else p + 4);
    forall m | q <= m < q + |t|
      ensures IsTokenChar(s[m])
    {
      assert s[m] == t[m - q];
    }
    RunEndIsUnique(s, q, q + |t|);
  }

  /** The deterministic attempt finds exactly the matches the pattern admits. */
  lemma MatchAtIsPatternMatch(s: string, p: nat, t: string)
    requires p <= |s|
    ensures MatchAt(s, p) == Some(t) <==> PatternMatchesAt(s, p, t)
  {
    if MatchAt(s, p) == Some(t) {
      MatchAtIsSound(s, p, t);
    }
    if PatternMatchesAt(s, p, t) {
      var o: nat, c: nat :| Shape(s, p, o, t, c);
      MatchAtIsComplete(s, p, o, t, c);
    }
  }

  /** The leftmost position at or after `p` where the pattern matches. */
  function FirstMatchFrom(s: string, p: nat): (r: Option<nat>)
    requires p <= |s|
    ensures r.Some? ==> p <= r.value <= |s| && MatchAt(s, r.value).Some?
    ensures r.Some? ==> forall q :: p <= q < r.value ==> MatchAt(s, q).None?
    ensures r.None? ==> forall q :: p <= q <= |s| ==> MatchAt(s, q).None?
    decreases |s| - p
  {
    if MatchAt(s, p).Some? then Some(p)
    else if p == |s| then None
    else FirstMatchFrom(s, p + 1)
  }

  /** `style.match(...)` followed by `match[1]`: the first group of the
      leftmost match, or `None` when there is no match. */
  function FirstUrlToken(style: string): (r: Option<string>)
    ensures r.Some? ==> |r.value| >= 1
    ensures r.Some? ==> forall m :: 0 <= m < |r.value| ==> IsTokenChar(r.value[m])
  {
    match FirstMatchFrom(style, 0)
    case Some(p) => MatchAt(style, p)
    case None => None
  }

  /** `FirstUrlToken` is the token of the leftmost position where the pattern
      matches, and `None` exactly when it matches nowhere. */
  lemma FirstUrlTokenIsLeftmost(style: string)
    ensures FirstUrlToken(style).Some? ==>
              exists p :: 0 <= p <= |style| && PatternMatchesAt(style, p, FirstUrlToken(style).value) &&
                          forall q :: 0 <= q < p ==> MatchAt(style, q).None?
    ensures FirstUrlToken(style).None? <==>
              forall p :: 0 <= p <= |style| ==> MatchAt(style, p).None?
  {
    if FirstUrlToken(style).Some? {
      var p := FirstMatchFrom(style, 0).value;
      MatchAtIsPatternMatch(style, p, FirstUrlToken(style).value);
    }
  }

  /** The quotes around the token are optional and stripped either way. */
  lemma {:induction false} QuotesAreStripped(t: string, quote: string)
    requires |t| >= 1 && forall m :: 0 <= m < |t| ==> IsTokenChar(t[m])
    requires quote == "" || quote == "'" || quote == "\""
    ensures FirstUrlToken("url(" + quote + t + quote + ")") == Some(t)
  {
    var s := "url(" + quote + t + quote + ")";
    var o := |quote|;
    assert s[4 + o .. 4 + o + |t|] == t;
    assert Shape(s, 0, o, t, o);
    MatchAtIsPatternMatch(s, 0, t);
  }

  /** A match at `p` with no match before it is the one `FirstUrlToken` reports. */
  lemma LeftmostMatchIsReported(style: string, p: nat, t: string)
    requires p <= |style| && PatternMatchesAt(style, p, t)
    requires forall q :: 0 <= q < p ==> MatchAt(style, q).None?
    ensures FirstUrlToken(style) == Some(t)
  {
    MatchAtIsPatternMatch(style, p, t);
  }

  /** No match can start where the `(` of `url(` would fall before the first `(`. */
  lemma NoMatchBeforeParen(style: string, k: nat)
    requires k + 3 <= |style| && '(' !in style[..k + 3]
    ensures forall q :: 0 <= q < k ==> MatchAt(style, q).None?
  {
    forall q | 0 <= q < k
      ensures MatchAt(style, q).None?
    {
      assert style[q + 3] == style[..k + 3][q + 3];
      assert AsciiLower(style[q + 3]) != "url("[3];
    }
  }

  /** The inline style of a typical banner yields its path. */
  lemma BannerStyleToken(style: string)
    requires style == "background-image: url('/bg.jpg')"
    ensures FirstUrlToken(style) == Some("/bg.jpg")
  {
    var t := "/bg.jpg";
    assert style[23..30] == t;
    assert Shape(style, 18, 1, t, 1);
    assert style[..21] == "background-image: url";
    NoMatchBeforeParen(style, 18);
    LeftmostMatchIsReported(style, 18, t);
  }
}
