/** The parsing and validation in `handleSubmit` of the URL form: split the
    text on runs of newlines and commas, trim, drop empty entries, add a scheme
    where missing, and submit only when every entry is a valid URL. */
module UrlInput {
  import opened Strings

  /** A member of the character class `[\n,]`. */
  predicate IsSeparator(c: char) {
    c == '\n' || c == ','
  }

  /** What `String.prototype.trim` removes: the white-space and
      line-terminator characters of ECMAScript. */
  predicate IsJsWhitespace(c: char) {
    c == '\t' || c == '\n' || c == '\U{B}' || c == '\U{C}' || c == '\r' || c == ' ' ||
    c == '\U{A0}' || c == '\U{1680}' || ('\U{2000}' <= c <= '\U{200A}') ||
    c == '\U{2028}' || c == '\U{2029}' || c == '\U{202F}' || c == '\U{205F}' ||
    c == '\U{3000}' || c == '\U{FEFF}'
  }

  /** Every character of `s` from `lo` up to `hi` is white space. */
  predicate WhitespaceBetween(s: string, lo: int, hi: int) {
    forall k :: lo <= k < hi && 0 <= k < |s| ==> IsJsWhitespace(s[k])
  }

  predicate HasNoSeparator(s: string) {
    forall k :: 0 <= k < |s| ==> !IsSeparator(s[k])
  }

  /** `s` with its maximal leading run of separators removed. */
  function DropSeparators(s: string): (r: string)
    ensures |r| <= |s| && r == s[|s| - |r|..]
    ensures forall k :: 0 <= k < |s| - |r| ==> IsSeparator(s[k])
    ensures r == [] || !IsSeparator(r[0])
    decreases |s|
  {
    if s != [] && IsSeparator(s[0]) then DropSeparators(s[1..]) else s
  }

  /** `s.split(/[\n,]+/)` with the text before `s` already gathered in
      `piece`: every maximal run of separators ends one piece. */
  function SplitFrom(s: string, piece: string): (r: seq<string>)
    ensures |r| >= 1
    decreases |s|
  {
    if s == [] then [piece]
    else if IsSeparator(s[0]) then [piece] + SplitFrom(DropSeparators(s), "")
    else SplitFrom(s[1..], piece + [s[0]])
  }

  /** `s.split(/[\n,]+/)`: at least one piece, none holding a separator. */
  function Split(s: string): (r: seq<string>)
    ensures |r| >= 1
    ensures forall p :: p in r ==> HasNoSeparator(p)
  {
    SplitPiecesHaveNoSeparator(s, "");
    SplitFrom(s, "")
  }

  /** The pieces concatenated. */
  function Concat(pieces: seq<string>): string
    decreases |pieces|
  {
    if pieces == [] then "" else pieces[0] + Concat(pieces[1..])
  }

  /** `s` without its separators. */
  function RemoveSeparators(s: string): (r: string)
    ensures HasNoSeparator(r)
    decreases |s|
  {
    if s == [] then ""
    else if IsSeparator(s[0]) then RemoveSeparators(s[1..])
    else [s[0]] + RemoveSeparators(s[1..])
  }

  lemma RemoveSeparatorsOfRun(s: string)
    ensures RemoveSeparators(DropSeparators(s)) == RemoveSeparators(s)
    decreases |s|
  {
  }

  lemma {:induction false} ConcatAppend(a: seq<string>, b: seq<string>)
    ensures Concat(a + b) == Concat(a) + Concat(b)
    decreases |a|
  {
    if a == [] {
      assert a + b == b;
    } else {
      assert (a + b)[1..] == a[1..] + b;
      ConcatAppend(a[1..], b);
    }
  }

  /** Splitting loses the separators and nothing else: the pieces, put back
      together, are the text with its separators removed. */
  lemma {:induction false} SplitLosesOnlySeparators(s: string, piece: string)
    ensures Concat(SplitFrom(s, piece)) == piece + RemoveSeparators(s)
    decreases |s|
  {
    if s == [] {
    } else if IsSeparator(s[0]) {
      var rest := SplitFrom(DropSeparators(s), "");
      SplitLosesOnlySeparators(DropSeparators(s), "");
      ConcatAppend([piece], rest);
      RemoveSeparatorsOfRun(s);
    } else {
      SplitLosesOnlySeparators(s[1..], piece + [s[0]]);
    }
  }

  /** Text without separators only extends the current piece. */
  lemma {:induction false} SplitOfPlain(a: string, piece: string, rest: string)
    requires HasNoSeparator(a)
    ensures SplitFrom(a + rest, piece) == SplitFrom(rest, piece + a)
    decreases |a|
  {
    if a == [] {
      assert a + rest == rest;
      assert piece + a == piece;
    } else {
      assert (a + rest)[0] == a[0];
      assert (a + rest)[1..] == a[1..] + rest;
      SplitOfPlain(a[1..], piece + [a[0]], rest);
      assert piece + [a[0]] + a[1..] == piece + a;
    }
  }

  /** A run of separators followed by a non-separator is consumed whole. */
  lemma {:induction false} DropSeparatorsOfRun(run: string, rest: string)
    requires forall k :: 0 <= k < |run| ==> IsSeparator(run[k])
    requires rest == [] || !IsSeparator(rest[0])
    ensures DropSeparators(run + rest) == rest
    decreases |run|
  {
    if run == [] {
      assert run + rest == rest;
    } else {
      assert (run + rest)[1..] == run[1..] + rest;
      DropSeparatorsOfRun(run[1..], rest);
    }
  }

  /** Text without separators is a single piece. */
  lemma {:induction false} SplitOfSeparatorFree(a: string)
    requires HasNoSeparator(a)
    ensures Split(a) == [a]
  {
    SplitOfPlain(a, "", []);
    assert a + [] == a;
    assert "" + a == a;
  }

  /** Where the pieces break: text without separators, a maximal run of
      separators, then the rest, splits into that text followed by the pieces
      of the rest. */
  lemma {:induction false} SplitOfJoin(a: string, run: string, rest: string)
    requires HasNoSeparator(a)
    requires run != [] && forall k :: 0 <= k < |run| ==> IsSeparator(run[k])
    requires rest == [] || !IsSeparator(rest[0])
    ensures Split(a + run + rest) == [a] + Split(rest)
  {
    SplitOfPlain(a, "", run + rest);
    assert a + run + rest == a + (run + rest);
    assert "" + a == a;
    DropSeparatorsOfRun(run, rest);
  }

  /** A newline and a comma together make one break. */
  lemma SplitExample(s: string)
    requires s == "a\n,b"
    ensures Split(s) == ["a", "b"]
  {
    assert s == "a" + "\n," + "b";
    SplitOfJoin("a", "\n,", "b");
    SplitOfSeparatorFree("b");
  }

  /** No piece of the split holds a separator. */
  lemma {:induction false} SplitPiecesHaveNoSeparator(s: string, piece: string)
    requires HasNoSeparator(piece)
    ensures forall p :: p in SplitFrom(s, piece) ==> HasNoSeparator(p)
    decreases |s|
  {
    if s == [] {
    } else if IsSeparator(s[0]) {
      SplitPiecesHaveNoSeparator(DropSeparators(s), "");
    } else {
      SplitPiecesHaveNoSeparator(s[1..], piece + [s[0]]);
    }
  }

  /** The first position at or after `i` that does not hold white space. */
  function SkipLeading(s: string, i: nat): (j: nat)
    requires i <= |s|
    ensures i <= j <= |s|
    ensures WhitespaceBetween(s, i, j)
    ensures j == |s| || !IsJsWhitespace(s[j])
    decreases |s| - i
  {
    if i < |s| && IsJsWhitespace(s[i]) then SkipLeading(s, i + 1) else i
  }

  /** The end of `s[lo..j]` once its trailing white space is removed. */
  function SkipTrailing(s: string, lo: nat, j: nat): (k: nat)
    requires lo <= j <= |s|
    ensures lo <= k <= j
    ensures WhitespaceBetween(s, k, j)
    ensures k == lo || !IsJsWhitespace(s[k - 1])
    decreases j - lo
  {
    if lo < j && IsJsWhitespace(s[j - 1]) then SkipTrailing(s, lo, j - 1) else j
  }

  /** `s.trim()`: no longer than `s`, and with no white space at either end. */
  function Trim(s: string): (r: string)
    ensures |r| <= |s|
    ensures r == [] || (!IsJsWhitespace(r[0]) && !IsJsWhitespace(r[|r| - 1]))
  {
    var i := SkipLeading(s, 0);
    var j := SkipTrailing(s, i, |s|);
    assert i < j ==> s[i..j][j - i - 1] == s[j - 1];
    s[i..j]
  }

  /** The trimmed text is the stretch of `s` left after removing white space
      at both ends: only white space is removed, and none remains at either
      end. */
  lemma TrimIsStretch(s: string)
    ensures var r, i := Trim(s), SkipLeading(s, 0);
            i + |r| <= |s| && r == s[i..i + |r|] &&
            WhitespaceBetween(s, 0, i) && WhitespaceBetween(s, i + |r|, |s|) &&
            (r == [] || (!IsJsWhitespace(r[0]) && !IsJsWhitespace(r[|r| - 1])))
  {
    var i := SkipLeading(s, 0);
    var j := SkipTrailing(s, i, |s|);
    if i < j {
      assert Trim(s)[|Trim(s)| - 1] == s[j - 1];
    }
  }

  /** Trimming twice trims nothing more. */
  lemma TrimIdempotent(s: string)
    ensures Trim(Trim(s)) == Trim(s)
  {
    var r := Trim(s);
    TrimIsStretch(s);
    assert SkipLeading(r, 0) == 0;
    assert SkipTrailing(r, 0, |r|) == |r|;
    assert r[0..|r|] == r;
  }

  /** `.map(url => url.trim()).filter(Boolean)`. */
  function TrimAndDropEmpty(pieces: seq<string>): (r: seq<string>)
    ensures |r| <= |pieces|
    ensures forall e :: e in r ==> e != ""
    decreases |pieces|
  {
    if pieces == [] then []
    else
      var e := Trim(pieces[0]);
      var rest := TrimAndDropEmpty(pieces[1..]);
      if e == "" then rest else [e] + rest
  }

  /** Map-then-filter splits over concatenation: entries keep piece order. */
  lemma {:induction false} TrimAndDropEmptyAppend(a: seq<string>, b: seq<string>)
    ensures TrimAndDropEmpty(a + b) == TrimAndDropEmpty(a) + TrimAndDropEmpty(b)
    decreases |a|
  {
    if a == [] {
      assert a + b == b;
    } else {
      assert (a + b)[0] == a[0];
      assert (a + b)[1..] == a[1..] + b;
      TrimAndDropEmptyAppend(a[1..], b);
    }
  }

  /** One piece gives its trimmed form, unless that is empty. */
  lemma {:induction false} TrimAndDropEmptySingle(p: string)
    ensures TrimAndDropEmpty([p]) == if Trim(p) == "" then [] else [Trim(p)]
  {
    assert [p][1..] == [];
  }

  /** Every piece whose trimmed form is non-empty survives as that form, at
      the place its piece holds among the surviving pieces. */
  lemma {:induction false} NonEmptyPieceSurvives(pieces: seq<string>, i: nat)
    requires i < |pieces| && Trim(pieces[i]) != ""
    ensures TrimAndDropEmpty(pieces) ==
              TrimAndDropEmpty(pieces[..i]) + [Trim(pieces[i])] + TrimAndDropEmpty(pieces[i + 1..])
  {
    var before, p, after := pieces[..i], pieces[i], pieces[i + 1..];
    var left := before + [p];
    assert pieces == left + after;
    TrimAndDropEmptyAppend(left, after);
    TrimAndDropEmptyAppend(before, [p]);
    TrimAndDropEmptySingle(p);
  }

  /** The `rawUrls` of `handleSubmit`: non-empty, trimmed entries without
      separators, at most one per piece. */
  function RawEntries(input: string): (r: seq<string>)
    ensures |r| <= |Split(input)|
    ensures forall e :: e in r ==> e != "" && HasNoSeparator(e) && Trim(e) == e
  {
    RawEntriesAreClean(input);
    TrimAndDropEmpty(Split(input))
  }

  /** Every piece the user typed that is not blank reaches the entries. */
  lemma {:induction false} TypedEntryIsKept(input: string, i: nat)
    requires i < |Split(input)| && Trim(Split(input)[i]) != ""
    ensures Trim(Split(input)[i]) in RawEntries(input)
  {
    NonEmptyPieceSurvives(Split(input), i);
  }

  /** Each entry kept is the trimmed form of some piece. */
  lemma {:induction false} KeptEntriesComeFromPieces(pieces: seq<string>, e: string)
    requires e in TrimAndDropEmpty(pieces)
    ensures exists p :: p in pieces && Trim(p) == e
    decreases |pieces|
  {
    if Trim(pieces[0]) != e {
      KeptEntriesComeFromPieces(pieces[1..], e);
      var p :| p in pieces[1..] && Trim(p) == e;
      assert p in pieces;
    }
  }

  /** Trimming a piece without separators leaves a piece without separators. */
  lemma TrimKeepsNoSeparator(p: string)
    requires HasNoSeparator(p)
    ensures HasNoSeparator(Trim(p))
  {
    var e := Trim(p);
    var i := SkipLeading(p, 0);
    TrimIsStretch(p);
    forall k | 0 <= k < |e|
      ensures !IsSeparator(e[k])
    {
      assert e[k] == p[i + k];
    }
  }

  /** Every raw entry is non-empty, holds no separator and has no white space
      at either end. */
  lemma RawEntriesAreClean(input: string)
    ensures forall e :: e in TrimAndDropEmpty(Split(input)) ==>
              e != "" && HasNoSeparator(e) && Trim(e) == e
  {
    SplitPiecesHaveNoSeparator(input, "");
    forall e | e in TrimAndDropEmpty(Split(input))
      ensures e != "" && HasNoSeparator(e) && Trim(e) == e
    {
      KeptEntriesComeFromPieces(Split(input), e);
      var p :| p in Split(input) && Trim(p) == e;
      TrimKeepsNoSeparator(p);
      TrimIdempotent(p);
    }
  }

  /** `url.startsWith('http') ? url : 'https://' + url`. */
  function WithScheme(entry: string): (r: string)
    ensures StartsWith(r, "http")
    ensures StartsWith(entry, "http") ==> r == entry
    ensures !StartsWith(entry, "http") ==> r == "https://" + entry && r[8..] == entry
  {
    if StartsWith(entry, "http") then entry else "https://" + entry
  }

  /** Adding the scheme twice adds it once. */
  lemma WithSchemeIdempotent(entry: string)
    ensures WithScheme(WithScheme(entry)) == WithScheme(entry)
  {
  }

  /** The test is on the four letters `http` only, so a host whose name starts
      with them goes through without a scheme. */
  lemma HttpNamedHostKeepsNoScheme()
    ensures WithScheme("httpbin.org") == "httpbin.org"
  {
    assert "httpbin.org"[..4] == "http";
  }

  /** The URLs `handleSubmit` collects: the valid entries with their scheme. */
  function Accepted(raw: seq<string>, isValid: string -> bool): (r: seq<string>)
    ensures |r| <= |raw|
    decreases |raw|
  {
    if raw == [] then []
    else
      var n := |raw| - 1;
      var u := WithScheme(raw[n]);
      Accepted(raw[..n], isValid) + (if isValid(u) then [u] else [])
  }

  /** The entries `handleSubmit` reports as invalid, as typed. */
  function Refused(raw: seq<string>, isValid: string -> bool): (r: seq<string>)
    ensures |r| <= |raw|
    ensures forall e :: e in r ==> e in raw && !isValid(WithScheme(e))
    ensures forall e :: e in raw && !isValid(WithScheme(e)) ==> e in r
    decreases |raw|
  {
    if raw == [] then []
    else
      var n := |raw| - 1;
      assert forall e :: e in raw <==> e in raw[..n] || e == raw[n];
      Refused(raw[..n], isValid) + (if isValid(WithScheme(raw[n])) then [] else [raw[n]])
  }

  /** With nothing refused, every entry is accepted, in order, with its
      scheme. */
  lemma {:induction false} NothingRefusedAcceptsAll(raw: seq<string>, isValid: string -> bool)
    requires Refused(raw, isValid) == []
    ensures |Accepted(raw, isValid)| == |raw|
    ensures forall i :: 0 <= i < |raw| ==> Accepted(raw, isValid)[i] == WithScheme(raw[i])
    decreases |raw|
  {
    if raw != [] {
      var n := |raw| - 1;
      var front := raw[..n];
      var u := WithScheme(raw[n]);
      assert raw[n] in raw;
      assert isValid(u);
      assert |Refused(front, isValid)| <= |Refused(raw, isValid)|;
      NothingRefusedAcceptsAll(front, isValid);
      var acc := Accepted(front, isValid);
      assert Accepted(raw, isValid) == acc + [u];
      forall i | 0 <= i < |raw|
        ensures Accepted(raw, isValid)[i] == WithScheme(raw[i])
      {
        if i < n {
          assert raw[i] == front[i];
        }
      }
    }
  }

  /** The validation loop of `handleSubmit`: every entry goes to exactly one of
      the two lists, in input order. */
  method Classify(raw: seq<string>, isValid: string -> bool) returns (valid: seq<string>, invalid: seq<string>)
    ensures valid == Accepted(raw, isValid)
    ensures invalid == Refused(raw, isValid)
    ensures |valid| + |invalid| == |raw|
    ensures forall u :: u in valid ==> isValid(u)
  {
    valid, invalid := [], [];
    var i := 0;
    while i < |raw|
      invariant 0 <= i <= |raw|
      invariant valid == Accepted(raw[..i], isValid)
      invariant invalid == Refused(raw[..i], isValid)
      invariant |valid| + |invalid| == i
      invariant forall u :: u in valid ==> isValid(u)
    {
      assert raw[..i + 1][..i] == raw[..i];
      var u := WithScheme(raw[i]);
      if isValid(u) {
        valid := valid + [u];
      } else {
        invalid := invalid + [raw[i]];
      }
      i := i + 1;
    }
    assert raw[..i] == raw;
  }

  /** What a submission leads to: the "at least one URL" message, the
      "invalid URLs" message listing the culprits, or `onScrape` with the URLs. */
  datatype Submission = NothingEntered | InvalidEntries(entries: seq<string>) | Submitted(urls: seq<string>)

  /** The decision of `handleSubmit` once the raw entries are known: all or
      nothing. */
  method SubmitEntries(raw: seq<string>, isValid: string -> bool) returns (outcome: Submission)
    ensures outcome.NothingEntered? <==> raw == []
    ensures outcome.InvalidEntries? <==> raw != [] && exists e :: e in raw && !isValid(WithScheme(e))
    ensures outcome.InvalidEntries? ==> outcome.entries == Refused(raw, isValid) && outcome.entries != []
    ensures outcome.Submitted? ==>
              |outcome.urls| == |raw| &&
              forall i :: 0 <= i < |outcome.urls| ==> outcome.urls[i] == WithScheme(raw[i]) && isValid(outcome.urls[i])
  {
    if |raw| == 0 {
      return NothingEntered;
    }
    var valid, invalid := Classify(raw, isValid);
    if |invalid| > 0 {
      assert invalid[0] in invalid;
      return InvalidEntries(invalid);
    }
    NothingRefusedAcceptsAll(raw, isValid);
    assert forall i :: 0 <= i < |valid| ==> valid[i] in valid;
    return Submitted(valid);
  }

  /** `handleSubmit`, given the text of the form and the URL constructor's
      verdict on a string. */
  method HandleSubmit(input: string, isValid: string -> bool) returns (outcome: Submission)
    ensures outcome.NothingEntered? <==> RawEntries(input) == []
    ensures outcome.InvalidEntries? <==>
              RawEntries(input) != [] && exists e :: e in RawEntries(input) && !isValid(WithScheme(e))
    ensures outcome.InvalidEntries? ==> outcome.entries == Refused(RawEntries(input), isValid)
    ensures outcome.Submitted? ==>
              |outcome.urls| == |RawEntries(input)| &&
              forall i :: 0 <= i < |outcome.urls| ==>
                outcome.urls[i] == WithScheme(RawEntries(input)[i]) && isValid(outcome.urls[i])
  {
    outcome := SubmitEntries(RawEntries(input), isValid);
  }
}
