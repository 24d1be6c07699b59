/**
 * The page-range parser (`parse_range`): a comma-separated spec such as
 * "1,3,8-12,-5,7-" becomes an ordered list of 1-based intervals whose
 * bounds may be open. Nothing is checked against a document here.
 */
module RangeParser {
  import opened Wrappers
  import opened Text

  /** A parsed token: `None` as start means "from page 1", as end "through the last page". */
  datatype Interval = Interval(start: Option<int>, end: Option<int>)

  /** What one comma-separated token yields: nothing, an interval, or the text `int()` rejected. */
  datatype TokenResult = Blank | Parsed(interval: Interval) | Invalid(text: string)

  /** One side of a dashed token: empty means open, otherwise it must be an integer. */
  function ParseBound(side: string): Result<Option<int>, string> {
    if side == [] then Ok(None)
    else match ParseInt(side)
      case Some(n) => Ok(Some(n))
      case None => Err(side)
  }

  /** The body of the token loop: strip, skip blanks, split at the first dash or read `N` as `(N, N)`. */
  function ParseToken(token: string): TokenResult {
    var t := Strip(token);
    if t == [] then Blank
    else if '-' in t then
      var k := IndexOf(t, '-');
      match ParseBound(t[..k])
      case Err(bad) => Invalid(bad)
      case Ok(start) =>
        match ParseBound(t[k + 1..])
        case Err(bad) => Invalid(bad)
        case Ok(end) => Parsed(Interval(start, end))
    else
      match ParseInt(t)
      case None => Invalid(t)
      case Some(n) => Parsed(Interval(Some(n), Some(n)))
  }

  /** The token results taken in order; the first rejected token ends the parse. */
  function Collect(results: seq<TokenResult>): Result<seq<Interval>, string> {
    if results == [] then Ok([])
    else
      match Collect(results[..|results| - 1])
      case Err(bad) => Err(bad)
      case Ok(parts) =>
        match results[|results| - 1]
        case Blank => Ok(parts)
        case Parsed(iv) => Ok(parts + [iv])
        case Invalid(bad) => Err(bad)
  }

  /** The result of every token, position by position. */
  function ParseEach(tokens: seq<string>): (results: seq<TokenResult>)
    ensures |results| == |tokens|
  {
    if tokens == [] then [] else ParseEach(tokens[..|tokens| - 1]) + [ParseToken(tokens[|tokens| - 1])]
  }

  lemma {:induction false} ParseEachAt(tokens: seq<string>, i: nat)
    requires i < |tokens|
    ensures ParseEach(tokens)[i] == ParseToken(tokens[i])
  {
    if i < |tokens| - 1 {
      ParseEachAt(tokens[..|tokens| - 1], i);
    }
  }

  lemma ParseEachSnoc(tokens: seq<string>)
    requires tokens != []
    ensures ParseEach(tokens) == ParseEach(tokens[..|tokens| - 1]) + [ParseToken(tokens[|tokens| - 1])]
  {
  }

  lemma CollectSnoc(results: seq<TokenResult>, r: TokenResult)
    ensures Collect(results + [r]) == match Collect(results)
      case Err(bad) => Err(bad)
      case Ok(parts) => (match r
        case Blank => Ok(parts)
        case Parsed(iv) => Ok(parts + [iv])
        case Invalid(bad) => Err(bad))
  {
    assert (results + [r])[..|results|] == results;
  }

  /** The intervals of `tokens` taken in order; the first rejected token ends the parse. */
  function ParseTokens(tokens: seq<string>): Result<seq<Interval>, string> {
    if tokens == [] then Ok([])
    else
      match ParseTokens(tokens[..|tokens| - 1])
      case Err(bad) => Err(bad)
      case Ok(parts) =>
        match ParseToken(tokens[|tokens| - 1])
        case Blank => Ok(parts)
        case Parsed(iv) => Ok(parts + [iv])
        case Invalid(bad) => Err(bad)
  }

  /** Parsing the tokens is collecting their individual results. */
  lemma {:induction false} ParseTokensCollect(tokens: seq<string>)
    ensures ParseTokens(tokens) == Collect(ParseEach(tokens))
  {
    if tokens != [] {
      var init := tokens[..|tokens| - 1];
      ParseTokensCollect(init);
      ParseEachSnoc(tokens);
      CollectSnoc(ParseEach(init), ParseToken(tokens[|tokens| - 1]));
    }
  }

  /** Parsing one more token: the token loop's step. */
  lemma ParseTokensAppend(init: seq<string>, t: string, res: TokenResult)
    requires ParseToken(t) == res
    ensures ParseTokens(init + [t]) == match ParseTokens(init)
      case Err(bad) => Err(bad)
      case Ok(parts) => (match res
        case Blank => Ok(parts)
        case Parsed(iv) => Ok(parts + [iv])
        case Invalid(bad) => Err(bad))
  {
    assert (init + [t])[..|init|] == init;
  }

  /** What `parse_range(spec)` returns, or the text whose `int()` conversion raised. */
  function ParseRangeSpec(spec: string): Result<seq<Interval>, string> {
    ParseTokens(Split(spec, ','))
  }

  /** The tokens that are not blank after stripping, in order. */
  function NonBlank(tokens: seq<string>): seq<string> {
    if tokens == [] then []
    else
      var last := tokens[|tokens| - 1];
      NonBlank(tokens[..|tokens| - 1]) + (if Strip(last) == [] then [] else [last])
  }

  /** `parse_range`: the token loop, appending one interval per non-blank token. */
  method ParseRange(spec: string) returns (r: Result<seq<Interval>, string>)
    ensures r == ParseRangeSpec(spec)
  {
    var tokens := Split(spec, ',');
    var parts: seq<Interval> := [];
    var i := 0;
    while i < |tokens|
      invariant 0 <= i <= |tokens|
      invariant ParseTokens(tokens[..i]) == Ok(parts)
    {
      var res := ParseToken(tokens[i]);
      assert tokens[..i + 1] == tokens[..i] + [tokens[i]];
      ParseTokensAppend(tokens[..i], tokens[i], res);
      match res {
        case Blank =>
        case Parsed(iv) =>
          parts := parts + [iv];
        case Invalid(bad) =>
          ParseTokensErrorPersists(tokens, i + 1);
          return Err(bad);
      }
      i := i + 1;
    }
    assert tokens[..i] == tokens;
    r := Ok(parts);
  }

  /** Once a prefix of the tokens fails, the whole list fails with the same text. */
  lemma {:induction false} ParseTokensErrorPersists(tokens: seq<string>, n: nat)
    requires n <= |tokens| && ParseTokens(tokens[..n]).Err?
    ensures ParseTokens(tokens) == ParseTokens(tokens[..n])
    decreases |tokens| - n
  {
    if n < |tokens| {
      assert tokens[..n + 1][..n] == tokens[..n];
      ParseTokensErrorPersists(tokens, n + 1);
    } else {
      assert tokens[..n] == tokens;
    }
  }

  /** The intervals among the token results, in order. */
  function Intervals(results: seq<TokenResult>): seq<Interval> {
    if results == [] then []
    else
      var last := results[|results| - 1];
      Intervals(results[..|results| - 1]) + (if last.Parsed? then [last.interval] else [])
  }

  /** Collecting succeeds exactly when no result is rejected, and then keeps every interval in order. */
  lemma {:induction false} CollectOk(results: seq<TokenResult>)
    ensures Collect(results).Ok? <==> forall i :: 0 <= i < |results| ==> !results[i].Invalid?
    ensures Collect(results).Ok? ==> Collect(results).value == Intervals(results)
  {
    if results != [] {
      var init := results[..|results| - 1];
      CollectOk(init);
      assert forall i :: 0 <= i < |init| ==> init[i] == results[i];
    }
  }

  /** A failed collection reports the first rejected token's text. */
  lemma {:induction false} CollectFirstError(results: seq<TokenResult>)
    requires Collect(results).Err?
    ensures exists i :: 0 <= i < |results| && results[i] == Invalid(Collect(results).error) &&
              forall j :: 0 <= j < i ==> !results[j].Invalid?
  {
    var init := results[..|results| - 1];
    assert forall i :: 0 <= i < |init| ==> init[i] == results[i];
    if Collect(init).Err? {
      CollectFirstError(init);
      var i :| 0 <= i < |init| && init[i] == Invalid(Collect(init).error) &&
              forall j :: 0 <= j < i ==> !init[j].Invalid?;
      assert results[i] == Invalid(Collect(results).error);
    } else {
      CollectOk(init);
      assert results[|init|] == Invalid(Collect(results).error);
    }
  }

  /** A token is skipped exactly when it is blank after stripping. */
  lemma BlankIff(token: string)
    ensures ParseToken(token).Blank? <==> Strip(token) == []
  {
  }

  /** Each non-blank token contributes exactly one interval and blank ones none: the parsed list is the non-blank tokens' intervals, in token order. */
  lemma {:induction false} ParseTokensIntervals(tokens: seq<string>)
    requires ParseTokens(tokens).Ok?
    ensures |ParseTokens(tokens).value| == |NonBlank(tokens)|
    ensures forall j :: 0 <= j < |NonBlank(tokens)| ==> ParseToken(NonBlank(tokens)[j]) == Parsed(ParseTokens(tokens).value[j])
  {
    if tokens != [] {
      var init, last := tokens[..|tokens| - 1], tokens[|tokens| - 1];
      ParseTokensIntervals(init);
      BlankIff(last);
      var parts := ParseTokens(init).value;
      if Strip(last) == [] {
        assert NonBlank(tokens) == NonBlank(init);
      } else {
        var iv := ParseToken(last).interval;
        assert ParseTokens(tokens).value == parts + [iv];
        assert NonBlank(tokens) == NonBlank(init) + [last];
      }
    }
  }

  /** The result of each token, as `ParseEach` records it. */
  lemma ParseEachAll(tokens: seq<string>)
    ensures forall i :: 0 <= i < |tokens| ==> ParseEach(tokens)[i] == ParseToken(tokens[i])
  {
    forall i | 0 <= i < |tokens|
      ensures ParseEach(tokens)[i] == ParseToken(tokens[i])
    {
      ParseEachAt(tokens, i);
    }
  }

  /** The parse succeeds exactly when no token is rejected by `int()`. */
  lemma ParseTokensOkIff(tokens: seq<string>)
    ensures ParseTokens(tokens).Ok? <==> forall i :: 0 <= i < |tokens| ==> !ParseToken(tokens[i]).Invalid?
  {
    ParseTokensCollect(tokens);
    ParseEachAll(tokens);
    CollectOk(ParseEach(tokens));
  }

  /** A failed parse reports the text of the first token `int()` rejected. */
  lemma ParseTokensFirstError(tokens: seq<string>)
    requires ParseTokens(tokens).Err?
    ensures exists i :: 0 <= i < |tokens| && ParseToken(tokens[i]) == Invalid(ParseTokens(tokens).error) &&
                        forall j :: 0 <= j < i ==> !ParseToken(tokens[j]).Invalid?
  {
    var results := ParseEach(tokens);
    ParseTokensCollect(tokens);
    ParseEachAll(tokens);
    CollectFirstError(results);
    var i :| 0 <= i < |results| && results[i] == Invalid(Collect(results).error) &&
              forall j :: 0 <= j < i ==> !results[j].Invalid?;
    assert ParseToken(tokens[i]) == Invalid(ParseTokens(tokens).error);
  }

  // ----- Printing intervals back as a spec, the partner of the parser -----

  /** Bounds that can be written in a spec without a leading sign. */
  predicate Printable(iv: Interval) {
    (iv.start.Some? ==> iv.start.value >= 0) && (iv.end.Some? ==> iv.end.value >= 0)
  }

  function ShowBound(b: Option<int>): string
    requires b.Some? ==> b.value >= 0
  {
    if b.None? then [] else ShowNat(b.value)
  }

  /** The token for an interval: `N` for `(N, N)`, otherwise `A-B` with open sides left empty. */
  function FormatInterval(iv: Interval): string
    requires Printable(iv)
  {
    if iv.start.Some? && iv.end.Some? && iv.start.value == iv.end.value then ShowNat(iv.start.value)
    else ShowBound(iv.start) + "-" + ShowBound(iv.end)
  }

  function FormatTokens(ivs: seq<Interval>): (tokens: seq<string>)
    requires forall i :: 0 <= i < |ivs| ==> Printable(ivs[i])
    ensures |tokens| == |ivs|
  {
    if ivs == [] then [] else FormatTokens(ivs[..|ivs| - 1]) + [FormatInterval(ivs[|ivs| - 1])]
  }

  /** The spec text for a list of intervals, tokens joined by commas. */
  function FormatRange(ivs: seq<Interval>): string
    requires forall i :: 0 <= i < |ivs| ==> Printable(ivs[i])
  {
    if ivs == [] then "" else Join(FormatTokens(ivs), ',')
  }

  lemma ParseBoundShow(b: Option<int>)
    requires b.Some? ==> b.value >= 0
    ensures ParseBound(ShowBound(b)) == Ok(b)
  {
    if b.Some? {
      ParseIntShowNat(b.value);
    }
  }

  /**
   * A non-blank token without a dash is one number `N`: `int()` of the token
   * gives the interval `(N, N)`, and when `int()` fails the token is rejected
   * with its stripped text.
   */
  lemma ParseTokenNumber(token: string)
    requires '-' !in token && Strip(token) != []
    ensures ParseToken(token) == match ParseInt(token)
      case None => Invalid(Strip(token))
      case Some(n) => Parsed(Interval(Some(n), Some(n)))
  {
    var t := Strip(token);
    StripSpec(token);
    var lead := |token| - |TrimStart(token)|;
    assert '-' !in t by {
      forall i | 0 <= i < |t|
        ensures t[i] != '-'
      {
        assert t[i] == token[lead + i];
      }
    }
    StripIdempotent(token);
  }

  /**
   * A stripped token `A-B` whose first dash follows `A` is split there: it
   * fails with `A` when `int()` rejects a non-empty `A`, otherwise with `B`
   * when `int()` rejects a non-empty `B`, and otherwise is the interval whose
   * bounds are their values, an empty side being open.
   */
  lemma ParseTokenDashed(a: string, b: string)
    requires '-' !in a && Strip(a + "-" + b) == a + "-" + b
    ensures ParseToken(a + "-" + b) ==
      if ParseBound(a).Err? then Invalid(a)
      else if ParseBound(b).Err? then Invalid(b)
      else Parsed(Interval(ParseBound(a).value, ParseBound(b).value))
  {
    var t := a + "-" + b;
    assert t[..|a|] == a;
    assert t[|a|] == '-';
    IndexOfUnique(t, '-', |a|);
    assert t[|a| + 1..] == b;
  }

  lemma ParseBoundDigits(d: string)
    requires IsDigits(d)
    ensures ParseBound(d) == Ok(Some(DigitsValue(d)))
  {
    ParseIntLiteral("", "", d, "");
    assert "" + "" + d + "" == d;
  }

  lemma ParseBoundNegative(d: string)
    requires IsDigits(d)
    ensures var v: int := DigitsValue(d); ParseBound("-" + d) == Ok(Some(-v))
  {
    ParseIntLiteral("", "-", d, "");
    assert "" + "-" + d + "" == "-" + d;
  }

  /** A negative end is accepted, since `int()` takes a sign: `A--B` is the interval `(A, -B)`. */
  lemma NegativeEndAccepted(a: string, b: string)
    requires IsDigits(a) && IsDigits(b)
    ensures var v: int := DigitsValue(b); ParseToken(a + "--" + b) == Parsed(Interval(Some(DigitsValue(a)), Some(-v)))
  {
    var right := "-" + b;
    var t := a + "-" + right;
    assert t == a + "--" + b;
    assert t[0] == a[0] && t[|t| - 1] == b[|b| - 1];
    StripKeepsTrimmed(t);
    assert '-' !in a by {
      assert forall j :: 0 <= j < |a| ==> IsDigit(a[j]);
    }
    ParseBoundDigits(a);
    ParseBoundNegative(b);
    ParseTokenDashed(a, right);
  }

  /** Every printed token parses back to its interval. */
  lemma ParseTokenFormat(iv: Interval)
    requires Printable(iv)
    ensures ParseToken(FormatInterval(iv)) == Parsed(iv)
  {
    if iv.start.Some? && iv.end.Some? && iv.start.value == iv.end.value {
      var t := ShowNat(iv.start.value);
      assert '-' !in t by {
        assert forall j :: 0 <= j < |t| ==> IsDigit(t[j]);
      }
      StripKeepsTrimmed(t);
      ParseIntShowNat(iv.start.value);
      ParseTokenNumber(t);
    } else {
      var a, b := ShowBound(iv.start), ShowBound(iv.end);
      var t := a + "-" + b;
      assert t[0] == '-' || IsDigit(t[0]);
      assert t[|t| - 1] == '-' || IsDigit(t[|t| - 1]);
      StripKeepsTrimmed(t);
      assert '-' !in a by {
        assert forall j :: 0 <= j < |a| ==> IsDigit(a[j]);
      }
      ParseBoundShow(iv.start);
      ParseBoundShow(iv.end);
      ParseTokenDashed(a, b);
    }
  }

  lemma {:induction false} ParseFormatTokens(ivs: seq<Interval>)
    requires forall i :: 0 <= i < |ivs| ==> Printable(ivs[i])
    ensures ParseTokens(FormatTokens(ivs)) == Ok(ivs)
  {
    if ivs != [] {
      var init, last := ivs[..|ivs| - 1], ivs[|ivs| - 1];
      assert init + [last] == ivs;
      var toks, t := FormatTokens(init), FormatInterval(last);
      assert FormatTokens(ivs) == toks + [t];
      ParseFormatTokens(init);
      ParseTokenFormat(last);
      ParseTokensAppend(toks, t, Parsed(last));
      assert ParseTokens(toks + [t]) == Ok(init + [last]);
    }
  }

  /** Printed tokens hold digits and dashes only, so never a comma. */
  lemma {:induction false} FormatTokensCommaFree(ivs: seq<Interval>)
    requires forall i :: 0 <= i < |ivs| ==> Printable(ivs[i])
    ensures forall i :: 0 <= i < |ivs| ==> ',' !in FormatTokens(ivs)[i]
  {
    if ivs != [] {
      var init, iv := ivs[..|ivs| - 1], ivs[|ivs| - 1];
      FormatTokensCommaFree(init);
      var t := FormatInterval(iv);
      if iv.start.Some? && iv.end.Some? && iv.start.value == iv.end.value {
        assert forall j :: 0 <= j < |t| ==> IsDigit(t[j]);
      } else {
        var a, b := ShowBound(iv.start), ShowBound(iv.end);
        assert t == a + "-" + b;
        assert forall j :: 0 <= j < |a| ==> IsDigit(a[j]);
        assert forall j :: 0 <= j < |b| ==> IsDigit(b[j]);
      }
    }
  }

  /** Round trip: printing intervals with non-negative bounds as a spec and parsing it gives them back. */
  lemma ParseFormatRange(ivs: seq<Interval>)
    requires forall i :: 0 <= i < |ivs| ==> Printable(ivs[i])
    ensures ParseRangeSpec(FormatRange(ivs)) == Ok(ivs)
  {
    if ivs == [] {
      assert Split("", ',') == [""];
      assert [""][..0] == [];
    } else {
      FormatTokensCommaFree(ivs);
      SplitJoin(FormatTokens(ivs), ',');
      ParseFormatTokens(ivs);
    }
  }

  /** A token with a second dash fails: the right side of the first dash, still holding a dash, is not an integer. */
  lemma SecondDashRejected(a: string, b: string, c: string)
    requires AllDigits(a) && IsDigits(b) && AllDigits(c)
    ensures ParseToken(a + "-" + b + "-" + c) == Invalid(b + "-" + c)
  {
    var right := b + "-" + c;
    var t := a + "-" + right;
    assert t == a + "-" + b + "-" + c;
    assert t[0] == '-' || IsDigit(t[0]);
    assert t[|t| - 1] == '-' || IsDigit(t[|t| - 1]);
    StripKeepsTrimmed(t);
    assert '-' !in a by {
      assert forall j :: 0 <= j < |a| ==> IsDigit(a[j]);
    }
    if a != [] {
      ParseBoundDigits(a);
    }
    assert IsDigit(right[0]);
    assert right[|right| - 1] == '-' || IsDigit(right[|right| - 1]);
    StripKeepsTrimmed(right);
    ParseIntRejectsInnerSign(right, |b|);
    ParseTokenDashed(a, right);
  }

}
