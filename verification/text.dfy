/**
 * The Python string built-ins the range parser relies on: `str.strip()`,
 * `str.split(sep)`, `sep in s`, and `int()` on a decimal literal.
 */
module Text {
  import opened Wrappers

  /** The ASCII characters Python's `str.isspace()` accepts (used by `strip()` and `int()`). */
  predicate IsSpace(c: char) {
    c == ' ' || ('\t' <= c <= '\r') || ('\U{1C}' <= c <= '\U{1F}')
  }

  /** `s` without its leading whitespace. */
  function TrimStart(s: string): string {
    if s != [] && IsSpace(s[0]) then TrimStart(s[1..]) else s
  }

  /** `s` without its trailing whitespace. */
  function TrimEnd(s: string): string {
    if s != [] && IsSpace(s[|s| - 1]) then TrimEnd(s[..|s| - 1]) else s
  }

  /** Python's `s.strip()`. */
  function Strip(s: string): string {
    TrimEnd(TrimStart(s))
  }

  lemma {:induction false} TrimStartSpec(s: string)
    ensures |TrimStart(s)| <= |s| && TrimStart(s) == s[|s| - |TrimStart(s)|..]
    ensures forall k :: 0 <= k < |s| - |TrimStart(s)| ==> IsSpace(s[k])
    ensures TrimStart(s) == [] || !IsSpace(TrimStart(s)[0])
  {
    if s != [] && IsSpace(s[0]) {
      var rest := s[1..];
      TrimStartSpec(rest);
      var r := TrimStart(s);
      assert r == TrimStart(rest);
      assert rest[|rest| - |r|..] == s[|s| - |r|..];
      forall k | 0 <= k < |s| - |r|
        ensures IsSpace(s[k])
      {
        if k > 0 {
          assert s[k] == rest[k - 1];
        }
      }
    }
  }

  lemma {:induction false} TrimEndSpec(s: string)
    ensures |TrimEnd(s)| <= |s| && TrimEnd(s) == s[..|TrimEnd(s)|]
    ensures forall k :: |TrimEnd(s)| <= k < |s| ==> IsSpace(s[k])
    ensures TrimEnd(s) == [] || !IsSpace(TrimEnd(s)[|TrimEnd(s)| - 1])
  {
    if s != [] && IsSpace(s[|s| - 1]) {
      var init := s[..|s| - 1];
      TrimEndSpec(init);
      var r := TrimEnd(s);
      assert r == TrimEnd(init);
      assert init[..|r|] == s[..|r|];
      forall k | |r| <= k < |s|
        ensures IsSpace(s[k])
      {
        if k < |init| {
          assert s[k] == init[k];
        }
      }
    }
  }

  /**
   * `strip()` removes exactly the surrounding whitespace: the result is a slice
   * of `s`, everything before and after it is whitespace, and neither end of it is.
   */
  lemma StripSpec(s: string)
    ensures |TrimStart(s)| <= |s|
    ensures var r, lead := Strip(s), |s| - |TrimStart(s)|;
      lead + |r| <= |s| && r == s[lead..lead + |r|] &&
      (forall k :: 0 <= k < lead ==> IsSpace(s[k])) &&
      (forall k :: lead + |r| <= k < |s| ==> IsSpace(s[k]))
    ensures Strip(s) == [] || (!IsSpace(Strip(s)[0]) && !IsSpace(Strip(s)[|Strip(s)| - 1]))
  {
    var t := TrimStart(s);
    TrimStartSpec(s);
    var r := TrimEnd(t);
    TrimEndSpec(t);
    var lead := |s| - |t|;
    assert t == s[lead..];
    assert r == t[..|r|];
    assert r == s[lead..lead + |r|];
    forall k | lead + |r| <= k < |s|
      ensures IsSpace(s[k])
    {
      assert s[k] == t[k - lead];
    }
  }

  /** A string whose ends are not whitespace is left alone by `strip()`. */
  lemma StripKeepsTrimmed(s: string)
    requires s == [] || (!IsSpace(s[0]) && !IsSpace(s[|s| - 1]))
    ensures Strip(s) == s
  {
  }

  /** Text made of whitespace only. */
  predicate AllSpace(s: string) {
    forall i :: 0 <= i < |s| ==> IsSpace(s[i])
  }

  lemma {:induction false} TrimStartSkips(pre: string, x: string)
    requires AllSpace(pre)
    ensures TrimStart(pre + x) == TrimStart(x)
  {
    if pre == [] {
      assert pre + x == x;
    } else {
      assert (pre + x)[0] == pre[0];
      assert (pre + x)[1..] == pre[1..] + x;
      TrimStartSkips(pre[1..], x);
    }
  }

  lemma {:induction false} TrimEndSkips(x: string, post: string)
    requires AllSpace(post)
    ensures TrimEnd(x + post) == TrimEnd(x)
  {
    if post == [] {
      assert x + post == x;
    } else {
      var init := post[..|post| - 1];
      assert (x + post)[|x + post| - 1] == post[|post| - 1];
      assert (x + post)[..|x + post| - 1] == x + init;
      TrimEndSkips(x, init);
    }
  }

  /** `strip()` removes whatever whitespace surrounds a text whose ends are not whitespace. */
  lemma StripWrapped(pre: string, m: string, post: string)
    requires AllSpace(pre) && AllSpace(post)
    requires m != [] && !IsSpace(m[0]) && !IsSpace(m[|m| - 1])
    ensures Strip(pre + m + post) == m
  {
    assert pre + m + post == pre + (m + post);
    TrimStartSkips(pre, m + post);
    assert (m + post)[0] == m[0];
    assert TrimStart(m + post) == m + post;
    TrimEndSkips(m, post);
  }

  /** Stripping twice is stripping once. */
  lemma StripIdempotent(s: string)
    ensures Strip(Strip(s)) == Strip(s)
  {
    StripSpec(s);
    StripKeepsTrimmed(Strip(s));
  }

  /** Position of the first occurrence of `x` in `s` (`s.index(x)`). */
  function IndexOf<T(==)>(s: seq<T>, x: T): (k: nat)
    requires x in s
    ensures k < |s| && s[k] == x
  {
    if s[0] == x then 0 else 1 + IndexOf(s[1..], x)
  }

  /** Nothing before the first occurrence equals `x`. */
  lemma {:induction false} IndexOfFirst<T>(s: seq<T>, x: T)
    requires x in s
    ensures x !in s[..IndexOf(s, x)]
  {
    if s[0] != x {
      IndexOfFirst(s[1..], x);
      assert s[..IndexOf(s, x)] == [s[0]] + s[1..][..IndexOf(s[1..], x)];
    }
  }

  /** The first occurrence is the only position with `x` and nothing equal to `x` before it. */
  lemma IndexOfUnique<T>(s: seq<T>, x: T, k: nat)
    requires k < |s| && s[k] == x && x !in s[..k]
    ensures IndexOf(s, x) == k
  {
    IndexOfFirst(s, x);
  }

  /** The first occurrence of an element of `a` in `a + b` is its first occurrence in `a`. */
  lemma {:induction false} IndexOfPrefix<T>(a: seq<T>, b: seq<T>, x: T)
    requires x in a
    ensures IndexOf(a + b, x) == IndexOf(a, x)
  {
    var k := IndexOf(a, x);
    IndexOfFirst(a, x);
    assert (a + b)[..k] == a[..k];
    IndexOfUnique(a + b, x, k);
  }

  /** Python's `s.split(sep)`: the pieces between occurrences of `sep`, empty ones included. */
  function Split(s: string, sep: char): (parts: seq<string>)
    ensures |parts| >= 1
    decreases |s|
  {
    if sep in s then
      var k := IndexOf(s, sep);
      [s[..k]] + Split(s[k + 1..], sep)
    else
      [s]
  }

  /** No piece of a split holds the separator. */
  lemma {:induction false} SplitPiecesFree(s: string, sep: char)
    ensures forall i :: 0 <= i < |Split(s, sep)| ==> sep !in Split(s, sep)[i]
    decreases |s|
  {
    if sep in s {
      var k := IndexOf(s, sep);
      IndexOfFirst(s, sep);
      SplitPiecesFree(s[k + 1..], sep);
    }
  }

  /** Python's `sep.join(parts)`. */
  function Join(parts: seq<string>, sep: char): string
    requires |parts| >= 1
  {
    if |parts| == 1 then parts[0] else parts[0] + [sep] + Join(parts[1..], sep)
  }

  /** Splitting a join of separator-free pieces gives back the pieces. */
  lemma {:induction false} SplitJoin(parts: seq<string>, sep: char)
    requires |parts| >= 1
    requires forall i :: 0 <= i < |parts| ==> sep !in parts[i]
    ensures Split(Join(parts, sep), sep) == parts
  {
    var s := Join(parts, sep);
    if |parts| == 1 {
    } else {
      var rest := Join(parts[1..], sep);
      assert s == parts[0] + [sep] + rest;
      var k := |parts[0]|;
      assert s[k] == sep;
      assert s[..k] == parts[0];
      IndexOfUnique(s, sep, k);
      assert s[k + 1..] == rest;
      SplitJoin(parts[1..], sep);
    }
  }

  /** Joining the pieces of a split gives back the text: `split` loses nothing but the separators. */
  lemma {:induction false} JoinSplit(s: string, sep: char)
    ensures Join(Split(s, sep), sep) == s
    decreases |s|
  {
    if sep in s {
      var k := IndexOf(s, sep);
      var parts, rest := Split(s, sep), Split(s[k + 1..], sep);
      assert parts == [s[..k]] + rest;
      assert parts[0] == s[..k] && parts[1..] == rest && |parts| > 1;
      JoinSplit(s[k + 1..], sep);
      assert Join(parts, sep) == s[..k] + [sep] + s[k + 1..];
      assert s == s[..k] + [sep] + s[k + 1..];
    }
  }

  predicate IsDigit(c: char) {
    '0' <= c <= '9'
  }

  predicate AllDigits(s: string) {
    forall i :: 0 <= i < |s| ==> IsDigit(s[i])
  }

  /** A non-empty run of decimal digits. */
  predicate IsDigits(s: string) {
    |s| > 0 && AllDigits(s)
  }

  /** The value a run of decimal digits denotes. */
  function DigitsValue(s: string): nat
    requires AllDigits(s)
  {
    if s == [] then 0
    else 10 * DigitsValue(s[..|s| - 1]) + ((s[|s| - 1] as int) - ('0' as int))
  }

  /**
   * Python's `int(s)` restricted to base-10 literals: surrounding whitespace,
   * an optional sign, then one or more decimal digits. Anything else fails
   * (Python raises `ValueError`), which is `None` here.
   */
  function ParseInt(s: string): Option<int> {
    var t := Strip(s);
    if |t| > 0 && (t[0] == '+' || t[0] == '-') then
      if IsDigits(t[1..]) then
        var v: int := DigitsValue(t[1..]);
        Some(if t[0] == '-' then -v else v)
      else
        None
    else if IsDigits(t) then
      Some(DigitsValue(t))
    else
      None
  }

  /** `int()` of text that strips to an optional sign and digits. */
  lemma ParseIntSigned(s: string, sign: string, d: string)
    requires Strip(s) == sign + d && IsDigits(d)
    requires sign == "" || sign == "+" || sign == "-"
    ensures var v: int := DigitsValue(d); ParseInt(s) == Some(if sign == "-" then -v else v)
  {
    var t := Strip(s);
    if sign == "" {
      assert t == d;
    } else {
      assert t[1..] == d;
    }
  }

  /**
   * `int()` accepts decimal digits with an optional sign, surrounded by any
   * whitespace, and yields their value, negated after a minus sign.
   */
  lemma ParseIntLiteral(pre: string, sign: string, d: string, post: string)
    requires AllSpace(pre) && AllSpace(post) && IsDigits(d)
    requires sign == "" || sign == "+" || sign == "-"
    ensures var v: int := DigitsValue(d); ParseInt(pre + sign + d + post) == Some(if sign == "-" then -v else v)
  {
    var m := sign + d;
    assert pre + sign + d + post == pre + m + post;
    assert m[|m| - 1] == d[|d| - 1];
    StripWrapped(pre, m, post);
    ParseIntSigned(pre + m + post, sign, d);
  }

  /** `int()` fails on stripped text holding anything but digits after an optional leading sign. */
  lemma ParseIntRejectsNonDigit(s: string, k: nat)
    requires k < |Strip(s)| && !IsDigit(Strip(s)[k])
    requires k > 0 || (Strip(s)[0] != '+' && Strip(s)[0] != '-')
    ensures ParseInt(s) == None
  {
    var t := Strip(s);
    if t[0] == '+' || t[0] == '-' {
      assert !IsDigit(t[1..][k - 1]);
    }
  }

  /** `int()` fails on blank text and on a sign with no digits. */
  lemma ParseIntRejectsBare(s: string)
    requires Strip(s) == [] || Strip(s) == "+" || Strip(s) == "-"
    ensures ParseInt(s) == None
  {
  }

  /** A sign anywhere but at the front of the trimmed text makes `int()` fail (so "2-3" is rejected). */
  lemma ParseIntRejectsInnerSign(s: string, k: nat)
    requires 0 < k < |Strip(s)| && (Strip(s)[k] == '-' || Strip(s)[k] == '+')
    ensures ParseInt(s) == None
  {
    var t := Strip(s);
    assert !IsDigit(t[k]);
    if t[0] == '+' || t[0] == '-' {
      assert !IsDigit(t[1..][k - 1]);
    }
  }

  /** The decimal text of a natural number (`str(n)`). */
  function ShowNat(n: nat): (s: string)
    ensures IsDigits(s)
  {
    var last := ('0' as int + n % 10) as char;
    if n < 10 then [last] else ShowNat(n / 10) + [last]
  }

  lemma {:induction false} ShowNatValue(n: nat)
    ensures DigitsValue(ShowNat(n)) == n
  {
    var s := ShowNat(n);
    if n >= 10 {
      ShowNatValue(n / 10);
      assert s[..|s| - 1] == ShowNat(n / 10);
    }
  }

  /** `int(str(n)) == n` for every natural number. */
  lemma ParseIntShowNat(n: nat)
    ensures ParseInt(ShowNat(n)) == Some(n)
  {
    var s := ShowNat(n);
    StripKeepsTrimmed(s);
    ShowNatValue(n);
  }
}
