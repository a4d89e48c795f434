/**
 * The few pieces of Rust's string library the core relies on: `char::is_whitespace`,
 * `str::trim`, `str::to_ascii_uppercase`, `str::lines`, `str::split_whitespace`
 * and `<usize as FromStr>::from_str`.  Strings are sequences of Unicode scalar values.
 */
module Text {
  import opened Wrappers

  /** Rust's `char::is_whitespace`: the characters with the Unicode White_Space property. */
  predicate IsWhitespace(c: char) {
    var n := c as int;
    (0x09 <= n <= 0x0D) || n == 0x20 || n == 0x85 || n == 0xA0 || n == 0x1680
    || (0x2000 <= n <= 0x200A) || n == 0x2028 || n == 0x2029 || n == 0x202F
    || n == 0x205F || n == 0x3000
  }

  function TrimStart(s: string): (r: string)
    ensures |r| <= |s|
    ensures r == [] || !IsWhitespace(r[0])
  {
    if s != [] && IsWhitespace(s[0]) then TrimStart(s[1..]) else s
  }

  function TrimEnd(s: string): (r: string)
    ensures |r| <= |s| && r == s[..|r|]
    ensures r == [] || !IsWhitespace(r[|r| - 1])
  {
    if s != [] && IsWhitespace(s[|s| - 1]) then TrimEnd(s[..|s| - 1]) else s
  }

  /** `str::trim`: drop leading and trailing whitespace. */
  function Trim(s: string): string {
    TrimEnd(TrimStart(s))
  }

  function UpperChar(c: char): char {
    if 'a' <= c <= 'z' then (c as int - 32) as char else c
  }

  /** `str::to_ascii_uppercase`: only `a`..`z` change. */
  function ToAsciiUpper(s: string): (r: string)
    ensures |r| == |s|
    ensures forall i :: 0 <= i < |s| ==> r[i] == UpperChar(s[i])
  {
    seq(|s|, i requires 0 <= i < |s| => UpperChar(s[i]))
  }

  lemma TrimStartIdle(s: string)
    requires s == [] || !IsWhitespace(s[0])
    ensures TrimStart(s) == s
  {
  }

  lemma TrimEndIdle(s: string)
    requires s == [] || !IsWhitespace(s[|s| - 1])
    ensures TrimEnd(s) == s
  {
  }

  /** A string with no whitespace at its start keeps that property when cut at the end. */
  lemma {:induction false} TrimEndKeepsStart(s: string)
    requires s == [] || !IsWhitespace(s[0])
    ensures TrimEnd(s) == [] || !IsWhitespace(TrimEnd(s)[0])
  {
    if s != [] && IsWhitespace(s[|s| - 1]) {
      TrimEndKeepsStart(s[..|s| - 1]);
    }
  }

  /** Trimming twice is trimming once. */
  lemma TrimIdempotent(s: string)
    ensures Trim(Trim(s)) == Trim(s)
  {
    var t := Trim(s);
    TrimEndKeepsStart(TrimStart(s));
    TrimStartIdle(t);
    TrimEndIdle(t);
  }

  lemma UpperIdempotent(s: string)
    ensures ToAsciiUpper(ToAsciiUpper(s)) == ToAsciiUpper(s)
  {
  }

  /** Upper-casing never turns a character into whitespace or back. */
  lemma UpperKeepsWhitespace(c: char)
    ensures IsWhitespace(UpperChar(c)) == IsWhitespace(c)
  {
  }

  lemma {:induction false} UpperTrimStartCommute(s: string)
    ensures ToAsciiUpper(TrimStart(s)) == TrimStart(ToAsciiUpper(s))
  {
    var u := ToAsciiUpper(s);
    if s != [] {
      UpperKeepsWhitespace(s[0]);
      if IsWhitespace(s[0]) {
        assert ToAsciiUpper(s[1..]) == u[1..];
        UpperTrimStartCommute(s[1..]);
      }
    }
  }

  lemma {:induction false} UpperTrimEndCommute(s: string)
    ensures ToAsciiUpper(TrimEnd(s)) == TrimEnd(ToAsciiUpper(s))
  {
    var u := ToAsciiUpper(s);
    if s != [] {
      UpperKeepsWhitespace(s[|s| - 1]);
      if IsWhitespace(s[|s| - 1]) {
        assert ToAsciiUpper(s[..|s| - 1]) == u[..|u| - 1];
        UpperTrimEndCommute(s[..|s| - 1]);
      }
    }
  }

  /** Trimming and ASCII upper-casing commute. */
  lemma UpperTrimCommute(s: string)
    ensures ToAsciiUpper(Trim(s)) == Trim(ToAsciiUpper(s))
  {
    UpperTrimEndCommute(TrimStart(s));
    UpperTrimStartCommute(s);
  }

  /** The label a case-insensitive lookup compares: trimmed, then ASCII upper-cased. */
  function Normalized(s: string): string {
    ToAsciiUpper(Trim(s))
  }

  lemma NormalizedIdempotent(s: string)
    ensures Normalized(Normalized(s)) == Normalized(s)
  {
    UpperTrimCommute(Trim(s));
    TrimIdempotent(s);
    UpperIdempotent(Trim(s));
  }

  lemma NormalizedIgnoresCase(s: string)
    ensures Normalized(ToAsciiUpper(s)) == Normalized(s)
  {
    UpperTrimCommute(s);
    UpperIdempotent(Trim(s));
  }

  lemma NormalizedIgnoresPadding(s: string)
    ensures Normalized(Trim(s)) == Normalized(s)
  {
    TrimIdempotent(s);
  }

  // ---------------------------------------------------------------------------
  // Lines

  /**
   * Position of the first `x` in `s`, or `|s|` when there is none: the order search
   * `iter().position(|e| *e == x).unwrap_or(len)`, and the search for a line ending.
   */
  function FirstIndex<T(==)>(s: seq<T>, x: T): (i: nat)
    ensures i <= |s|
    ensures i < |s| ==> s[i] == x
    ensures forall j :: 0 <= j < i ==> s[j] != x
  {
    if s == [] then 0
    else if s[0] == x then 0
    else 1 + FirstIndex(s[1..], x)
  }

  /** A line that ended in "\r\n" loses its '\r'. */
  function StripCr(line: string): string {
    if line != [] && line[|line| - 1] == '\r' then line[..|line| - 1] else line
  }

  /**
   * `str::lines`: split at each '\n', drop a '\r' just before it; a final line
   * ending is optional and produces no empty line after it.
   */
  function Lines(s: string): (r: seq<string>)
    ensures s == [] <==> r == []
    decreases |s|
  {
    if s == [] then []
    else
      var i := FirstIndex(s, '\n');
      if i == |s| then [s]
      else [StripCr(s[..i])] + Lines(s[i + 1..])
  }

  lemma LinesCons(line: string, rest: string)
    requires '\n' !in line
    ensures Lines(line + "\n" + rest) == [StripCr(line)] + Lines(rest)
  {
    var s := line + "\n" + rest;
    FirstIndexExact(s, '\n', |line|);
    assert s[..|line|] == line;
    assert s[|line| + 1..] == rest;
  }

  lemma {:induction false} FirstIndexExact(s: string, c: char, n: nat)
    requires n < |s| && s[n] == c
    requires forall j :: 0 <= j < n ==> s[j] != c
    ensures FirstIndex(s, c) == n
  {
    if n > 0 {
      FirstIndexExact(s[1..], c, n - 1);
    }
  }

  // ---------------------------------------------------------------------------
  // Whitespace-separated tokens

  /** Position of the first whitespace character, or `|s|`. */
  function TokenLength(s: string): (i: nat)
    ensures i <= |s|
    ensures forall j :: 0 <= j < i ==> !IsWhitespace(s[j])
    ensures i < |s| ==> IsWhitespace(s[i])
  {
    if s == [] || IsWhitespace(s[0]) then 0 else 1 + TokenLength(s[1..])
  }

  /** `str::split_whitespace`: the maximal non-empty runs of non-whitespace characters. */
  function SplitWhitespace(s: string): (r: seq<string>)
    ensures forall k :: 0 <= k < |r| ==> r[k] != []
    decreases |s|
  {
    var t := TrimStart(s);
    if t == [] then []
    else
      var n := TokenLength(t);
      [t[..n]] + SplitWhitespace(t[n..])
  }

  lemma SplitCons(token: string, sep: char, rest: string)
    requires token != [] && forall j :: 0 <= j < |token| ==> !IsWhitespace(token[j])
    requires IsWhitespace(sep)
    ensures SplitWhitespace(token + [sep] + rest) == [token] + SplitWhitespace([sep] + rest)
  {
    var s := token + [sep] + rest;
    assert s[0] == token[0];
    TrimStartIdle(s);
    forall j | 0 <= j < |token| ensures !IsWhitespace(s[j]) {
      assert s[j] == token[j];
    }
    assert s[|token|] == sep;
    TokenLengthExact(s, |token|);
    assert s[..|token|] == token;
    assert s[|token|..] == [sep] + rest;
  }

  lemma SplitLast(token: string)
    requires token != [] && forall j :: 0 <= j < |token| ==> !IsWhitespace(token[j])
    ensures SplitWhitespace(token) == [token]
  {
    TrimStartIdle(token);
    TokenLengthExact(token, |token|);
    assert token[|token|..] == [];
    assert SplitWhitespace([]) == [];
    assert token[..|token|] == token;
  }

  lemma SplitSkip(sep: char, rest: string)
    requires IsWhitespace(sep)
    ensures SplitWhitespace([sep] + rest) == SplitWhitespace(rest)
  {
    assert ([sep] + rest)[1..] == rest;
  }

  lemma {:induction false} TokenLengthExact(s: string, n: nat)
    requires n <= |s|
    requires forall j :: 0 <= j < n ==> !IsWhitespace(s[j])
    requires n == |s| || IsWhitespace(s[n])
    ensures TokenLength(s) == n
  {
    if n > 0 {
      TokenLengthExact(s[1..], n - 1);
    }
  }

  // ---------------------------------------------------------------------------
  // Unsigned integers

  const USIZE_LIMIT: nat := 0x1_0000_0000_0000_0000

  predicate IsDigit(c: char) { '0' <= c <= '9' }

  /** The value of a string of decimal digits, most significant first. */
  function DigitsValue(d: string): nat
    requires forall j :: 0 <= j < |d| ==> IsDigit(d[j])
  {
    if d == [] then 0
    else
      var last := d[|d| - 1];
      assert IsDigit(last);
      10 * DigitsValue(d[..|d| - 1]) + (last as int - '0' as int)
  }

  /**
   * `<usize as FromStr>::from_str` on a 64-bit target: an optional '+', then at
   * least one decimal digit, and a value below 2^64; nothing else is accepted.
   */
  function ParseUsize(t: string): (r: Option<nat>)
    ensures r.Some? ==> r.value < USIZE_LIMIT
    ensures t == [] ==> r.None?
  {
    var digits := if t != [] && t[0] == '+' then t[1..] else t;
    if digits == [] || exists j :: 0 <= j < |digits| && !IsDigit(digits[j]) then None
    else
      var v := DigitsValue(digits);
      if v < USIZE_LIMIT then Some(v) else None
  }
}
