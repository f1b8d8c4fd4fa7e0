/**
 * The pieces of .NET's string library that the agent's own code leans on:
 * `char.IsWhiteSpace`, `string.Trim`, `string.IsNullOrWhiteSpace` and the
 * decimal formatting of an `int` inside an interpolated string.  Each is
 * given a definition and a contract that pins it down, so that the modules
 * built on them can be reasoned about without the library.
 */
module DotNetText {
  import opened Wrappers

  /** `char.IsWhiteSpace`: the Unicode space separators (Zs), the line and
      paragraph separators, the controls U+0009..U+000D and U+0085. */
  predicate IsWhiteSpace(c: char) {
    var n := c as int;
    || 0x09 <= n <= 0x0D
    || n == 0x20
    || n == 0x85
    || n == 0xA0
    || n == 0x1680
    || 0x2000 <= n <= 0x200A
    || n == 0x2028
    || n == 0x2029
    || n == 0x202F
    || n == 0x205F
    || n == 0x3000
  }

  /** Every character is white space (true of the empty string). */
  predicate IsBlank(s: string) {
    forall i :: 0 <= i < |s| ==> IsWhiteSpace(s[i])
  }

  /** `string.IsNullOrWhiteSpace`, with `null` as `None`. */
  predicate IsNullOrWhiteSpace(s: Option<string>)
    ensures IsNullOrWhiteSpace(s) <==> s.None? || Trim(s.value) == []
  {
    s.None? || IsBlank(s.value)
  }

  /** No white space at either end. */
  predicate IsTrimmed(s: string) {
    s == [] || (!IsWhiteSpace(s[0]) && !IsWhiteSpace(s[|s| - 1]))
  }

  /** How many white-space characters open `s`. */
  function LeadingWhiteSpace(s: string): (n: nat)
    ensures n <= |s|
    ensures forall k :: 0 <= k < n ==> IsWhiteSpace(s[k])
    ensures n == |s| || !IsWhiteSpace(s[n])
    decreases |s|
  {
    if s != [] && IsWhiteSpace(s[0]) then 1 + LeadingWhiteSpace(s[1..]) else 0
  }

  /** How many white-space characters close `s`. */
  function TrailingWhiteSpace(s: string): (n: nat)
    ensures n <= |s|
    ensures forall k :: |s| - n <= k < |s| ==> IsWhiteSpace(s[k])
    ensures n == |s| || !IsWhiteSpace(s[|s| - 1 - n])
    decreases |s|
  {
    if s != [] && IsWhiteSpace(s[|s| - 1]) then 1 + TrailingWhiteSpace(s[..|s| - 1]) else 0
  }

  /** `string.Trim()`: the infix of `s` left after removing white space at
      both ends (`TrimIsInfix`).  It is empty exactly when `s` is blank. */
  function Trim(s: string): (r: string)
    ensures IsTrimmed(r)
    ensures r == [] <==> IsBlank(s)
  {
    var lead := LeadingWhiteSpace(s);
    if lead == |s| then
      assert s[..|s|] == s;
      []
    else
      var trail := TrailingWhiteSpace(s);
      assert |s| - trail > lead;
      s[lead..|s| - trail]
  }

  /** What `Trim` leaves is an infix of `s` with nothing but white space
      cut from either end; with `IsTrimmed` this determines it. */
  lemma TrimIsInfix(s: string)
    ensures var r := Trim(s);
      exists i :: 0 <= i <= |s| - |r| && r == s[i..i + |r|] && IsBlank(s[..i]) && IsBlank(s[i + |r|..])
  {
    var r := Trim(s);
    var lead := LeadingWhiteSpace(s);
    if lead == |s| {
      assert r == s[|s|..|s|] && IsBlank(s[..|s|]) && IsBlank(s[|s|..]);
    } else {
      var trail := TrailingWhiteSpace(s);
      assert r == s[lead..lead + |r|];
      assert IsBlank(s[..lead]);
      assert IsBlank(s[lead + |r|..]);
    }
  }

  /** Trimming a string that has no white space at its ends changes nothing. */
  lemma TrimOfTrimmed(s: string)
    requires IsTrimmed(s)
    ensures Trim(s) == s
  {
    assert s != [] ==> LeadingWhiteSpace(s) == 0 && TrailingWhiteSpace(s) == 0;
  }

  /** The non-empty strings of a list, in their order: what
      `StringSplitOptions.RemoveEmptyEntries` keeps of a split, and which
      values `StringValues.ToString()` joins. */
  function RemoveEmptyEntries(fields: seq<string>): (r: seq<string>)
    ensures forall i :: 0 <= i < |r| ==> r[i] != [] && r[i] in fields
    decreases |fields|
  {
    if fields == [] then []
    else if fields[0] == [] then RemoveEmptyEntries(fields[1..])
    else [fields[0]] + RemoveEmptyEntries(fields[1..])
  }

  /** Removing empty strings distributes over concatenation. */
  lemma {:induction false} RemoveEmptyAppend(xs: seq<string>, ys: seq<string>)
    ensures RemoveEmptyEntries(xs + ys) == RemoveEmptyEntries(xs) + RemoveEmptyEntries(ys)
    decreases |xs|
  {
    if xs != [] {
      assert (xs + ys)[0] == xs[0];
      assert (xs + ys)[1..] == xs[1..] + ys;
      RemoveEmptyAppend(xs[1..], ys);
    } else {
      assert xs + ys == ys;
    }
  }

  /** A single piece is kept exactly when it is non-empty.  With
      `RemoveEmptyAppend` this determines `RemoveEmptyEntries` on every list:
      the non-empty pieces, all of them, in their order. */
  lemma RemoveEmptySingleton(x: string)
    ensures RemoveEmptyEntries([x]) == if x == [] then [] else [x]
  {
    assert [x][1..] == [];
  }

  // ---------------------------------------------------------------------
  // Decimal formatting of an int (what `$"{result}"` produces) and the
  // parser that undoes it.

  predicate IsDigit(c: char) {
    '0' <= c <= '9'
  }

  function DigitChar(d: nat): (c: char)
    requires d < 10
    ensures IsDigit(c) && c as int - '0' as int == d
  {
    ('0' as int + d) as char
  }

  function DigitValue(c: char): nat {
    if IsDigit(c) then c as int - '0' as int else 0
  }

  /** The shortest decimal numeral of `n`, most significant digit first. */
  function NatToDecimal(n: nat): (s: string)
    ensures |s| >= 1 && forall i :: 0 <= i < |s| ==> IsDigit(s[i])
    ensures s[0] == '0' ==> n == 0
    ensures n == 0 ==> s == "0"
    decreases n
  {
    if n < 10 then [DigitChar(n)] else NatToDecimal(n / 10) + [DigitChar(n % 10)]
  }

  /** The value of a numeral, read left to right. */
  function DecimalToNat(s: string): nat
    decreases |s|
  {
    if s == [] then 0 else DecimalToNat(s[..|s| - 1]) * 10 + DigitValue(s[|s| - 1])
  }

  lemma {:induction false} DecimalRoundTrip(n: nat)
    ensures DecimalToNat(NatToDecimal(n)) == n
    decreases n
  {
    if n >= 10 {
      var s := NatToDecimal(n);
      assert s[..|s| - 1] == NatToDecimal(n / 10);
      DecimalRoundTrip(n / 10);
    }
  }

  /** Reads back an optionally negative decimal numeral. */
  function ParseInt(s: string): int {
    if s != [] && s[0] == '-' then -(DecimalToNat(s[1..]) as int) else DecimalToNat(s)
  }

  /** `n.ToString()`: a minus sign for negative values, then at least one
      digit and nothing else, with no leading zero (0 is "0"); the text
      can always be read back to the same number. */
  function IntToString(n: int): (s: string)
    ensures ParseInt(s) == n
    ensures s != [] && (s[0] == '-' <==> n < 0)
    ensures var start := if n < 0 then 1 else 0;
      && start < |s|
      && (forall i :: start <= i < |s| ==> IsDigit(s[i]))
      && (s[start] == '0' ==> n == 0)
    ensures n == 0 ==> s == "0"
  {
    if n < 0 then
      var d := NatToDecimal(-n);
      DecimalRoundTrip(-n);
      assert ("-" + d)[1..] == d;
      "-" + d
    else
      DecimalRoundTrip(n);
      NatToDecimal(n)
  }

  /** Different numbers print differently. */
  lemma IntToStringInjective(m: int, n: int)
    requires m != n
    ensures IntToString(m) != IntToString(n)
  {
  }
}
