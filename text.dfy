/**
 * Digits and radix rendering, as Rust's `char::to_digit` and the `{}` / `{:x}`
 * formatting of unsigned integers (no sign, no leading zeros, lower-case hex).
 */
module Text {
  import opened Wrappers

  /** The digit value of `c` in base `radix`, as `char::to_digit`. */
  function ToDigit(c: char, radix: nat): (d: Option<nat>)
    requires 2 <= radix <= 36
    ensures d.Some? ==> d.value < radix
    ensures d.Some? <==> IsDigit(c, radix)
  {
    var v :=
      if '0' <= c <= '9' then c as int - '0' as int
      else if 'a' <= c <= 'z' then c as int - 'a' as int + 10
      else if 'A' <= c <= 'Z' then c as int - 'A' as int + 10
      else 36;
    if v < radix then Some(v) else None
  }

  predicate IsDigit(c: char, radix: nat)
    requires 2 <= radix <= 36
  {
    ('0' <= c <= '9' && c as int - '0' as int < radix)
    || ('a' <= c <= 'z' && c as int - 'a' as int + 10 < radix)
    || ('A' <= c <= 'Z' && c as int - 'A' as int + 10 < radix)
  }

  predicate AllDigits(s: string, radix: nat)
    requires 2 <= radix <= 36
  {
    forall i :: 0 <= i < |s| ==> IsDigit(s[i], radix)
  }

  /** The lower-case character for a digit value below 16. */
  function DigitChar(d: nat): (c: char)
    requires d < 16
    ensures ToDigit(c, 16) == Some(d)
    ensures d < 10 ==> ToDigit(c, 10) == Some(d)
    ensures c != ':' && c != '.'
    ensures !('A' <= c <= 'Z')
  {
    if d < 10 then ('0' as int + d) as char else ('a' as int + d - 10) as char
  }

  /** Left-to-right accumulation of digits onto `acc`, the way a digit-reading loop builds a number. */
  function Accumulate(acc: nat, s: string, radix: nat): nat
    requires 2 <= radix <= 36
    requires AllDigits(s, radix)
    decreases |s|
  {
    if s == [] then acc else Accumulate(acc * radix + ToDigit(s[0], radix).value, s[1..], radix)
  }

  /** The number a digit string denotes. */
  function ValueOf(s: string, radix: nat): nat
    requires 2 <= radix <= 36
    requires AllDigits(s, radix)
  {
    Accumulate(0, s, radix)
  }

  /** `n` written in base `radix` (10 or 16) without leading zeros; zero is "0". */
  function ToRadix(n: nat, radix: nat): (s: string)
    requires radix == 10 || radix == 16
    ensures 0 < |s|
    ensures AllDigits(s, radix)
    ensures |s| > 1 ==> s[0] != '0'
    ensures forall i :: 0 <= i < |s| ==> s[i] != ':' && s[i] != '.'
    ensures forall i :: 0 <= i < |s| ==> !('A' <= s[i] <= 'Z')
    decreases n
  {
    if n < radix then [DigitChar(n)] else ToRadix(n / radix, radix) + [DigitChar(n % radix)]
  }

  function Decimal(n: nat): string {
    ToRadix(n, 10)
  }

  function Hex(n: nat): string {
    ToRadix(n, 16)
  }

  lemma {:induction false} AccumulateSnoc(acc: nat, s: string, c: char, radix: nat)
    requires 2 <= radix <= 36
    requires AllDigits(s, radix) && IsDigit(c, radix)
    ensures AllDigits(s + [c], radix)
    ensures Accumulate(acc, s + [c], radix) == Accumulate(acc, s, radix) * radix + ToDigit(c, radix).value
    decreases |s|
  {
    if s == [] {
    } else {
      assert (s + [c])[1..] == s[1..] + [c];
      AccumulateSnoc(acc * radix + ToDigit(s[0], radix).value, s[1..], c, radix);
    }
  }

  /** Accumulating never decreases the accumulator; it grows by a factor of the radix per digit. */
  lemma {:induction false} AccumulateGrows(acc: nat, s: string, radix: nat)
    requires 2 <= radix <= 36
    requires AllDigits(s, radix)
    ensures acc <= Accumulate(acc, s, radix)
    ensures s != [] ==> acc * radix + ToDigit(s[0], radix).value <= Accumulate(acc, s, radix)
    decreases |s|
  {
    if s != [] {
      var next := acc * radix + ToDigit(s[0], radix).value;
      assert acc <= acc * radix by {
        MultiplyGrows(acc, radix);
      }
      AccumulateGrows(next, s[1..], radix);
    }
  }

  /** Reading back what `ToRadix` wrote gives the number. */
  lemma {:induction false} ValueOfToRadix(n: nat, radix: nat)
    requires radix == 10 || radix == 16
    ensures ValueOf(ToRadix(n, radix), radix) == n
    decreases n
  {
    if n < radix {
      var s := ToRadix(n, radix);
      assert s == [DigitChar(n)] && s[1..] == [];
      assert Accumulate(0, s, radix) == Accumulate(n, [], radix);
    } else {
      ValueOfToRadix(n / radix, radix);
      AccumulateSnoc(0, ToRadix(n / radix, radix), DigitChar(n % radix), radix);
    }
  }

  /** A number below `radix` to the `k` is written with at most `k` digits. */
  lemma {:induction false} ToRadixLength(n: nat, radix: nat, k: nat)
    requires radix == 10 || radix == 16
    requires 0 < k
    requires n < Power(radix, k)
    ensures |ToRadix(n, radix)| <= k
    decreases k
  {
    if n >= radix {
      ToRadixLength(n / radix, radix, k - 1);
    }
  }

  lemma MultiplyGrows(a: nat, b: nat)
    requires 1 <= b
    ensures a <= a * b
  {
  }

  function Power(b: nat, k: nat): nat {
    if k == 0 then 1 else b * Power(b, k - 1)
  }
}
