/** JavaScript's `Number.prototype.toString(radix)` on non-negative integers,
    as the writers use it for chunk sizes (radix 16) and for the
    `Content-Length` value (radix 10), together with the inverse reading. */
module Radix {

  /** The digit of value `d`: '0'..'9', then lower-case 'a'..'z', as JavaScript prints them. */
  function DigitChar(d: nat): (c: char)
    requires d < 36
    ensures DigitValue(c) == d
    ensures c != '0' <==> d != 0
  {
    if d < 10 then ('0' as int + d) as char else ('a' as int + d - 10) as char
  }

  /** The value of a digit character in either case, or 36 for a character that is no digit. */
  function DigitValue(c: char): (v: nat)
    ensures v <= 36
  {
    if '0' <= c <= '9' then c as int - '0' as int
    else if 'a' <= c <= 'z' then c as int - 'a' as int + 10
    else if 'A' <= c <= 'Z' then c as int - 'A' as int + 10
    else 36
  }

  predicate IsDigits(s: string, radix: nat) {
    forall i :: 0 <= i < |s| ==> DigitValue(s[i]) < radix
  }

  /** Euclidean division by the radix, spelled out for the solver. */
  lemma DivMod(n: nat, radix: nat)
    requires 2 <= radix
    ensures n == (n / radix) * radix + n % radix && 0 <= n % radix < radix
    ensures n >= radix ==> 1 <= n / radix < n
  {
  }

  /** `n.toString(radix)`: most significant digit first, no leading zero, at least one digit. */
  function ToRadix(n: nat, radix: nat): (s: string)
    requires 2 <= radix <= 36
    ensures |s| >= 1 && IsDigits(s, radix)
    ensures s[0] == '0' <==> n == 0
    ensures n < radix <==> |s| == 1
    decreases n
  {
    DivMod(n, radix);
    if n < radix then [DigitChar(n)]
    else ToRadix(n / radix, radix) + [DigitChar(n % radix)]
  }

  /** The value of a digit string, most significant digit first. */
  function ParseRadix(s: string, radix: nat): nat
    requires 2 <= radix <= 36
    requires IsDigits(s, radix)
  {
    if s == [] then 0
    else ParseRadix(s[..|s| - 1], radix) * radix + DigitValue(s[|s| - 1])
  }

  /** Reading back what `toString(radix)` printed gives the number again. */
  lemma {:induction false} ParseToRadix(n: nat, radix: nat)
    requires 2 <= radix <= 36
    ensures ParseRadix(ToRadix(n, radix), radix) == n
  {
    var s := ToRadix(n, radix);
    DivMod(n, radix);
    if n >= radix {
      assert s[..|s| - 1] == ToRadix(n / radix, radix);
      ParseToRadix(n / radix, radix);
    }
  }

  /** Different numbers print differently, so a size line names exactly one size. */
  lemma ToRadixInjective(m: nat, n: nat, radix: nat)
    requires 2 <= radix <= 36
    requires ToRadix(m, radix) == ToRadix(n, radix)
    ensures m == n
  {
    ParseToRadix(m, radix);
    ParseToRadix(n, radix);
  }
}
