// Decimal text: smart_str_append_long and "%lld" on the way out, atoi/atoll on the way in.
module Decimal {
  import opened Arith

  function DigitChar(d: nat): char
    requires d < 10
  {
    (d + '0' as int) as char
  }

  predicate IsDigit(c: char) { '0' <= c <= '9' }

  /** C's isspace in the default locale. */
  predicate IsSpace(c: char) { c == ' ' || '\t' <= c <= '\r' }

  function ToText(n: nat): (s: string)
    ensures |s| > 0
  {
    if n < 10 then [DigitChar(n)] else ToText(n / 10) + [DigitChar(n % 10)]
  }

  /** The digits at the start of s, appended to the number already read. */
  function Digits(s: string, read: nat): nat {
    if s == [] || !IsDigit(s[0]) then read
    else Digits(s[1..], 10 * read + (s[0] as int - '0' as int))
  }

  /** C's atoi on the characters of s: blanks, an optional sign, digits; anything else ends it. */
  function Atoi(s: string): int {
    if s == [] then 0
    else if IsSpace(s[0]) then Atoi(s[1..])
    else if s[0] == '-' then 0 - Digits(s[1..], 0)
    else if s[0] == '+' then Digits(s[1..], 0)
    else Digits(s, 0)
  }

  predicate NoDigit(rest: string) { rest == [] || !IsDigit(rest[0]) }

  lemma {:induction false} DigitsThen(n: nat, tail: string)
    ensures IsDigit(ToText(n)[0])
    ensures Digits(ToText(n) + tail, 0) == Digits(tail, n)
    decreases n
  {
    if n < 10 {
      NextDigit(0, n, tail);
    } else {
      var d := [DigitChar(n % 10)];
      DigitsThen(n / 10, d + tail);
      NextDigit(n / 10, n % 10, tail);
      assert ToText(n) + tail == ToText(n / 10) + (d + tail);
    }
  }

  lemma NextDigit(read: nat, d: nat, tail: string)
    requires d < 10
    ensures Digits([DigitChar(d)] + tail, read) == Digits(tail, 10 * read + d)
  {
    assert ([DigitChar(d)] + tail)[1..] == tail;
  }

  /** atoi reads back what was printed, whatever follows it. */
  lemma AtoiDec(n: nat, rest: string)
    requires NoDigit(rest)
    ensures Atoi(ToText(n) + rest) == n
  {
    DigitsThen(n, rest);
    assert Digits(rest, n) == n;
    assert (ToText(n) + rest)[0] == ToText(n)[0];
  }

  /** Space, tab, line feed, vertical tab, form feed and carriage return. */
  predicate Blank(c: char) { c == ' ' || 9 <= c as int <= 13 }

  predicate Blanks(s: string) { forall i | 0 <= i < |s| :: Blank(s[i]) }

  predicate SignText(sign: string) { sign == "" || sign == "+" || sign == "-" }

  /** Blanks before a number do not count, a minus negates it, and it ends at the first other character. */
  lemma {:induction false} AtoiText(blanks: string, sign: string, n: nat, rest: string)
    requires Blanks(blanks) && SignText(sign) && NoDigit(rest)
    ensures Atoi(blanks + sign + ToText(n) + rest) == if sign == "-" then 0 - n else n
  {
    var text := blanks + sign + ToText(n) + rest;
    if blanks != "" {
      assert text[0] == blanks[0] && text[1..] == blanks[1..] + sign + ToText(n) + rest;
      AtoiText(blanks[1..], sign, n, rest);
    } else if sign != "" {
      assert text[0] == sign[0] && text[1..] == ToText(n) + rest;
      DigitsThen(n, rest);
    } else {
      assert text == ToText(n) + rest;
      AtoiDec(n, rest);
    }
  }

  /** Without a digit after the blanks and the sign the number is 0. */
  lemma {:induction false} AtoiNothing(blanks: string, sign: string, rest: string)
    requires Blanks(blanks) && SignText(sign) && NoDigit(rest)
    requires sign == "" && rest != "" ==> !Blank(rest[0]) && rest[0] != '+' && rest[0] != '-'
    ensures Atoi(blanks + sign + rest) == 0
  {
    var text := blanks + sign + rest;
    if blanks != "" {
      assert text[0] == blanks[0] && text[1..] == blanks[1..] + sign + rest;
      AtoiNothing(blanks[1..], sign, rest);
    } else if sign != "" {
      assert text[0] == sign[0] && text[1..] == rest;
    } else {
      assert text == rest;
    }
  }

  lemma {:induction false} DecDigits(n: nat)
    ensures forall i | 0 <= i < |ToText(n)| :: IsDigit(ToText(n)[i])
  {
    if n >= 10 {
      DecDigits(n / 10);
    }
  }

  function Pow10(k: nat): nat { if k == 0 then 1 else 10 * Pow10(k - 1) }

  lemma {:induction false} DecLength(n: nat, k: nat)
    requires k > 0 && n < Pow10(k)
    ensures |ToText(n)| <= k
  {
    if n >= 10 {
      DecLength(n / 10, k - 1);
    }
  }

  /** atoi stops at the first NUL. */
  lemma {:induction false} DigitsBeforeNul(s: string, rest: string, read: nat)
    requires rest == [] || rest[0] == '\0'
    ensures Digits(s + rest, read) == Digits(s, read)
  {
    if s == [] {
      assert s + rest == rest;
    } else {
      assert (s + rest)[1..] == s[1..] + rest;
      if IsDigit(s[0]) {
        DigitsBeforeNul(s[1..], rest, 10 * read + (s[0] as int - '0' as int));
      }
    }
  }

  lemma {:induction false} AtoiBeforeNul(s: string, rest: string)
    requires rest == [] || rest[0] == '\0'
    ensures Atoi(s + rest) == Atoi(s)
  {
    if s == [] {
      assert s + rest == rest;
    } else {
      assert (s + rest)[0] == s[0] && (s + rest)[1..] == s[1..] + rest;
      AtoiBeforeNul(s[1..], rest);
      DigitsBeforeNul(s[1..], rest, 0);
      DigitsBeforeNul(s, rest, 0);
    }
  }

  lemma {:induction false} Pow2BelowPow10(k: nat)
    ensures Pow2(k) <= Pow10(k)
  {
    if k > 0 {
      Pow2BelowPow10(k - 1);
    }
  }
}
