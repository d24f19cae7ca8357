// NUL-terminated strings as strcmp, strncmp and the PHP array functions see them.
module CStrings {

  predicate NulFree(s: string) { '\0' !in s }

  /** A buffer read as a C string. */
  function CStr(s: string): (r: string)
    ensures NulFree(r)
    ensures r == s <==> NulFree(s)
  {
    if s == [] || s[0] == '\0' then "" else
      assert s == [s[0]] + s[1..];
      [s[0]] + CStr(s[1..])
  }

  lemma {:induction false} CStrBeforeNul(p: string, rest: string)
    requires rest != "" && rest[0] == '\0'
    ensures CStr(p + rest) == CStr(p)
  {
    if p == "" {
      assert p + rest == rest;
    } else {
      assert (p + rest)[1..] == p[1..] + rest;
      CStrBeforeNul(p[1..], rest);
    }
  }

  /** The character a C pointer into s sees first. */
  function At(s: string): char { if s == "" then '\0' else s[0] }

  function Rest(s: string): string { if s == "" then "" else s[1..] }

  /** strncmp(a, b, n) == 0. */
  predicate StrNEq(a: string, b: string, n: nat) {
    n == 0 || (At(a) == At(b) && (At(a) == '\0' || StrNEq(Rest(a), Rest(b), n - 1)))
  }

  /** Against a NUL-free prefix of its full length, strncmp is the prefix test. */
  lemma {:induction false} StrNEqIsPrefix(a: string, p: string)
    requires NulFree(p)
    ensures StrNEq(a, p, |p|) <==> p <= a
  {
    if p != "" {
      StrNEqIsPrefix(Rest(a), p[1..]);
      if a != "" {
        assert p == [p[0]] + p[1..] && a == [a[0]] + a[1..];
      }
    }
  }

  /** Whatever follows it, a string is found at its own head, even one with a NUL. */
  lemma {:induction false} StrNEqOwnPrefix(p: string, rest: string)
    ensures StrNEq(p + rest, p, |p|)
  {
    if p != "" {
      StrNEqOwnPrefix(p[1..], rest);
      assert (p + rest)[1..] == p[1..] + rest;
    }
  }

  /** Equal C strings have equal first characters and equal rests. */
  lemma CStrHeads(a: string, b: string)
    ensures CStr(a) == CStr(b) <==> At(a) == At(b) && (At(a) == '\0' || CStr(Rest(a)) == CStr(Rest(b)))
  {
    if At(a) != '\0' && At(b) != '\0' {
      assert CStr(a)[0] == At(a) && CStr(a)[1..] == CStr(Rest(a));
      assert CStr(b)[0] == At(b) && CStr(b)[1..] == CStr(Rest(b));
    }
  }

  /** Over strings of equal length n, strncmp compares the C strings. */
  lemma {:induction false} StrNEqSameLength(a: string, b: string)
    requires |a| == |b|
    ensures StrNEq(a, b, |a|) <==> CStr(a) == CStr(b)
  {
    if a != "" {
      StrNEqSameLength(a[1..], b[1..]);
      CStrHeads(a, b);
    }
  }

  /** The sign of strcmp on C strings. */
  function StrCmp(a: string, b: string): int {
    if At(a) == At(b) then (if At(a) == '\0' then 0 else StrCmp(Rest(a), Rest(b)))
    else if At(a) < At(b) then -1 else 1
  }

  lemma {:induction false} StrCmpZero(a: string, b: string)
    ensures StrCmp(a, b) == 0 <==> CStr(a) == CStr(b)
  {
    CStrHeads(a, b);
    if At(a) == At(b) && At(a) != '\0' {
      StrCmpZero(Rest(a), Rest(b));
    }
  }

  lemma {:induction false} StrCmpSwap(a: string, b: string)
    ensures StrCmp(b, a) == -StrCmp(a, b)
  {
    if At(a) == At(b) && At(a) != '\0' {
      StrCmpSwap(Rest(a), Rest(b));
    }
  }

  lemma {:induction false} StrCmpTransitive(a: string, b: string, c: string)
    requires StrCmp(a, b) <= 0 && StrCmp(b, c) <= 0
    ensures StrCmp(a, c) <= 0
  {
    if At(a) == At(b) && At(b) == At(c) && At(a) != '\0' {
      StrCmpTransitive(Rest(a), Rest(b), Rest(c));
    }
  }

  // ---------- the order of names ----------

  /** Byte by byte, a proper prefix first. */
  predicate NameBefore(a: string, b: string) {
    b != "" && (a == "" || a[0] < b[0] || (a[0] == b[0] && NameBefore(a[1..], b[1..])))
  }

  /** Up to character i the strings are the same, and there a has the smaller one. */
  predicate SmallerAt(a: string, b: string, i: nat) {
    i < |a| && i < |b| && a[..i] == b[..i] && a[i] < b[i]
  }

  lemma SmallerBehind(a: string, b: string, i: nat)
    requires a != "" && b != "" && a[0] == b[0]
    ensures SmallerAt(a, b, i + 1) <==> SmallerAt(a[1..], b[1..], i)
    ensures !SmallerAt(a, b, 0)
    ensures a < b <==> a[1..] < b[1..]
  {
    assert a == [a[0]] + a[1..] && b == [b[0]] + b[1..];
    if i + 1 < |a| && i + 1 < |b| {
      assert a[..i + 1] == [a[0]] + a[1..][..i] && b[..i + 1] == [b[0]] + b[1..][..i];
      assert a[..i + 1] == b[..i + 1] ==> a[..i + 1][1..] == b[..i + 1][1..];
    }
  }

  lemma DifferAtFirst(a: string, b: string, i: nat)
    requires a != "" && b != "" && a[0] != b[0] && i > 0
    ensures !SmallerAt(a, b, i)
  {
    if i < |a| && i < |b| {
      assert a[..i][0] == a[0] && b[..i][0] == b[0];
    }
  }

  /** A string comes before another when it is a proper prefix of it or has the smaller character where
      they first differ. */
  lemma {:induction false} NameBeforeExactly(a: string, b: string)
    ensures NameBefore(a, b) <==> a < b || exists i: nat :: SmallerAt(a, b, i)
  {
    if a != "" && b != "" && a[0] == b[0] {
      NameBeforeExactly(a[1..], b[1..]);
      SmallerBehind(a, b, 0);
      if exists i: nat :: SmallerAt(a[1..], b[1..], i) {
        var i: nat :| SmallerAt(a[1..], b[1..], i);
        SmallerBehind(a, b, i);
      }
      if exists i: nat :: SmallerAt(a, b, i) {
        var i: nat :| SmallerAt(a, b, i);
        SmallerBehind(a, b, i - 1);
      }
    } else if a != "" && b != "" {
      assert SmallerAt(a, b, 0) <==> a[0] < b[0];
      forall i: nat | i > 0
        ensures !SmallerAt(a, b, i)
      {
        DifferAtFirst(a, b, i);
      }
    }
  }

  /** strcmp is negative exactly when the first C string comes before the second. */
  lemma {:induction false} StrCmpOrder(a: string, b: string)
    ensures StrCmp(a, b) < 0 <==> NameBefore(CStr(a), CStr(b))
  {
    if At(a) == At(b) && At(a) != '\0' {
      StrCmpOrder(Rest(a), Rest(b));
      assert CStr(a)[1..] == CStr(Rest(a)) && CStr(b)[1..] == CStr(Rest(b));
    } else {
      assert At(a) != '\0' ==> CStr(a)[0] == At(a);
      assert At(b) != '\0' ==> CStr(b)[0] == At(b);
    }
  }
}
