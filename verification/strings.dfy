/** Byte strings as `std::string` sees them: the character classes used by
    stream extraction and the lexicographic `operator<`. */
module Strings {

  /** `isspace` in the "C" locale: space, tab, newline, vertical tab, form
      feed, carriage return (codes 9 to 13 and 32). */
  predicate IsSpace(c: char) {
    c == ' ' || ('\t' <= c <= '\r')
  }

  predicate NoSpace(s: string) {
    forall i :: 0 <= i < |s| ==> !IsSpace(s[i])
  }

  predicate AllSpace(s: string) {
    forall i :: 0 <= i < |s| ==> IsSpace(s[i])
  }

  /** A token is what one `operator>>` into a `std::string` can yield:
      a non-empty run of non-space characters. */
  predicate IsToken(s: string) {
    |s| > 0 && NoSpace(s)
  }

  /** `std::string::operator<`: lexicographic comparison of the characters
      (compared by code, i.e. as unsigned bytes), a proper prefix being
      smaller. */
  predicate StrLess(a: string, b: string)
    decreases |a|
  {
    if |a| == 0 then |b| > 0
    else if |b| == 0 then false
    else if a[0] != b[0] then a[0] < b[0]
    else StrLess(a[1..], b[1..])
  }

  /** Non-strict companion of `StrLess`. */
  predicate StrLe(a: string, b: string) {
    !StrLess(b, a)
  }

  lemma {:induction false} StrLessIrreflexive(a: string)
    ensures !StrLess(a, a)
    decreases |a|
  {
    if |a| > 0 {
      StrLessIrreflexive(a[1..]);
    }
  }

  lemma {:induction false} StrLessAsymmetric(a: string, b: string)
    requires StrLess(a, b)
    ensures !StrLess(b, a)
    decreases |a|
  {
    if |a| > 0 && |b| > 0 && a[0] == b[0] {
      StrLessAsymmetric(a[1..], b[1..]);
    }
  }

  lemma {:induction false} StrLessTransitive(a: string, b: string, c: string)
    requires StrLess(a, b) && StrLess(b, c)
    ensures StrLess(a, c)
    decreases |a|
  {
    if |a| > 0 && a[0] == b[0] && b[0] == c[0] {
      StrLessTransitive(a[1..], b[1..], c[1..]);
    }
  }

  /** Any two different strings are ordered one way or the other. */
  lemma {:induction false} StrLessTotal(a: string, b: string)
    requires a != b
    ensures StrLess(a, b) || StrLess(b, a)
    decreases |a|
  {
    if |a| > 0 && |b| > 0 && a[0] == b[0] {
      assert a == [a[0]] + a[1..] && b == [b[0]] + b[1..];
      StrLessTotal(a[1..], b[1..]);
    }
  }

  /** The non-strict order is "equal or strictly less". */
  lemma StrLeIsLessOrEqual(a: string, b: string)
    ensures StrLe(a, b) <==> (a == b || StrLess(a, b))
  {
    if a == b {
      StrLessIrreflexive(a);
    } else if StrLess(a, b) {
      StrLessAsymmetric(a, b);
    } else {
      StrLessTotal(a, b);
    }
  }

  lemma StrLeTransitive(a: string, b: string, c: string)
    requires StrLe(a, b) && StrLe(b, c)
    ensures StrLe(a, c)
  {
    StrLeIsLessOrEqual(a, b);
    StrLeIsLessOrEqual(b, c);
    StrLeIsLessOrEqual(a, c);
    if a != b && b != c {
      StrLessTransitive(a, b, c);
    }
  }
}
