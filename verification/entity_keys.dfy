/**
 * The string keys `${type}_${id}` under which every result map of the store is
 * indexed.  Entity ids are JavaScript numbers holding integers; below 10^21 in
 * magnitude their template-literal form is the decimal numeral with a leading '-' for
 * negatives.  Larger numbers print in exponent form and integers beyond 2^53 are not
 * all representable; the model treats every id as an exact integer with a plain numeral.
 */
module EntityKeys {

  function DigitChar(d: nat): (c: char)
    requires d < 10
    ensures '0' <= c <= '9'
  {
    (48 + d) as char
  }

  /** Decimal numeral of a natural number, most significant digit first. */
  function NatToString(n: nat): (s: string)
    ensures |s| >= 1
    ensures n >= 10 <==> |s| >= 2
    ensures forall j :: 0 <= j < |s| ==> '0' <= s[j] <= '9'
    decreases n
  {
    if n < 10 then [DigitChar(n)] else NatToString(n / 10) + [DigitChar(n % 10)]
  }

  /** `${n}` for an integer-valued JavaScript number. */
  function IntToString(n: int): (s: string)
    ensures |s| >= 1
    ensures forall j :: 0 <= j < |s| ==> s[j] != '_'
    ensures n < 0 <==> s[0] == '-'
  {
    if n < 0 then "-" + NatToString(-n) else NatToString(n)
  }

  /** `${type}_${id}`. */
  function EntityKey(entityType: string, id: int): string
  {
    entityType + "_" + IntToString(id)
  }

  /** Distinct numbers print as distinct numerals. */
  lemma {:induction false} NatToStringInjective(a: nat, b: nat)
    requires NatToString(a) == NatToString(b)
    ensures a == b
    decreases a
  {
    var s := NatToString(a);
    if a >= 10 {
      assert b >= 10;
      assert s[..|s| - 1] == NatToString(a / 10);
      assert s[..|s| - 1] == NatToString(b / 10);
      NatToStringInjective(a / 10, b / 10);
      assert s[|s| - 1] == DigitChar(a % 10) == DigitChar(b % 10);
    } else {
      assert b < 10;
      assert s[0] == DigitChar(a) == DigitChar(b);
    }
  }

  lemma IntToStringInjective(a: int, b: int)
    requires IntToString(a) == IntToString(b)
    ensures a == b
  {
    var s := IntToString(a);
    if a < 0 {
      assert b < 0;
      assert s[1..] == NatToString(-a) == NatToString(-b);
      NatToStringInjective(-a, -b);
    } else {
      assert b >= 0;
      NatToStringInjective(a, b);
    }
  }

  /** In `t1 + "_" + s1 == t2 + "_" + s2`, an underscore-free `s2` cannot be longer than `s1`. */
  lemma SuffixNoLonger(t1: string, s1: string, t2: string, s2: string)
    requires t1 + "_" + s1 == t2 + "_" + s2
    requires forall j :: 0 <= j < |s2| ==> s2[j] != '_'
    ensures |s2| <= |s1|
  {
    var k := t1 + "_" + s1;
    assert k[|t1|] == '_';
  }

  /**
   * Two entities share a key only if they are the same entity, whatever the type
   * strings are: a numeral never contains '_', so the key splits at its last '_'.
   */
  lemma EntityKeyInjective(t1: string, i1: int, t2: string, i2: int)
    requires EntityKey(t1, i1) == EntityKey(t2, i2)
    ensures t1 == t2 && i1 == i2
  {
    var s1, s2 := IntToString(i1), IntToString(i2);
    var k := EntityKey(t1, i1);
    assert k == t1 + "_" + s1 == t2 + "_" + s2;
    SuffixNoLonger(t1, s1, t2, s2);
    SuffixNoLonger(t2, s2, t1, s1);
    assert |t1| == |t2|;
    assert t1 == k[..|t1|] == t2;
    assert s1 == k[|t1| + 1..] == s2;
    IntToStringInjective(i1, i2);
  }
}
