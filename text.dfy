/** Character-level helpers: the case-insensitive comparisons of SQL `ILIKE`
    (restricted to ASCII) and the decimal rendering of unsigned integers. */
module Text {

  /** Unsigned 64-bit integers, the result type of the key hash. */
  newtype u64 = x: int | 0 <= x < 0x1_0000_0000_0000_0000

  /** ASCII lower-casing of one character; every other character is kept. */
  function AsciiLower(c: char): char
  {
    if 'A' <= c <= 'Z' then (c as int + 32) as char else c
  }

  function LowerStr(s: string): string
  {
    seq(|s|, i requires 0 <= i < |s| => AsciiLower(s[i]))
  }

  /** `a ILIKE b` for a pattern `b` without wildcards. */
  predicate EqualsIgnoreCase(a: string, b: string)
  {
    LowerStr(a) == LowerStr(b)
  }

  /** `sub` occurs somewhere in `s` as a contiguous piece. */
  predicate IsSubstring(sub: string, s: string)
    decreases |s|
  {
    sub <= s || (|s| > 0 && IsSubstring(sub, s[1..]))
  }

  /** An occurrence of `sub` in `s` starting at position `k`. */
  ghost predicate OccursAt(sub: string, s: string, k: int)
  {
    0 <= k && k + |sub| <= |s| && s[k..k + |sub|] == sub
  }

  lemma {:induction false} OccursIfSubstring(sub: string, s: string)
    requires IsSubstring(sub, s)
    ensures exists k :: OccursAt(sub, s, k)
    decreases |s|
  {
    if sub <= s {
      assert OccursAt(sub, s, 0);
    } else {
      OccursIfSubstring(sub, s[1..]);
      var k :| OccursAt(sub, s[1..], k);
      assert s[1..][k..k + |sub|] == s[k + 1..k + 1 + |sub|];
      assert OccursAt(sub, s, k + 1);
    }
  }

  lemma {:induction false} SubstringIfOccurs(sub: string, s: string, k: int)
    requires OccursAt(sub, s, k)
    ensures IsSubstring(sub, s)
    decreases k
  {
    if k > 0 {
      assert s[1..][k - 1..k - 1 + |sub|] == s[k..k + |sub|];
      SubstringIfOccurs(sub, s[1..], k - 1);
    } else {
      assert s[..|sub|] == sub;
    }
  }

  /** The recursive definition of `IsSubstring` agrees with the positional one. */
  lemma IsSubstringIffOccurs(sub: string, s: string)
    ensures IsSubstring(sub, s) <==> exists k :: OccursAt(sub, s, k)
  {
    if IsSubstring(sub, s) {
      OccursIfSubstring(sub, s);
    }
    forall k | OccursAt(sub, s, k) ensures IsSubstring(sub, s) {
      SubstringIfOccurs(sub, s, k);
    }
  }

  /** `s ILIKE '%keyword%'` for a keyword without wildcards. */
  predicate ContainsIgnoreCase(s: string, keyword: string)
  {
    IsSubstring(LowerStr(keyword), LowerStr(s))
  }

  /** An empty keyword matches every string. */
  lemma EmptyKeywordMatches(s: string)
    ensures ContainsIgnoreCase(s, "")
  {
    assert LowerStr("") == [];
  }

  function DigitChar(d: nat): char
    requires d < 10
  {
    "0123456789"[d]
  }

  /** `n.to_string()`: the decimal digits of `n`, most significant first,
      without leading zeros. */
  function NatToString(n: nat): (r: string)
    ensures |r| > 0
    ensures forall i :: 0 <= i < |r| ==> '0' <= r[i] <= '9'
    ensures |r| > 1 ==> r[0] != '0'
    decreases n
  {
    if n < 10 then [DigitChar(n)] else NatToString(n / 10) + [DigitChar(n % 10)]
  }

  /** The value of a string of decimal digits. */
  ghost function DecimalValue(s: string): nat
    decreases |s|
  {
    if s == [] then 0
    else
      var c := s[|s| - 1];
      var d := if '0' <= c <= '9' then c as int - '0' as int else 0;
      DecimalValue(s[..|s| - 1]) * 10 + d
  }

  /** Reading back the decimal rendering gives the number. */
  lemma {:induction false} DecimalRoundTrip(n: nat)
    ensures DecimalValue(NatToString(n)) == n
    decreases n
  {
    var r := NatToString(n);
    if n >= 10 {
      DecimalRoundTrip(n / 10);
      assert r[..|r| - 1] == NatToString(n / 10);
      assert r[|r| - 1] == DigitChar(n % 10);
    }
  }

  /** Distinct numbers render as distinct strings, so comparing rendered hashes
      compares the hashes. */
  lemma NatToStringInjective(m: nat, n: nat)
    ensures NatToString(m) == NatToString(n) <==> m == n
  {
    if NatToString(m) == NatToString(n) {
      DecimalRoundTrip(m);
      DecimalRoundTrip(n);
    }
  }
}
