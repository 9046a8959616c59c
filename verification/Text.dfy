/** The string operations that the filename helpers use. */
module Text {
  /** The code points that `str.isspace` accepts, which `str.strip` removes. */
  predicate IsSpace(c: char) {
    var v := c as int;
    || 0x09 <= v <= 0x0D || 0x1C <= v <= 0x20 || v == 0x85 || v == 0xA0 || v == 0x1680
    || 0x2000 <= v <= 0x200A || v == 0x2028 || v == 0x2029 || v == 0x202F || v == 0x205F || v == 0x3000
  }

  ghost predicate IsSuffix(r: string, s: string) {
    |r| <= |s| && forall i, j | 0 <= i < |r| && j == |s| - |r| + i :: r[i] == s[j]
  }

  lemma SuffixWhole(r: string, s: string)
    requires IsSuffix(r, s) && |r| == |s|
    ensures r == s
  {
    assert forall i, j | 0 <= i < |r| && j == i :: r[i] == s[j];
  }

  lemma SuffixFacts(r: string, s: string, c: char)
    requires IsSuffix(r, s)
    ensures c !in s ==> c !in r
    ensures r != "" ==> r[|r| - 1] == s[|s| - 1]
  {
    if c in r {
      var k :| 0 <= k < |r| && r[k] == c;
      assert s[|s| - |r| + k] == c;
    }
    if r != "" { assert s[|s| - 1] == s[|s| - |r| + (|r| - 1)]; }
  }

  function StripLeft(s: string): (r: string)
    ensures IsSuffix(r, s)
    ensures r != "" ==> !IsSpace(r[0])
    ensures s != "" && !IsSpace(s[0]) ==> r == s
  {
    if s != "" && IsSpace(s[0]) then StripLeft(s[1..]) else s
  }

  function StripRight(s: string): (r: string)
    ensures |r| <= |s| && forall i | 0 <= i < |r| :: r[i] == s[i]
    ensures r != "" ==> !IsSpace(r[|r| - 1])
    ensures s != "" && !IsSpace(s[|s| - 1]) ==> r == s
  {
    if s != "" && IsSpace(s[|s| - 1]) then StripRight(s[..|s| - 1]) else s
  }

  /** `s.strip()` */
  function Strip(s: string): string {
    StripRight(StripLeft(s))
  }

  /** `s.rstrip("\x00")` */
  function RStripNul(s: string): (r: string)
    ensures |r| <= |s| && forall i | 0 <= i < |r| :: r[i] == s[i]
    ensures r != "" ==> r[|r| - 1] != '\0'
    ensures forall i | |r| <= i < |s| :: s[i] == '\0'
    ensures s != "" && s[|s| - 1] != '\0' ==> r == s
  {
    if s != "" && s[|s| - 1] == '\0' then RStripNul(s[..|s| - 1]) else s
  }

  /** `s.replace(from, to)` for single characters. */
  function ReplaceAll(s: string, from: char, to: char): (r: string)
    ensures |r| == |s|
    ensures forall i | 0 <= i < |s| :: r[i] == if s[i] == from then to else s[i]
  {
    seq(|s|, i requires 0 <= i < |s| => if s[i] == from then to else s[i])
  }

  /** `s.split(c)[-1]`: what follows the last `c`, or all of `s`. */
  function AfterLast(s: string, c: char): (r: string)
    ensures IsSuffix(r, s)
    ensures c !in r
    ensures c !in s ==> r == s
    ensures |r| < |s| ==> s[|s| - |r| - 1] == c
  {
    if s == "" then ""
    else if s[|s| - 1] == c then ""
    else AfterLast(s[..|s| - 1], c) + [s[|s| - 1]]
  }

  predicate AllDigits(s: string) {
    forall i | 0 <= i < |s| :: '0' <= s[i] <= '9'
  }

  /** `str(n)` for a natural number. */
  function Decimal(n: nat): (r: string)
    ensures r != "" && AllDigits(r)
    ensures n > 0 ==> r[0] != '0'
  {
    if n < 10 then [('0' as int + n) as char]
    else Decimal(n / 10) + [('0' as int + n % 10) as char]
  }

  function DigitsValue(s: string): nat
    requires AllDigits(s)
  {
    if s == "" then 0
    else 10 * DigitsValue(s[..|s| - 1]) + (s[|s| - 1] as int - '0' as int)
  }

  lemma {:induction false} DecimalValue(n: nat)
    ensures DigitsValue(Decimal(n)) == n
  {
    if n < 10 {
      assert Decimal(n)[..0] == "";
    } else {
      DecimalValue(n / 10);
      var r := Decimal(n);
      assert r[..|r| - 1] == Decimal(n / 10);
    }
  }

  lemma DecimalInjective(m: nat, n: nat)
    requires Decimal(m) == Decimal(n)
    ensures m == n
  {
    DecimalValue(m);
    DecimalValue(n);
  }
}
