/**
  The few .NET string operations the catalogue relies on, over Dafny strings.
  A Dafny `char` is a Unicode scalar value; where .NET counts UTF-16 code
  units instead, that is written out (Utf16Length).
 */
module Text {

  /** char.IsWhiteSpace: the Unicode separators (Zs, Zl, Zp) and the controls U+0009..U+000D, U+0085. */
  predicate IsWhiteSpace(c: char) {
    || c == ' '
    || ('\t' <= c <= '\r')
    || c == '\U{0085}'
    || c == '\U{00A0}'
    || c == '\U{1680}'
    || ('\U{2000}' <= c <= '\U{200A}')
    || c == '\U{2028}'
    || c == '\U{2029}'
    || c == '\U{202F}'
    || c == '\U{205F}'
    || c == '\U{3000}'
  }

  /** string.IsNullOrWhiteSpace; a null string is represented by the empty one. */
  function IsNullOrWhiteSpace(s: string): (r: bool)
    ensures r <==> forall i :: 0 <= i < |s| ==> IsWhiteSpace(s[i])
  {
    if s == [] then true else IsWhiteSpace(s[0]) && IsNullOrWhiteSpace(s[1..])
  }

  /** string.Length: characters outside the Basic Multilingual Plane take two UTF-16 code units. */
  function Utf16Length(s: string): (n: nat)
    ensures |s| <= n <= 2 * |s|
    ensures n == |s| <==> forall i :: 0 <= i < |s| ==> s[i] <= '\U{FFFF}'
  {
    if s == [] then 0 else (if s[0] <= '\U{FFFF}' then 1 else 2) + Utf16Length(s[1..])
  }

  /** `sub` occurs in `s` starting at position i. */
  ghost predicate OccursAt(s: string, sub: string, i: int) {
    0 <= i && i + |sub| <= |s| && s[i..i + |sub|] == sub
  }

  /** string.Contains(string): ordinal, case-sensitive substring test. */
  predicate Contains(s: string, sub: string)
    decreases |s|
  {
    |sub| <= |s| && (s[..|sub|] == sub || (0 < |s| && Contains(s[1..], sub)))
  }

  lemma {:induction false} ContainsIff(s: string, sub: string)
    ensures Contains(s, sub) <==> exists i :: OccursAt(s, sub, i)
    decreases |s|
  {
    if |sub| <= |s| {
      if s[..|sub|] == sub {
        assert OccursAt(s, sub, 0);
      } else if 0 < |s| {
        ContainsIff(s[1..], sub);
        if Contains(s[1..], sub) {
          var i :| OccursAt(s[1..], sub, i);
          assert s[1..][i..i + |sub|] == s[i + 1..i + 1 + |sub|];
          assert OccursAt(s, sub, i + 1);
        } else {
          forall i | OccursAt(s, sub, i) ensures false {
            if i != 0 {
              assert s[1..][i - 1..i - 1 + |sub|] == s[i..i + |sub|];
              assert OccursAt(s[1..], sub, i - 1);
            }
          }
        }
      }
    }
  }

  /** Ordinal (code point by code point) order on strings: s sorts before or equal to t. */
  predicate OrdinalLe(s: string, t: string) {
    if s == [] then true
    else if t == [] then false
    else if s[0] != t[0] then s[0] < t[0]
    else OrdinalLe(s[1..], t[1..])
  }

  lemma {:induction false} OrdinalLeTotal(s: string, t: string)
    ensures OrdinalLe(s, t) || OrdinalLe(t, s)
  {
    if s != [] && t != [] && s[0] == t[0] {
      OrdinalLeTotal(s[1..], t[1..]);
    }
  }

  lemma {:induction false} OrdinalLeTransitive(s: string, t: string, u: string)
    requires OrdinalLe(s, t) && OrdinalLe(t, u)
    ensures OrdinalLe(s, u)
  {
    if s != [] && t != [] && u != [] && s[0] == t[0] == u[0] {
      OrdinalLeTransitive(s[1..], t[1..], u[1..]);
    }
  }
}
