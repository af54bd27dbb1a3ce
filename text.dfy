/** The string operations the registry relies on: Kotlin's blankness test, the SQL
    `LOWER` function, substring search and the decimal rendering of an `Int`. */
module Text {

  /** Kotlin's `Char.isWhitespace()` on the JVM: the Java whitespace controls
      (tab, line feed, vertical tab, form feed, carriage return and the four
      information separators) plus every Unicode space, line and paragraph separator. */
  predicate IsWhitespace(c: char) {
    || c == '\t' || c == '\n' || c == '\U{000B}' || c == '\U{000C}' || c == '\r'
    || ('\U{001C}' <= c <= '\U{001F}')
    || c == ' ' || c == '\U{00A0}' || c == '\U{1680}' || ('\U{2000}' <= c <= '\U{200A}')
    || c == '\U{2028}' || c == '\U{2029}' || c == '\U{202F}' || c == '\U{205F}' || c == '\U{3000}'
  }

  /** Kotlin's `CharSequence.isBlank()`: empty, or whitespace only. */
  predicate IsBlank(s: string) {
    forall i | 0 <= i < |s| :: IsWhitespace(s[i])
  }

  /** Kotlin's `s.ifBlank { fallback }`. */
  function IfBlank(s: string, fallback: string): (r: string)
    ensures IsBlank(s) ==> r == fallback
    ensures !IsBlank(s) ==> r == s
  {
    if IsBlank(s) then fallback else s
  }

  /** Lower-casing of one character as SQL `LOWER` does it for the ASCII letters. */
  function LowerChar(c: char): char {
    if 'A' <= c <= 'Z' then (c as int + 32) as char else c
  }

  /** SQL `LOWER`, character by character. */
  function Lower(s: string): (r: string)
    ensures |r| == |s|
    ensures forall i | 0 <= i < |s| :: r[i] == LowerChar(s[i])
  {
    if s == [] then [] else [LowerChar(s[0])] + Lower(s[1..])
  }

  predicate StartsWith(s: string, prefix: string) {
    |prefix| <= |s| && s[..|prefix|] == prefix
  }

  /** `t` occurs in `s` at offset `i`. */
  predicate OccursAt(s: string, t: string, i: nat)
    requires i <= |s|
  {
    StartsWith(s[i..], t)
  }

  /** Substring search, as SQL `s LIKE '%' || t || '%'` reads when `t` holds no wildcard. */
  predicate Contains(s: string, t: string)
    decreases |s|
  {
    StartsWith(s, t) || (|s| > 0 && Contains(s[1..], t))
  }

  /** `Contains` holds exactly when `t` occurs at some offset of `s`. */
  lemma {:induction false} ContainsIffOccurs(s: string, t: string)
    ensures Contains(s, t) <==> exists i | 0 <= i <= |s| :: OccursAt(s, t, i)
    decreases |s|
  {
    if StartsWith(s, t) {
      assert OccursAt(s, t, 0);
    } else if |s| == 0 {
      forall i | 0 <= i <= |s| ensures !OccursAt(s, t, i) {
        assert s[i..] == s;
      }
    } else {
      ContainsIffOccurs(s[1..], t);
      if Contains(s[1..], t) {
        var j :| 0 <= j <= |s[1..]| && OccursAt(s[1..], t, j);
        assert s[1..][j..] == s[j + 1..];
        assert OccursAt(s, t, j + 1);
      } else {
        forall i | 0 <= i <= |s| ensures !OccursAt(s, t, i) {
          if i > 0 {
            assert s[1..][i - 1..] == s[i..];
            assert !OccursAt(s[1..], t, i - 1);
          } else {
            assert s[i..] == s;
          }
        }
      }
    }
  }

  /** The empty string occurs in every string. */
  lemma ContainsEmpty(s: string)
    ensures Contains(s, "")
  {
    assert StartsWith(s, "");
  }

  function DigitChar(d: nat): char
    requires d < 10
  {
    "0123456789"[d]
  }

  function NatToString(n: nat): string
    decreases n
  {
    if n < 10 then [DigitChar(n)] else NatToString(n / 10) + [DigitChar(n % 10)]
  }

  /** Kotlin's `Int.toString()`: decimal digits, with a leading minus sign when negative. */
  function IntToString(n: int): string {
    if n < 0 then "-" + NatToString(-n) else NatToString(n)
  }
}
