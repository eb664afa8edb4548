/** Types shared by every component: optional values, error results, machine integers and
    case-insensitive text. */
module Prelude {
  datatype Option<+T> = None | Some(value: T)

  datatype Result<+T, +E> = Ok(value: T) | Err(error: E)

  const INT64_MAX: int := 0x7fff_ffff_ffff_ffff
  const INT64_MIN: int := -0x8000_0000_0000_0000

  type int64 = n: int | INT64_MIN <= n <= INT64_MAX

  type byte = b: int | 0 <= b < 256

  function Pow(b: nat, e: nat): nat {
    if e == 0 then 1 else b * Pow(b, e - 1)
  }

  function Min(a: int, b: int): int {
    if a < b then a else b
  }

  // Lower-casing of ASCII text; the letters of hex addresses and cloids are ASCII.
  function LowerChar(c: char): char {
    if 'A' <= c <= 'Z' then c + 32 as char else c
  }

  function ToLower(s: string): (r: string)
    ensures |r| == |s|
  {
    seq(|s|, i requires 0 <= i < |s| => LowerChar(s[i]))
  }

  // The same letter, capital or not, or the same other character.
  predicate SameLetter(c: char, d: char) {
    c == d || IsCapitalOf(c, d) || IsCapitalOf(d, c)
  }

  predicate IsCapitalOf(c: char, d: char) {
    'A' <= c <= 'Z' && 'a' <= d <= 'z' && c as int - 'A' as int == d as int - 'a' as int
  }

  predicate SameUpToCase(s: string, t: string) {
    |s| == |t| && forall i | 0 <= i < |s| :: SameLetter(s[i], t[i])
  }

  predicate NoCapitals(s: string) {
    forall i | 0 <= i < |s| :: !('A' <= s[i] <= 'Z')
  }

  // Lower-casing gives the one text without capitals that is the same up to case.
  lemma ToLowerMeans(s: string, t: string)
    ensures ToLower(s) == t <==> SameUpToCase(s, t) && NoCapitals(t)
  {
    if SameUpToCase(s, t) && NoCapitals(t) {
      forall i | 0 <= i < |s| ensures ToLower(s)[i] == t[i] {
        assert SameLetter(s[i], t[i]);
      }
    }
  }

  lemma LowerCasesAgree(s: string, t: string)
    ensures ToLower(s) == ToLower(t) <==> SameUpToCase(s, t)
  {
    if ToLower(s) == ToLower(t) {
      forall i | 0 <= i < |s| ensures SameLetter(s[i], t[i]) {
        assert ToLower(s)[i] == ToLower(t)[i];
      }
    } else if SameUpToCase(s, t) {
      forall i | 0 <= i < |s| ensures ToLower(s)[i] == ToLower(t)[i] {
        assert SameLetter(s[i], t[i]);
      }
    }
  }
}
