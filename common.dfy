/** Small shared vocabulary: an optional value, the ASCII character classes that
    JavaScript's `\w`, `\d` and `\s` denote, lower-casing, decimal rendering of
    numbers, the JavaScript `x || d` default for strings, and substring search. */
module Common {

  datatype Option<+T> = None | Some(value: T)

  datatype Result<+T, +E> = Ok(value: T) | Err(error: E)

  /** One element of a `Uint8Array`. */
  newtype Byte = x: int | 0 <= x < 256

  /** `\d` */
  predicate IsDigit(c: char) { '0' <= c <= '9' }

  predicate IsAsciiUpper(c: char) { 'A' <= c <= 'Z' }

  predicate IsAsciiLower(c: char) { 'a' <= c <= 'z' }

  predicate IsAsciiLetter(c: char) { IsAsciiUpper(c) || IsAsciiLower(c) }

  /** `\w`: `[A-Za-z0-9_]` */
  predicate IsWordChar(c: char) { IsAsciiLetter(c) || IsDigit(c) || c == '_' }

  /** `\s`: the white-space and line-terminator characters of ECMAScript. */
  predicate IsSpace(c: char)
  {
    || c == '\t' || c == '\n' || c == '\U{000B}' || c == '\U{000C}' || c == '\r' || c == ' '
    || c == '\U{00A0}' || c == '\U{1680}' || ('\U{2000}' <= c <= '\U{200A}')
    || c == '\U{2028}' || c == '\U{2029}' || c == '\U{202F}' || c == '\U{205F}'
    || c == '\U{3000}' || c == '\U{FEFF}'
  }

  function LowerChar(c: char): (r: char)
    ensures !IsAsciiUpper(r)
    ensures IsAsciiUpper(c) ==> IsAsciiLower(r) && (r as int) - (c as int) == 32
    ensures !IsAsciiUpper(c) ==> r == c
  {
    if IsAsciiUpper(c) then (c as int + 32) as char else c
  }

  /** `String.prototype.toLowerCase`, restricted to ASCII letters. */
  function LowerAscii(s: string): (r: string)
    ensures |r| == |s|
    ensures forall k :: 0 <= k < |r| ==> !IsAsciiUpper(r[k])
    ensures forall k :: 0 <= k < |s| && !IsAsciiUpper(s[k]) ==> r[k] == s[k]
    ensures forall k :: 0 <= k < |s| && IsAsciiUpper(s[k]) ==> IsAsciiLower(r[k])
  {
    seq(|s|, k requires 0 <= k < |s| => LowerChar(s[k]))
  }

  /** The decimal digits of `n`, most significant first, as `String(n)` prints them. */
  function NatToDecimal(n: nat): (r: string)
    decreases n
  {
    if n < 10 then [DigitChar(n)] else NatToDecimal(n / 10) + [DigitChar(n % 10)]
  }

  function DigitChar(d: nat): (c: char)
    requires d < 10
    ensures IsDigit(c) && DigitValue(c) == d
  {
    ('0' as int + d) as char
  }

  function DigitValue(c: char): nat
    requires IsDigit(c)
  {
    c as int - '0' as int
  }

  lemma {:induction false} NatToDecimalDigits(n: nat)
    ensures NatToDecimal(n) != []
    ensures forall k :: 0 <= k < |NatToDecimal(n)| ==> IsDigit(NatToDecimal(n)[k])
    decreases n
  {
    if n >= 10 {
      NatToDecimalDigits(n / 10);
    }
  }

  /** `String(x)` for an integer `x`. */
  function IntToDecimal(x: int): (r: string)
  {
    if x < 0 then "-" + NatToDecimal(-x) else NatToDecimal(x)
  }

  /** JavaScript's `v || d` on an optional string: an absent or empty value is replaced by `d`. */
  function OrDefault(v: Option<string>, d: string): (r: string)
    ensures v.Some? && v.value != "" ==> r == v.value
    ensures v.None? || v.value == "" ==> r == d
    ensures d != "" ==> r != ""
  {
    if v.Some? && v.value != "" then v.value else d
  }

  /** `w` occurs in `s` starting at `m`. */
  predicate OccursAt(s: string, w: string, m: nat)
  {
    m + |w| <= |s| && s[m..m + |w|] == w
  }

  /** `s.includes(w)` */
  predicate Contains(s: string, w: string)
  {
    exists m: nat | m <= |s| :: OccursAt(s, w, m)
  }

  /** What a slice holds, the whole text holds. */
  lemma ContainsSlice(s: string, i: nat, j: nat, w: string)
    requires i <= j <= |s| && Contains(s[i..j], w)
    ensures Contains(s, w)
  {
    var m: nat :| m <= |s[i..j]| && OccursAt(s[i..j], w, m);
    assert m + |w| <= j - i;
    forall t | 0 <= t < |w| ensures s[i + m + t] == w[t] {
      assert s[i..j][m..m + |w|][t] == s[i + m + t];
    }
    assert s[i + m..i + m + |w|] == w;
    assert OccursAt(s, w, i + m);
  }

  /** A character outside the Basic Multilingual Plane takes two UTF-16 code units. */
  function Utf16Units(c: char): (n: nat)
    ensures n == 1 || n == 2
  {
    if c as int >= 0x1_0000 then 2 else 1
  }

  /** JavaScript's `s.length`: the number of UTF-16 code units of `s`. */
  function Utf16Length(s: string): (n: nat)
    ensures |s| <= n <= 2 * |s|
  {
    if s == [] then 0 else Utf16Length(s[..|s| - 1]) + Utf16Units(s[|s| - 1])
  }

  /** On text of the Basic Multilingual Plane the two lengths agree. */
  lemma {:induction false} Utf16LengthBmp(s: string)
    requires forall k :: 0 <= k < |s| ==> (s[k] as int) < 0x1_0000
    ensures Utf16Length(s) == |s|
  {
    if s != [] {
      Utf16LengthBmp(s[..|s| - 1]);
    }
  }

  /** A sequence with no member is empty. */
  lemma NoMemberMeansEmpty<T>(s: seq<T>)
    requires forall x :: x !in s
    ensures s == []
  {
    if s != [] {
      HeadIsMember(s);
    }
  }

  lemma HeadIsMember<T>(s: seq<T>)
    requires s != []
    ensures s[0] in s
  {
  }

  /** `w` occurs in `a + w + c` right after `a`. */
  lemma OccursBetween(a: string, w: string, c: string)
    ensures OccursAt(a + w + c, w, |a|) && Contains(a + w + c, w)
  {
    assert (a + w + c)[|a|..|a| + |w|] == w;
    assert OccursAt(a + w + c, w, |a|);
  }

  /** An occurrence in `y` is an occurrence in `x + y`, shifted by `|x|`. */
  lemma OccursAfter(x: string, y: string, w: string, m: nat)
    requires OccursAt(y, w, m)
    ensures OccursAt(x + y, w, |x| + m)
  {
    assert (x + y)[|x| + m..|x| + m + |w|] == y[m..m + |w|];
  }

  /** An occurrence in `x` is an occurrence in `x + y`. */
  lemma OccursBefore(x: string, y: string, w: string, m: nat)
    requires OccursAt(x, w, m)
    ensures OccursAt(x + y, w, m)
  {
    assert (x + y)[m..m + |w|] == x[m..m + |w|];
  }
}
