/** The few pieces of Java's semantics the chat code relies on: `^` and `|`
    on `int`, `Integer.toString`, and `String.trim`. */
module JavaLang {

  /** Java `^` on `int`s, as two's-complement bitwise exclusive or on
      unbounded integers: `a / 2` and `a % 2` are the arithmetic shift right
      and the lowest bit, and 0 and -1 are the all-zeros and all-ones
      patterns. For operands in the `int` range the result is in range too,
      so no wrap-around is involved. */
  function Xor(a: int, b: int): int
    decreases (if a < 0 then -a else a) + (if b < 0 then -b else b)
  {
    if (a == 0 || a == -1) && (b == 0 || b == -1) then (if a == b then 0 else -1)
    else 2 * Xor(a / 2, b / 2) + (if a % 2 == b % 2 then 0 else 1)
  }

  /** Java `|` on `int`s, in the same two's-complement reading. */
  function Or(a: int, b: int): int
    decreases (if a < 0 then -a else a) + (if b < 0 then -b else b)
  {
    if (a == 0 || a == -1) && (b == 0 || b == -1) then (if a == -1 || b == -1 then -1 else 0)
    else 2 * Or(a / 2, b / 2) + (if a % 2 == 1 || b % 2 == 1 then 1 else 0)
  }

  /** The decimal digit for `d`. */
  function DigitChar(d: nat): char
    requires d < 10
  {
    ('0' as int + d) as char
  }

  /** Decimal rendering of a non-negative number, without leading zeros. */
  function NatToString(n: nat): (s: string)
    ensures |s| > 0
    decreases n
  {
    if n < 10 then [DigitChar(n)] else NatToString(n / 10) + [DigitChar(n % 10)]
  }

  /** `Integer.toString(n)`, which `StringBuilder.append(int)` writes. */
  function IntToString(n: int): string
  {
    if n < 0 then "-" + NatToString(-n) else NatToString(n)
  }

  /** The characters `String.trim` strips: every code point up to U+0020. */
  predicate IsTrimmed(c: char)
  {
    c <= ' '
  }

  function TrimStart(s: string): (t: string)
    ensures |t| <= |s| && t == s[|s| - |t|..]
    ensures t == [] || !IsTrimmed(t[0])
    ensures forall i :: 0 <= i < |s| - |t| ==> IsTrimmed(s[i])
  {
    if s != [] && IsTrimmed(s[0]) then TrimStart(s[1..]) else s
  }

  function TrimEnd(s: string): (t: string)
    ensures |t| <= |s| && t == s[..|t|]
    ensures t == [] || !IsTrimmed(t[|t| - 1])
    ensures forall i :: |t| <= i < |s| ==> IsTrimmed(s[i])
  {
    if s != [] && IsTrimmed(s[|s| - 1]) then TrimEnd(s[..|s| - 1]) else s
  }

  /** `String.trim()`. */
  function Trim(s: string): string
  {
    TrimEnd(TrimStart(s))
  }

  /** Where the trimmed string starts inside the original. */
  function TrimOffset(s: string): nat
  {
    |s| - |TrimStart(s)|
  }

  /** `trim()` keeps a contiguous part of the string that neither starts nor
      ends with a stripped character, and what it drops are stripped
      characters only. */
  lemma TrimShape(s: string)
    ensures var t, a := Trim(s), TrimOffset(s);
      && a + |t| <= |s| && t == s[a..a + |t|]
      && (t == [] || (!IsTrimmed(t[0]) && !IsTrimmed(t[|t| - 1])))
      && (forall i :: 0 <= i < a ==> IsTrimmed(s[i]))
      && (forall i :: a + |t| <= i < |s| ==> IsTrimmed(s[i]))
  {
    var u := TrimStart(s);
    var a := TrimOffset(s);
    forall i | a + |Trim(s)| <= i < |s| ensures IsTrimmed(s[i]) {
      assert s[i] == u[i - a];
    }
  }

  /** `s.trim().isEmpty()` holds exactly when every character of `s` is one
      that `trim` strips. */
  lemma TrimEmptyIff(s: string)
    ensures Trim(s) == [] <==> forall i :: 0 <= i < |s| ==> IsTrimmed(s[i])
  {
    TrimShape(s);
    if Trim(s) != [] {
      assert s[TrimOffset(s)] == Trim(s)[0];
    }
  }

  /** Trimming twice is trimming once. */
  lemma TrimIdempotent(s: string)
    ensures Trim(Trim(s)) == Trim(s)
  {
    var t := Trim(s);
    if t != [] {
      assert TrimStart(t) == t;
      assert TrimEnd(t) == t;
    }
  }
}
