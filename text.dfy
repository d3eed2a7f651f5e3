/** The Python string operations the transforms use: `str.strip()`, `str.find`,
    slicing with a negative step, and the ASCII digits that `strptime`,
    `strftime` and `re` read and write. */
module Text {

  /** Python's `str.isspace()`: the characters `str.strip()` removes and the
      regular-expression class `\s` matches. */
  predicate IsSpace(c: char) {
    var n := c as int;
    (9 <= n <= 13) || (28 <= n <= 32) || n == 0x85 || n == 0xA0 || n == 0x1680
    || (0x2000 <= n <= 0x200A) || n == 0x2028 || n == 0x2029 || n == 0x202F
    || n == 0x205F || n == 0x3000
  }

  predicate IsDigit(c: char) {
    '0' <= c <= '9'
  }

  predicate AllDigits(s: string) {
    forall k | 0 <= k < |s| :: IsDigit(s[k])
  }

  predicate AllSpaces(s: string) {
    forall k | 0 <= k < |s| :: IsSpace(s[k])
  }

  function DigitValue(c: char): (n: int)
    requires IsDigit(c)
    ensures 0 <= n <= 9
  {
    c as int - '0' as int
  }

  function DigitChar(n: int): (c: char)
    requires 0 <= n <= 9
    ensures IsDigit(c) && DigitValue(c) == n
  {
    (n + '0' as int) as char
  }

  /** The value of the two-digit decimal numeral `a b`. */
  function Num2(a: char, b: char): (n: int)
    requires IsDigit(a) && IsDigit(b)
    ensures 0 <= n <= 99
  {
    10 * DigitValue(a) + DigitValue(b)
  }

  /** The value of a four-digit decimal numeral. */
  function Num4(s: string): (n: int)
    requires |s| == 4 && AllDigits(s)
    ensures 0 <= n <= 9999
  {
    100 * Num2(s[0], s[1]) + Num2(s[2], s[3])
  }

  /** `"%02d" % n`: the numeral that `Num2` reads back as `n`. */
  function Pad2(n: int): (r: string)
    requires 0 <= n <= 99
    ensures |r| == 2 && AllDigits(r) && Num2(r[0], r[1]) == n
  {
    [DigitChar(n / 10), DigitChar(n % 10)]
  }

  /** `"%04d" % n`: the numeral that `Num4` reads back as `n`. */
  function Pad4(n: int): (r: string)
    requires 0 <= n <= 9999
    ensures |r| == 4 && AllDigits(r) && Num4(r) == n
  {
    Pad2(n / 100) + Pad2(n % 100)
  }

  /** Writing back the value of a two-digit numeral gives the numeral itself. */
  lemma Pad2Num2(a: char, b: char)
    requires IsDigit(a) && IsDigit(b)
    ensures Pad2(Num2(a, b)) == [a, b]
  {
    DigitCharValue(a);
    DigitCharValue(b);
  }

  /** Writing back the value of a four-digit numeral gives the numeral itself. */
  lemma Pad4Num4(s: string)
    requires |s| == 4 && AllDigits(s)
    ensures Pad4(Num4(s)) == s
  {
    var hi, lo := Num2(s[0], s[1]), Num2(s[2], s[3]);
    DivMod100(hi, lo);
    Pad2Num2(s[0], s[1]);
    Pad2Num2(s[2], s[3]);
    assert Pad4(Num4(s)) == [s[0], s[1]] + [s[2], s[3]];
  }

  lemma DivMod100(hi: int, lo: int)
    requires 0 <= hi <= 99 && 0 <= lo <= 99
    ensures (100 * hi + lo) / 100 == hi && (100 * hi + lo) % 100 == lo
  {
  }

  lemma DigitCharValue(c: char)
    requires IsDigit(c)
    ensures DigitChar(DigitValue(c)) == c
  {
  }

  /** The number of whitespace characters `str.lstrip()` removes. */
  function LeadingSpaces(s: string): (n: nat)
    ensures n <= |s|
    ensures forall k | 0 <= k < n :: IsSpace(s[k])
    ensures n < |s| ==> !IsSpace(s[n])
  {
    if s != [] && IsSpace(s[0]) then 1 + LeadingSpaces(s[1..]) else 0
  }

  /** The number of whitespace characters `str.rstrip()` removes. */
  function TrailingSpaces(s: string): (n: nat)
    ensures n <= |s|
    ensures forall k | |s| - n <= k < |s| :: IsSpace(s[k])
    ensures n < |s| ==> !IsSpace(s[|s| - n - 1])
  {
    if s != [] && IsSpace(s[|s| - 1]) then 1 + TrailingSpaces(s[..|s| - 1]) else 0
  }

  /** `str.lstrip()`. */
  function TrimStart(s: string): (r: string)
    ensures |r| <= |s|
    ensures r == s[|s| - |r|..]
    ensures r == [] || !IsSpace(r[0])
    ensures AllSpaces(s[..|s| - |r|])
  {
    s[LeadingSpaces(s)..]
  }

  /** `str.strip()`: the longest infix of `s` that neither begins nor ends
      with whitespace and around which there is only whitespace. */
  function Strip(s: string): (r: string)
    ensures LeadingSpaces(s) + |r| <= |s|
    ensures r == s[LeadingSpaces(s)..LeadingSpaces(s) + |r|]
    ensures r == [] || (!IsSpace(r[0]) && !IsSpace(r[|r| - 1]))
    ensures AllSpaces(s[..LeadingSpaces(s)]) && AllSpaces(s[LeadingSpaces(s) + |r|..])
  {
    var n := LeadingSpaces(s);
    var t := s[n..];
    var r := t[..|t| - TrailingSpaces(t)];
    assert r == s[n..n + |r|];
    assert s[n + |r|..] == t[|r|..];
    assert r == [] ==> t == [];
    r
  }

  /** A string that neither begins nor ends with whitespace is its own strip. */
  lemma StripOfStripped(s: string)
    requires s == [] || (!IsSpace(s[0]) && !IsSpace(s[|s| - 1]))
    ensures Strip(s) == s
  {
  }

  /** Stripping a string that does not end in whitespace only strips its start. */
  lemma StripWithoutTrailing(s: string)
    requires s == [] || !IsSpace(s[|s| - 1])
    ensures Strip(s) == TrimStart(s)
  {
  }

  /** `str.find(c)`, except that "not found" is `|s|` rather than -1. */
  function FirstIndexOf(s: string, c: char): (i: nat)
    ensures i <= |s|
    ensures i < |s| ==> s[i] == c
    ensures forall k | 0 <= k < i :: s[k] != c
  {
    if s == [] || s[0] == c then 0 else 1 + FirstIndexOf(s[1..], c)
  }

  /** `FirstIndexOf` is pinned down by its contract: the first position holding `c`. */
  lemma FirstIndexOfIs(s: string, c: char, i: nat)
    requires i < |s| && s[i] == c
    requires forall k | 0 <= k < i :: s[k] != c
    ensures FirstIndexOf(s, c) == i
  {
  }

  /** Slicing `s + t` around a position of `s`. */
  lemma SliceAppend(s: string, t: string, i: nat)
    requires i < |s|
    ensures (s + t)[..i] == s[..i] && (s + t)[..i + 1] == s[..i + 1] && (s + t)[i + 1..] == s[i + 1..] + t
  {
  }

  /** A two-digit field followed by a one-character separator that is not a
      digit is split at that separator. */
  lemma PairThenSeparator(a: string, sep: string, rest: string)
    requires |a| == 2 && AllDigits(a) && |sep| == 1 && !IsDigit(sep[0])
    ensures FirstIndexOf(a + sep + rest, sep[0]) == 2
    ensures (a + sep + rest)[..2] == a && (a + sep + rest)[3..] == rest
  {
    FirstIndexOfIs(a + sep + rest, sep[0], 2);
  }

  /** A character found in `s` is found at the same place in `s + t`. */
  lemma FirstIndexOfPrefix(s: string, t: string, c: char)
    requires FirstIndexOf(s, c) < |s|
    ensures FirstIndexOf(s + t, c) == FirstIndexOf(s, c)
  {
    var i := FirstIndexOf(s, c);
    assert (s + t)[i] == c;
    assert forall k | 0 <= k < i :: (s + t)[k] == s[k];
    FirstIndexOfIs(s + t, c, i);
  }

  /** The index of the first whitespace character, or `|s|` if there is none. */
  function FirstSpace(s: string): (i: nat)
    ensures i <= |s|
    ensures i < |s| ==> IsSpace(s[i])
    ensures forall k | 0 <= k < i :: !IsSpace(s[k])
  {
    if s == [] || IsSpace(s[0]) then 0 else 1 + FirstSpace(s[1..])
  }

  /** `FirstSpace` is pinned down by its contract: the first whitespace position. */
  lemma FirstSpaceIs(s: string, i: nat)
    requires i < |s| && IsSpace(s[i])
    requires forall k | 0 <= k < i :: !IsSpace(s[k])
    ensures FirstSpace(s) == i
  {
  }

  /** `s[::-1]`. */
  function Reverse(s: string): (r: string)
    ensures |r| == |s|
    ensures forall k | 0 <= k < |s| :: r[k] == s[|s| - 1 - k]
  {
    seq(|s|, k requires 0 <= k < |s| => s[|s| - 1 - k])
  }

  /** Reversing, keeping the first `n` characters and reversing back keeps the
      last `n` characters: `s[::-1][0:n][::-1] == s[len(s)-n:]`. */
  lemma ReverseSliceReverse(s: string, n: nat)
    requires n <= |s|
    ensures Reverse(Reverse(s)[..n]) == s[|s| - n..]
  {
    var p := Reverse(s)[..n];
    var r := Reverse(p);
    forall k | 0 <= k < n
      ensures r[k] == s[|s| - n + k]
    {
      assert r[k] == p[n - 1 - k];
    }
  }
}
