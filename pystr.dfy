/**
 * The parts of Python's built-in string and integer behaviour that the
 * modelled code depends on: `str.split()`, `str.split(" ")`,
 * `str.splitlines()`, slicing `s[-k:]`, `int(s, base)`, `str(n)`,
 * `format(n, "b")` and the floor remainder `%`.
 */
module PyStr {
  import opened Wrappers

  function Min(a: int, b: int): int { if a <= b then a else b }

  // ---------------------------------------------------------------------
  // Character classes
  // ---------------------------------------------------------------------

  /** Characters for which Python's `str.isspace()` holds; `split()`, `strip()` and `int()` skip these. */
  predicate IsSpace(c: char) {
    c == ' ' || ('\t' <= c <= '\r') || ('\U{1C}' <= c <= '\U{1F}') || c == '\U{85}' || c == '\U{A0}'
    || c == '\U{1680}' || ('\U{2000}' <= c <= '\U{200A}') || c == '\U{2028}' || c == '\U{2029}'
    || c == '\U{202F}' || c == '\U{205F}' || c == '\U{3000}'
  }

  /** The line boundaries recognised by Python's `str.splitlines()`. */
  predicate IsLineBreak(c: char) {
    ('\n' <= c <= '\r') || ('\U{1C}' <= c <= '\U{1E}') || c == '\U{85}' || c == '\U{2028}' || c == '\U{2029}'
  }

  // ---------------------------------------------------------------------
  // Splitting
  // ---------------------------------------------------------------------

  /** Length of the leading run of characters that are not white space. */
  function WordLength(s: string): (k: nat)
    ensures k <= |s|
    ensures forall i :: 0 <= i < k ==> !IsSpace(s[i])
    ensures k < |s| ==> IsSpace(s[k])
  {
    if s == [] || IsSpace(s[0]) then 0 else 1 + WordLength(s[1..])
  }

  /** Python's `s.split()`: the maximal runs of non-space characters, in order. */
  function SplitWhitespace(s: string): (words: seq<string>)
    ensures forall w :: w in words ==> |w| > 0 && forall i :: 0 <= i < |w| ==> !IsSpace(w[i])
    decreases |s|
  {
    if s == [] then []
    else if IsSpace(s[0]) then SplitWhitespace(s[1..])
    else
      var k := WordLength(s);
      [s[..k]] + SplitWhitespace(s[k..])
  }

  /** Index of the first occurrence of `c` in `s`, or `|s|`. */
  function IndexOf(s: string, c: char): (i: nat)
    ensures i <= |s|
    ensures i < |s| ==> s[i] == c
    ensures forall j :: 0 <= j < i ==> s[j] != c
  {
    if s == [] || s[0] == c then 0 else 1 + IndexOf(s[1..], c)
  }

  /** Python's `sep.join(pieces)` for a one-character separator. */
  function JoinWith(pieces: seq<string>, sep: char): string {
    if pieces == [] then []
    else if |pieces| == 1 then pieces[0]
    else pieces[0] + [sep] + JoinWith(pieces[1..], sep)
  }

  /** Python's `s.split(sep)` for a one-character separator: empty pieces are kept. */
  function SplitOn(s: string, sep: char): (pieces: seq<string>)
    ensures |pieces| >= 1
    ensures forall p :: p in pieces ==> sep !in p
    ensures JoinWith(pieces, sep) == s
    decreases |s|
  {
    var i := IndexOf(s, sep);
    if i == |s| then [s]
    else
      var rest := SplitOn(s[i + 1..], sep);
      assert s == s[..i] + [sep] + s[i + 1..];
      [s[..i]] + rest
  }

  /** Index of the first line boundary in `s`, or `|s|`. */
  function LineBreakIndex(s: string): (i: nat)
    ensures i <= |s|
    ensures i < |s| ==> IsLineBreak(s[i])
    ensures forall j :: 0 <= j < i ==> !IsLineBreak(s[j])
  {
    if s == [] || IsLineBreak(s[0]) then 0 else 1 + LineBreakIndex(s[1..])
  }

  /**
   * Python's `s.splitlines()`: the lines without their terminators; "\r\n" is
   * one terminator, and a terminator at the very end opens no further line.
   */
  function SplitLines(s: string): (lines: seq<string>)
    ensures s == [] <==> lines == []
    ensures forall l :: l in lines ==> forall i :: 0 <= i < |l| ==> !IsLineBreak(l[i])
    decreases |s|
  {
    if s == [] then []
    else
      var i := LineBreakIndex(s);
      if i == |s| then [s]
      else
        var next := if s[i] == '\r' && i + 1 < |s| && s[i + 1] == '\n' then i + 2 else i + 1;
        [s[..i]] + SplitLines(s[next..])
  }

  // ---------------------------------------------------------------------
  // Slicing and remainder
  // ---------------------------------------------------------------------

  /** Python's normalisation of a slice start `i` against a length `n`. */
  function SliceStart(i: int, n: nat): (k: nat)
    ensures k <= n
  {
    if i < 0 then (if i + n < 0 then 0 else i + n) else if i > n then n else i
  }

  /** Python's `s[-k:]`; note that `k == 0` keeps the whole string. */
  function TailSlice(s: string, k: int): (r: string)
    ensures k > 0 ==> |r| == Min(k, |s|)
    ensures k == 0 ==> r == s
    ensures k < 0 ==> |r| == |s| - Min(-k, |s|)
    ensures r == s[|s| - |r|..]
  {
    s[SliceStart(-k, |s|)..]
  }

  /** Python's `a % b`: the remainder has the sign of `b` (Dafny's `%` is Euclidean). */
  function FloorMod(a: int, b: int): (r: int)
    requires b != 0
    ensures b > 0 ==> r == a % b
    ensures b < 0 ==> b < r <= 0 && (r == a % b || r == a % b + b)
  {
    var e := a % b;
    if b < 0 && e != 0 then e + b else e
  }

  // ---------------------------------------------------------------------
  // Digits
  // ---------------------------------------------------------------------

  /** The value Python gives a digit character (36 for a character that is no digit in any base). */
  function DigitValue(c: char): nat {
    if '0' <= c <= '9' then (c as int) - ('0' as int)
    else if 'a' <= c <= 'z' then (c as int) - ('a' as int) + 10
    else if 'A' <= c <= 'Z' then (c as int) - ('A' as int) + 10
    else 36
  }

  predicate IsDigitIn(c: char, base: nat) {
    DigitValue(c) < base
  }

  /** The lower-case digit Python prints for `d`. */
  function DigitChar(d: nat): (c: char)
    requires d < 16
    ensures DigitValue(c) == d
  {
    if d < 10 then (('0' as int) + d) as char else (('a' as int) + d - 10) as char
  }

  /** The number a digit string denotes, most significant digit first. */
  function DigitsValue(ds: string, base: nat): nat {
    if ds == [] then 0 else DigitsValue(ds[..|ds| - 1], base) * base + DigitValue(ds[|ds| - 1])
  }

  function Pow(b: nat, k: nat): (p: nat)
    ensures b >= 1 ==> p >= 1
  {
    if k == 0 then 1 else b * Pow(b, k - 1)
  }

  /** The digits of `n` in `base`, without leading zeros ("0" for zero). */
  function NatToDigits(n: nat, base: nat): (ds: string)
    requires 2 <= base <= 16
    ensures |ds| >= 1
    ensures forall i :: 0 <= i < |ds| ==> IsDigitIn(ds[i], base)
    ensures DigitsValue(ds, base) == n
    decreases n
  {
    if n < base then
      [DigitChar(n)]
    else
      var q, r := n / base, n % base;
      DivMod(n, base);
      var high := NatToDigits(q, base);
      var low := DigitChar(r);
      DigitsValueSnoc(high, low, base);
      high + [low]
  }

  /** Appending a digit shifts the value up one place. */
  lemma DigitsValueSnoc(ds: string, c: char, base: nat)
    ensures DigitsValue(ds + [c], base) == DigitsValue(ds, base) * base + DigitValue(c)
  {
    assert (ds + [c])[..|ds|] == ds;
  }

  lemma DivMod(n: nat, base: nat)
    requires 2 <= base <= n
    ensures var q, r := n / base, n % base; q * base + r == n && 0 <= r < base && q < n
  {
  }

  function Zeros(k: nat): (z: string)
    ensures |z| == k && forall i :: 0 <= i < k ==> z[i] == '0'
  {
    if k == 0 then [] else Zeros(k - 1) + ['0']
  }

  /** Python's `str(v)` for an int. */
  function IntToString(v: int): string {
    if v < 0 then "-" + NatToDigits(-v, 10) else NatToDigits(v, 10)
  }

  /** Python's `format(v, "b")` (also `f"{v:b}"`): the binary digits, after a minus sign when negative. */
  function BinaryString(v: int): string {
    if v < 0 then "-" + NatToDigits(-v, 2) else NatToDigits(v, 2)
  }

  // ---------------------------------------------------------------------
  // int(s, base)
  // ---------------------------------------------------------------------

  function StripLeft(s: string): string {
    if s != [] && IsSpace(s[0]) then StripLeft(s[1..]) else s
  }

  function StripRight(s: string): string {
    if s != [] && IsSpace(s[|s| - 1]) then StripRight(s[..|s| - 1]) else s
  }

  /** Python's `s.strip()`. */
  function Strip(s: string): string {
    StripRight(StripLeft(s))
  }

  /** Digits of `base`, single underscores allowed between two digits. */
  predicate WellFormedDigits(d: string, base: nat) {
    |d| > 0 && IsDigitIn(d[0], base) && DigitGroups(d[1..], base)
  }

  /** What may follow a digit: more digits, each of them after at most one underscore. */
  predicate DigitGroups(r: string, base: nat)
    decreases |r|
  {
    if r == [] then true
    else if r[0] == '_' then |r| >= 2 && IsDigitIn(r[1], base) && DigitGroups(r[2..], base)
    else IsDigitIn(r[0], base) && DigitGroups(r[1..], base)
  }

  function WithoutUnderscores(d: string): (r: string)
    ensures '_' !in d ==> r == d
  {
    if d == [] then [] else (if d[0] == '_' then [] else [d[0]]) + WithoutUnderscores(d[1..])
  }

  /**
   * Python's `int(s, base)` for base 10 and 16: surrounding white space, a
   * sign, for base 16 an optional "0x"/"0X" prefix (with one underscore
   * allowed after it), and digits with single underscores between them.
   * None stands for the ValueError Python raises.
   */
  function ParseInt(s: string, base: nat): Option<int>
    requires base == 10 || base == 16
  {
    ParseSigned(Strip(s), base)
  }

  /** `int` on text already stripped: an optional sign, then the unsigned part. */
  function ParseSigned(t: string, base: nat): Option<int>
    requires base == 10 || base == 16
  {
    var signed := |t| > 0 && (t[0] == '-' || t[0] == '+');
    var magnitude := ParseUnsigned(if signed then t[1..] else t, base);
    if magnitude.None? then None
    else if signed && t[0] == '-' then Some(-(magnitude.value as int))
    else Some(magnitude.value)
  }

  /** The unsigned part of `int(s, base)`: the optional base-16 prefix and the digits. */
  function ParseUnsigned(u: string, base: nat): Option<nat>
    requires base == 10 || base == 16
  {
    var prefixed := base == 16 && |u| >= 2 && u[0] == '0' && (u[1] == 'x' || u[1] == 'X');
    var body := if prefixed then u[2..] else u;
    var digits := if prefixed && |body| > 0 && body[0] == '_' then body[1..] else body;
    if WellFormedDigits(digits, base) then Some(DigitsValue(WithoutUnderscores(digits), base)) else None
  }

  // ---------------------------------------------------------------------
  // Lemmas
  // ---------------------------------------------------------------------

  /** `int(str(v)) == v`: the decimal rendering of an int parses back to it. */
  lemma ParseIntOfIntToString(v: int)
    ensures ParseInt(IntToString(v), 10) == Some(v)
  {
    var m: nat := if v < 0 then -v else v;
    var ds := NatToDigits(m, 10);
    DecimalDigits(ds);
    if v < 0 {
      NegativeOf(ds, m);
    } else {
      SignlessParse(ds, m);
    }
  }

  /** What a decimal digit string offers `int()`: no sign, no space at either end, and its value. */
  lemma DecimalDigits(ds: string)
    requires |ds| >= 1 && forall i :: 0 <= i < |ds| ==> IsDigitIn(ds[i], 10)
    ensures ds[0] != '-' && ds[0] != '+' && Strip(ds) == ds
    ensures !IsSpace(ds[|ds| - 1])
    ensures ParseUnsigned(ds, 10) == Some(DigitsValue(ds, 10))
  {
    DigitIsNotSpace(ds[0]);
    DigitIsNotSpace(ds[|ds| - 1]);
    StripUnchanged(ds);
    UnsignedDigits(ds);
  }

  /** A minus sign before an unsigned literal that ends in a non-space negates it. */
  lemma NegativeOf(u: string, m: nat)
    requires u != [] && !IsSpace(u[|u| - 1]) && ParseUnsigned(u, 10) == Some(m)
    ensures ParseInt("-" + u, 10) == Some(-(m as int))
  {
    MinusStripped(u);
    MinusParse("-" + u, m);
  }

  /** A minus sign before text that ends in a non-space is left alone by `strip()`. */
  lemma MinusStripped(u: string)
    requires u != [] && !IsSpace(u[|u| - 1])
    ensures var s := "-" + u; |s| > 1 && s[0] == '-' && s[1..] == u && Strip(s) == s
  {
    var s := "-" + u;
    assert s[0] == '-' && !IsSpace('-') && s[|s| - 1] == u[|u| - 1];
    StripUnchanged(s);
    assert s[1..] == u;
  }

  lemma SignlessParse(s: string, m: nat)
    requires s != [] && s[0] != '-' && s[0] != '+' && Strip(s) == s && ParseUnsigned(s, 10) == Some(m)
    ensures ParseInt(s, 10) == Some(m)
  {
  }

  lemma MinusParse(s: string, m: nat)
    requires |s| > 1 && s[0] == '-' && Strip(s) == s && ParseUnsigned(s[1..], 10) == Some(m)
    ensures ParseInt(s, 10) == Some(-(m as int))
  {
  }

  lemma UnsignedDigits(ds: string)
    requires |ds| >= 1 && forall i :: 0 <= i < |ds| ==> IsDigitIn(ds[i], 10)
    ensures ParseUnsigned(ds, 10) == Some(DigitsValue(ds, 10))
  {
    DigitsAreWellFormed(ds, 10);
  }

  lemma DigitIsNotSpace(c: char)
    requires IsDigitIn(c, 10)
    ensures !IsSpace(c) && c != '-' && c != '+' && c != '_'
  {
  }

  lemma StripUnchanged(s: string)
    requires s != [] && !IsSpace(s[0]) && !IsSpace(s[|s| - 1])
    ensures Strip(s) == s
  {
    assert StripLeft(s) == s;
  }

  /** A plain digit string (no underscores) is well formed and is its own underscore-free form. */
  lemma DigitsAreWellFormed(ds: string, base: nat)
    requires 1 <= base <= 36
    requires |ds| >= 1 && forall i :: 0 <= i < |ds| ==> IsDigitIn(ds[i], base)
    ensures WellFormedDigits(ds, base) && WithoutUnderscores(ds) == ds
  {
    assert forall i :: 0 <= i < |ds| ==> ds[i] != '_';
    assert '_' !in ds;
    PlainDigitGroups(ds[1..], base);
  }

  lemma {:induction false} PlainDigitGroups(r: string, base: nat)
    requires 1 <= base <= 36
    requires forall i :: 0 <= i < |r| ==> IsDigitIn(r[i], base)
    ensures DigitGroups(r, base)
    decreases |r|
  {
    if r != [] {
      assert IsDigitIn(r[0], base) && r[0] != '_';
      PlainDigitGroups(r[1..], base);
    }
  }

  /** The value of a concatenation of digit strings. */
  lemma {:induction false} DigitsValueConcat(p: string, q: string, base: nat)
    ensures DigitsValue(p + q, base) == DigitsValue(p, base) * Pow(base, |q|) + DigitsValue(q, base)
    decreases |q|
  {
    if q == [] {
      assert p + q == p;
    } else {
      var q' := q[..|q| - 1];
      var d := DigitValue(q[|q| - 1]);
      assert (p + q)[..|p + q| - 1] == p + q';
      assert (p + q)[|p + q| - 1] == q[|q| - 1];
      DigitsValueConcat(p, q', base);
      var a, pw, b := DigitsValue(p, base), Pow(base, |q'|), DigitsValue(q', base);
      assert DigitsValue(p + q, base) == (a * pw + b) * base + d;
      assert DigitsValue(q, base) == b * base + d;
      assert Pow(base, |q|) == base * pw;
      MulAddAssoc(a, pw, b, base);
    }
  }

  lemma MulAddAssoc(a: int, p: int, b: int, c: int)
    ensures (a * p + b) * c == a * (c * p) + b * c
  {
  }

  /** A string of digits of `base` denotes a number below `base` to the power of its length. */
  lemma {:induction false} DigitsValueBound(q: string, base: nat)
    requires base >= 1
    requires forall i :: 0 <= i < |q| ==> IsDigitIn(q[i], base)
    ensures DigitsValue(q, base) < Pow(base, |q|)
    decreases |q|
  {
    if q != [] {
      var q' := q[..|q| - 1];
      var d := DigitValue(q[|q| - 1]);
      assert forall i :: 0 <= i < |q'| ==> q'[i] == q[i];
      DigitsValueBound(q', base);
      var v, pw := DigitsValue(q', base), Pow(base, |q'|);
      assert DigitsValue(q, base) == v * base + d;
      assert Pow(base, |q|) == base * pw;
      assert d < base;
      MulBelow(v, pw, base);
    }
  }

  lemma MulBelow(v: nat, pw: nat, base: nat)
    requires v < pw && base >= 1
    ensures v * base + base <= base * pw
  {
    assert (v + 1) * base <= pw * base;
  }

  lemma {:induction false} ZerosValue(k: nat, base: nat)
    ensures DigitsValue(Zeros(k), base) == 0
  {
    if k > 0 {
      var z := Zeros(k - 1);
      ZerosValue(k - 1, base);
      DigitsValueSnoc(z, '0', base);
      assert DigitValue('0') == 0;
      assert DigitsValue(z, base) * base == 0;
    }
  }

  lemma AtMostMultiple(p: nat, b: nat)
    requires b >= 1
    ensures p <= b * p
  {
  }

  lemma {:induction false} PowMonotone(b: nat, j: nat, k: nat)
    requires b >= 1 && j <= k
    ensures Pow(b, j) <= Pow(b, k)
    decreases k
  {
    if j < k {
      PowMonotone(b, j, k - 1);
      AtMostMultiple(Pow(b, k - 1), b);
    }
  }

  /** `(a * m + r) % m == r` for a remainder `r` in range. */
  lemma ModOfMultipleAdd(a: nat, m: nat, r: nat)
    requires 0 <= r < m
    ensures (a * m + r) % m == r
  {
    var x := a * m + r;
    var q := x / m;
    assert x == q * m + x % m;
    if q > a {
      MulMonotone(a + 1, q, m);
      assert false;
    } else if q < a {
      MulMonotone(q + 1, a, m);
      assert false;
    }
  }

  lemma MulMonotone(u: int, v: int, m: nat)
    requires u <= v
    ensures u * m <= v * m
  {
  }
}
