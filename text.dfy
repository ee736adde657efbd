/**
 * The few pieces of Python string handling the profiler relies on:
 * `str.split()` with no separator, `int(s, 16)` on hex addresses and
 * `int(s)` on decimal counts.
 */
module Text {
  import opened Wrappers

  /** The characters Python 2's `str.split()` treats as separators. */
  predicate IsSpace(c: char) {
    c == ' ' || c == '\t' || c == '\n' || c == '\r' || c == '\U{000B}' || c == '\U{000C}'
  }

  predicate NoSpace(w: string) {
    forall i :: 0 <= i < |w| ==> !IsSpace(w[i])
  }

  /** The longest prefix of `s` that holds no separator. */
  function Word(s: string): (w: string)
    ensures |w| <= |s| && w == s[..|w|]
    ensures NoSpace(w)
    ensures |w| < |s| ==> IsSpace(s[|w|])
  {
    if |s| == 0 || IsSpace(s[0]) then [] else [s[0]] + Word(s[1..])
  }

  /**
   * `s.split()`: the maximal runs of non-separator characters, in order.
   * Leading and trailing separators produce nothing, so `s.strip().split()`
   * and `s.split()` agree (FieldsIgnoreTrailingSpace).
   */
  function Fields(s: string): (fs: seq<string>)
    ensures forall k :: 0 <= k < |fs| ==> fs[k] != [] && NoSpace(fs[k])
    decreases |s|
  {
    if |s| == 0 then []
    else if IsSpace(s[0]) then Fields(s[1..])
    else
      var w := Word(s);
      [w] + Fields(s[|w|..])
  }

  /** The words joined by single blanks, as `' '.join(ws)` would. */
  function JoinBlank(ws: seq<string>): string {
    if |ws| == 0 then ""
    else if |ws| == 1 then ws[0]
    else ws[0] + " " + JoinBlank(ws[1..])
  }

  lemma {:induction false} WordOfJoin(w: string, rest: string)
    requires NoSpace(w)
    requires |rest| == 0 || IsSpace(rest[0])
    ensures Word(w + rest) == w
    decreases |w|
  {
    if |w| > 0 {
      assert (w + rest)[1..] == w[1..] + rest;
      WordOfJoin(w[1..], rest);
    }
  }

  /** Splitting undoes joining: `' '.join(ws).split() == ws` for blank-free, non-empty words. */
  lemma {:induction false} FieldsOfJoin(ws: seq<string>)
    requires forall k :: 0 <= k < |ws| ==> ws[k] != [] && NoSpace(ws[k])
    ensures Fields(JoinBlank(ws)) == ws
  {
    if |ws| == 1 {
      WordOfJoin(ws[0], "");
      assert ws[0] + "" == ws[0];
      assert ws[0][|ws[0]|..] == [];
      assert Fields(ws[0]) == [ws[0]] + Fields([]);
    } else if |ws| > 1 {
      var s := JoinBlank(ws);
      var rest := " " + JoinBlank(ws[1..]);
      assert s == ws[0] + rest;
      WordOfJoin(ws[0], rest);
      assert s[|ws[0]|..] == rest;
      assert rest[1..] == JoinBlank(ws[1..]);
      FieldsOfJoin(ws[1..]);
    }
  }

  lemma {:induction false} WordIgnoresTrailingSpace(s: string, c: char)
    requires IsSpace(c) && |s| > 0 && !IsSpace(s[0])
    ensures Word(s + [c]) == Word(s)
  {
    if |s| > 1 && !IsSpace(s[1]) {
      assert (s + [c])[1..] == s[1..] + [c];
      WordIgnoresTrailingSpace(s[1..], c);
    } else if |s| > 1 {
      assert (s + [c])[1..] == s[1..] + [c];
    } else {
      assert (s + [c])[1..] == [c];
    }
  }

  /** A trailing separator adds no field, which is why stripping a line does not change its fields. */
  lemma {:induction false} FieldsIgnoreTrailingSpace(s: string, c: char)
    requires IsSpace(c)
    ensures Fields(s + [c]) == Fields(s)
    decreases |s|
  {
    if |s| == 0 {
      assert Fields([c]) == Fields([c][1..]);
    } else if IsSpace(s[0]) {
      assert (s + [c])[1..] == s[1..] + [c];
      FieldsIgnoreTrailingSpace(s[1..], c);
    } else {
      WordIgnoresTrailingSpace(s, c);
      var w := Word(s);
      assert (s + [c])[|w|..] == s[|w|..] + [c];
      FieldsIgnoreTrailingSpace(s[|w|..], c);
    }
  }

  // ---- hexadecimal: int(s, 16) ----

  predicate IsHexDigit(c: char) {
    '0' <= c <= '9' || 'a' <= c <= 'f' || 'A' <= c <= 'F'
  }

  function HexDigit(c: char): (d: nat)
    requires IsHexDigit(c)
    ensures d < 16
  {
    if '0' <= c <= '9' then (c - '0') as nat
    else if 'a' <= c <= 'f' then (c - 'a') as nat + 10
    else (c - 'A') as nat + 10
  }

  predicate AllHex(s: string) {
    forall i :: 0 <= i < |s| ==> IsHexDigit(s[i])
  }

  function Pow16(n: nat): (p: nat)
    ensures p >= 1
  {
    if n == 0 then 1 else 16 * Pow16(n - 1)
  }

  /** The value of a string of hex digits, most significant digit first. */
  function HexOf(s: string): (v: nat)
    requires AllHex(s)
    ensures v < Pow16(|s|)
  {
    if |s| == 0 then 0
    else
      var d, p, rest := HexDigit(s[0]), Pow16(|s| - 1), HexOf(s[1..]);
      DigitTimesPow(d, p);
      d * p + rest
  }

  /** A digit below 16 times a power leaves room for one more power below the next one. */
  lemma DigitTimesPow(d: nat, p: nat)
    requires d < 16
    ensures d * p + p <= 16 * p
  {
    assert d * p <= 15 * p by { MulMono(d, 15, p); }
  }

  lemma MulMono(a: nat, b: nat, p: nat)
    requires a <= b
    ensures a * p <= b * p
  {
    assert b * p == a * p + (b - a) * p;
  }

  /** Hex digits as `'%x'` writes them: no upper-case letters. */
  predicate LowerHex(s: string) {
    forall i :: 0 <= i < |s| ==> '0' <= s[i] <= '9' || 'a' <= s[i] <= 'f'
  }

  /** The value of two digit strings put together: the first shifted past the second. */
  lemma {:induction false} HexOfConcat(p: string, q: string)
    requires AllHex(p) && AllHex(q)
    ensures AllHex(p + q) && HexOf(p + q) == HexOf(p) * Pow16(|q|) + HexOf(q)
  {
    var s := p + q;
    assert AllHex(s) by {
      forall i | 0 <= i < |s| ensures IsHexDigit(s[i]) {
        if i < |p| { assert s[i] == p[i]; } else { assert s[i] == q[i - |p|]; }
      }
    }
    if |p| > 0 {
      assert s[1..] == p[1..] + q;
      HexOfConcat(p[1..], q);
      Pow16Add(|p| - 1, |q|);
      var d, a, b, pq := HexDigit(p[0]), Pow16(|p| - 1), Pow16(|q|), HexOf(p[1..]);
      assert s[0] == p[0];
      assert |s| - 1 == |p| - 1 + |q|;
      assert HexOf(s) == d * (a * b) + (pq * b + HexOf(q));
      assert HexOf(p) == d * a + pq;
      ShiftDigit(d, a, b, pq, HexOf(q));
    } else {
      assert s == q;
    }
  }

  /** Splitting a digit string at k: the value of the first k digits shifted past the rest. */
  lemma HexOfSplit(s: string, k: nat)
    requires AllHex(s) && k <= |s|
    ensures AllHex(s[..k]) && AllHex(s[k..])
    ensures HexOf(s) == HexOf(s[..k]) * Pow16(|s| - k) + HexOf(s[k..])
  {
    assert s == s[..k] + s[k..];
    HexOfConcat(s[..k], s[k..]);
  }

  lemma ShiftDigit(d: nat, a: nat, b: nat, pq: nat, r: nat)
    ensures d * (a * b) + (pq * b + r) == (d * a + pq) * b + r
  {
    assert d * (a * b) == (d * a) * b;
    assert (d * a) * b + pq * b == (d * a + pq) * b;
  }

  lemma {:induction false} Pow16Add(a: nat, b: nat)
    ensures Pow16(a + b) == Pow16(a) * Pow16(b)
  {
    if a > 0 {
      Pow16Add(a - 1, b);
      assert Pow16(a + b) == 16 * Pow16(a - 1 + b);
    }
  }

  /** A value written as a digit followed by a remainder below the place value divides back into the two. */
  lemma DivModUnique(d: nat, p: nat, r: nat)
    requires p >= 1 && r < p
    ensures (d * p + r) / p == d && (d * p + r) % p == r
  {
    var n := d * p + r;
    var q, m := n / p, n % p;
    DivMod(n, p);
    if q < d {
      MulMono(q + 1, d, p);
    } else if q > d {
      MulMono(d + 1, q, p);
    }
  }

  /** The other round trip: a lower-case hex string is the zero-padded rendering of its own value. */
  lemma {:induction false} HexStringOfParse(s: string)
    requires LowerHex(s)
    ensures AllHex(s) && HexString(HexOf(s), |s|) == s
    ensures |s| > 0 ==> ParseHex(s) == Some(HexOf(s))
  {
    assert AllHex(s);
    if |s| > 0 {
      var d, p, rest := HexDigit(s[0]), Pow16(|s| - 1), s[1..];
      assert LowerHex(rest);
      HexStringOfParse(rest);
      HexOfHead(s);
      HexStringStep(HexOf(s), |s|, d, HexOf(rest));
      assert HexChar(d) == s[0];
      assert s == [s[0]] + rest;
    }
  }

  /** `int(s, 16)` on a bare hex string; `None` is Python's ValueError. */
  function ParseHex(s: string): Option<nat> {
    if |s| > 0 && AllHex(s) then Some(HexOf(s)) else None
  }

  /** The lower-case hex digit of a value below 16. */
  function HexChar(d: nat): (c: char)
    requires d < 16
    ensures IsHexDigit(c) && HexDigit(c) == d
    ensures '0' <= c <= '9' || 'a' <= c <= 'f'
  {
    if d < 10 then ('0' as int + d) as char else ('a' as int + d - 10) as char
  }

  /** `'%0*x' % (width, n)` for a value that fits in `width` digits. */
  function HexString(n: nat, width: nat): (s: string)
    requires n < Pow16(width)
    ensures |s| == width && AllHex(s)
    ensures LowerHex(s)
  {
    if width == 0 then ""
    else
      var p := Pow16(width - 1);
      DivBound(n, p);
      [HexChar(n / p)] + HexString(n % p, width - 1)
  }

  /** Parsing a zero-padded hex rendering gives the value back. */
  lemma {:induction false} ParseHexString(n: nat, width: nat)
    requires 0 < width && n < Pow16(width)
    ensures ParseHex(HexString(n, width)) == Some(n)
  {
    HexOfHexString(n, width);
  }

  lemma {:induction false} HexOfHexString(n: nat, width: nat)
    requires n < Pow16(width)
    ensures HexOf(HexString(n, width)) == n
  {
    if width > 0 {
      var p := Pow16(width - 1);
      var q, m := n / p, n % p;
      DivBound(n, p);
      DivMod(n, p);
      HexStringCons(n, width);
      var rest := HexString(m, width - 1);
      var s := [HexChar(q)] + rest;
      HexOfHexString(m, width - 1);
      assert s[1..] == rest;
      HexOfHead(s);
    }
  }

  /** One step of the zero-padded rendering: the leading digit, then the rest. */
  lemma HexStringCons(n: nat, width: nat)
    requires 0 < width && n < Pow16(width)
    ensures n / Pow16(width - 1) < 16 && n % Pow16(width - 1) < Pow16(width - 1)
    ensures HexString(n, width) == [HexChar(n / Pow16(width - 1))] + HexString(n % Pow16(width - 1), width - 1)
  {
    DivBound(n, Pow16(width - 1));
  }

  /** A value given as a leading digit and a remainder renders as that digit, then the remainder. */
  lemma HexStringStep(v: nat, width: nat, d: nat, r: nat)
    requires 0 < width && d < 16 && r < Pow16(width - 1)
    requires v == d * Pow16(width - 1) + r
    ensures v < Pow16(width)
    ensures HexString(v, width) == [HexChar(d)] + HexString(r, width - 1)
  {
    var p := Pow16(width - 1);
    DigitTimesPow(d, p);
    DivModUnique(d, p, r);
    HexStringCons(v, width);
  }

  /** One step of the value: the leading digit at its place value, then the rest. */
  lemma HexOfHead(s: string)
    requires 0 < |s| && AllHex(s)
    ensures HexOf(s) == HexDigit(s[0]) * Pow16(|s| - 1) + HexOf(s[1..])
  {
  }

  lemma DivMod(n: nat, p: nat)
    requires p >= 1
    ensures n == (n / p) * p + n % p
  {
  }

  lemma DivBound(n: nat, p: nat)
    requires p >= 1 && n < 16 * p
    ensures n / p < 16
  {
  }

  // ---- decimal: int(s) ----

  predicate IsDigit(c: char) {
    '0' <= c <= '9'
  }

  predicate AllDigits(s: string) {
    forall i :: 0 <= i < |s| ==> IsDigit(s[i])
  }

  /** The value of a string of decimal digits, least significant digit last. */
  function DecOf(s: string): (v: nat)
    requires AllDigits(s)
  {
    if |s| == 0 then 0 else 10 * DecOf(s[..|s| - 1]) + (s[|s| - 1] - '0') as nat
  }

  /** `int(s)` for a Python 2 byte string: an optional sign and at least one ASCII digit. */
  function ParseInt(s: string): (r: Option<int>)
    ensures r.Some? ==> |s| > 0
  {
    if |s| > 0 && (s[0] == '-' || s[0] == '+') then
      if |s| > 1 && AllDigits(s[1..]) then
        var v: int := DecOf(s[1..]);
        Some(if s[0] == '-' then -v else v)
      else None
    else if |s| > 0 && AllDigits(s) then Some(DecOf(s))
    else None
  }

  /** The digit character of a value below 10. */
  function DigitChar(d: nat): (c: char)
    requires d < 10
    ensures IsDigit(c) && (c - '0') as nat == d
  {
    ('0' as int + d) as char
  }

  /** `'%d' % n` for a natural number: no leading zeros. */
  function Digits(n: nat): (s: string)
    ensures |s| > 0 && AllDigits(s)
  {
    if n < 10 then [DigitChar(n)] else Digits(n / 10) + [DigitChar(n % 10)]
  }

  /** `'%d' % n`: a minus sign in front of a negative number's digits. */
  function DecString(n: int): (s: string)
    ensures s != [] && NoSpace(s)
  {
    if n < 0 then "-" + Digits(-n) else Digits(n)
  }

  lemma {:induction false} DecOfDigits(n: nat)
    ensures DecOf(Digits(n)) == n
  {
    if n >= 10 {
      var s := Digits(n);
      DecOfDigits(n / 10);
      assert s[..|s| - 1] == Digits(n / 10);
      assert (s[|s| - 1] - '0') as nat == n % 10;
    }
  }

  /** `int('%d' % n) == n`: parsing the decimal rendering of any integer gives it back. */
  lemma ParseIntDecString(n: int)
    ensures ParseInt(DecString(n)) == Some(n)
  {
    var s := DecString(n);
    if n < 0 {
      DecOfDigits(-n);
      assert s[1..] == Digits(-n);
    } else {
      DecOfDigits(n);
      assert IsDigit(s[0]);
    }
  }
}
