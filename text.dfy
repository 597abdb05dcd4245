/** Character classes of ECMAScript regular expressions, prefix and substring
    tests, and the numerals the scripts print (`Number.prototype.toString`,
    Python's `"{}"` and `"{:0Nx}"`) together with their parsers
    (`parseInt(_, 16)`, `int(_, 16)`). */
module Text {

  datatype Option<+T> = None | Some(value: T)

  /** `[0-9A-Fa-f]` */
  predicate IsHexDigit(c: char) {
    ('0' <= c <= '9') || ('a' <= c <= 'f') || ('A' <= c <= 'F')
  }

  /** `\s`: the WhiteSpace and LineTerminator characters of ECMAScript. */
  predicate IsSpace(c: char) {
    var n := c as int;
    n == 0x09 || n == 0x0A || n == 0x0B || n == 0x0C || n == 0x0D || n == 0x20
    || n == 0xA0 || n == 0x1680 || (0x2000 <= n <= 0x200A)
    || n == 0x2028 || n == 0x2029 || n == 0x202F || n == 0x205F
    || n == 0x3000 || n == 0xFEFF
  }

  /** The characters `.` does not match (LineTerminator). */
  predicate IsLineTerminator(c: char) {
    var n := c as int;
    n == 0x0A || n == 0x0D || n == 0x2028 || n == 0x2029
  }

  lemma LineTerminatorIsSpace(c: char)
    requires IsLineTerminator(c)
    ensures IsSpace(c) && !IsHexDigit(c)
  {
  }

  /** `s` matches `.*` up to the end of the input. */
  predicate NoLineTerminator(s: string) {
    forall i {:trigger IsLineTerminator(s[i])} | 0 <= i < |s| :: !IsLineTerminator(s[i])
  }

  predicate AllHex(s: string) {
    forall i | 0 <= i < |s| :: IsHexDigit(s[i])
  }

  /** Where the run of hex digits that starts at `i` ends. */
  function HexEnd(s: string, i: nat): (j: nat)
    requires i <= |s|
    ensures i <= j <= |s|
    ensures j < |s| ==> !IsHexDigit(s[j])
    decreases |s| - i
  {
    if i == |s| || !IsHexDigit(s[i]) then i else HexEnd(s, i + 1)
  }

  /** Everything the run from `i` passes over is a hex digit. */
  lemma {:induction false} HexEndHex(s: string, i: nat)
    requires i <= |s|
    ensures forall k | i <= k < HexEnd(s, i) :: IsHexDigit(s[k])
    decreases |s| - i
  {
    if i < |s| && IsHexDigit(s[i]) {
      HexEndHex(s, i + 1);
    }
  }

  /** Where the run of `\s` characters that starts at `i` ends. */
  function SpaceEnd(s: string, i: nat): (j: nat)
    requires i <= |s|
    ensures i <= j <= |s|
    ensures j < |s| ==> !IsSpace(s[j])
    decreases |s| - i
  {
    if i == |s| || !IsSpace(s[i]) then i else SpaceEnd(s, i + 1)
  }

  /** Length of the longest prefix of `s` made of hex digits: what a greedy
      `[0-9A-Fa-f]+` consumes. */
  function HexLen(s: string): (n: nat)
    ensures n <= |s|
    ensures n < |s| ==> !IsHexDigit(s[n])
  {
    HexEnd(s, 0)
  }

  /** The run `HexLen` measures is made of hex digits. */
  lemma HexLenHex(s: string)
    ensures AllHex(s[..HexLen(s)])
  {
    var n := HexLen(s);
    HexEndHex(s, 0);
    assert forall k | 0 <= k < n :: s[..n][k] == s[k];
  }

  /** Length of the longest prefix of `s` made of `\s` characters. */
  function SpaceLen(s: string): (n: nat)
    ensures n <= |s|
    ensures n < |s| ==> !IsSpace(s[n])
  {
    SpaceEnd(s, 0)
  }

  lemma {:induction false} HexEndOfConcat(a: string, b: string, i: nat)
    requires AllHex(a) && i <= |a|
    requires b == [] || !IsHexDigit(b[0])
    ensures HexEnd(a + b, i) == |a|
    decreases |a| - i
  {
    if i < |a| {
      assert (a + b)[i] == a[i];
      HexEndOfConcat(a, b, i + 1);
    } else if b != [] {
      assert (a + b)[i] == b[0];
    }
  }

  lemma {:induction false} SpaceEndOfConcat(a: string, b: string, i: nat)
    requires forall k | 0 <= k < |a| :: IsSpace(a[k])
    requires i <= |a|
    requires b == [] || !IsSpace(b[0])
    ensures SpaceEnd(a + b, i) == |a|
    decreases |a| - i
  {
    if i < |a| {
      assert (a + b)[i] == a[i];
      SpaceEndOfConcat(a, b, i + 1);
    } else if b != [] {
      assert (a + b)[i] == b[0];
    }
  }

  /** A greedy hex run stops exactly where the hex digits stop. */
  lemma HexLenOfConcat(a: string, b: string)
    requires AllHex(a)
    requires b == [] || !IsHexDigit(b[0])
    ensures HexLen(a + b) == |a|
  {
    HexEndOfConcat(a, b, 0);
  }

  /** A greedy whitespace run stops exactly where the whitespace stops. */
  lemma SpaceLenOfConcat(a: string, b: string)
    requires forall i | 0 <= i < |a| :: IsSpace(a[i])
    requires b == [] || !IsSpace(b[0])
    ensures SpaceLen(a + b) == |a|
  {
    SpaceEndOfConcat(a, b, 0);
  }

  /** `String.prototype.startsWith` */
  predicate StartsWith(s: string, prefix: string) {
    |prefix| <= |s| && s[..|prefix|] == prefix
  }

  /** `String.prototype.includes` */
  predicate Contains(s: string, sub: string)
    decreases |s|
  {
    StartsWith(s, sub) || (s != [] && Contains(s[1..], sub))
  }

  // ---------------------------------------------------------------------
  // Numerals

  function Pow(b: nat, e: nat): (p: nat)
    ensures b > 0 ==> p > 0
  {
    if e == 0 then 1 else b * Pow(b, e - 1)
  }

  /** The lower-case digit for `d`, as `toString(16)` and `"{:x}"` print it. */
  function DigitChar(d: nat): (c: char)
    requires d < 16
    ensures IsHexDigit(c)
  {
    if d < 10 then ('0' as int + d) as char else ('a' as int + d - 10) as char
  }

  /** The value of one hex digit, either case. */
  function DigitValue(c: char): (d: nat)
    requires IsHexDigit(c)
    ensures d < 16
  {
    if '0' <= c <= '9' then c as int - '0' as int
    else if 'a' <= c <= 'f' then c as int - 'a' as int + 10
    else c as int - 'A' as int + 10
  }

  lemma DigitValueOfChar(d: nat)
    requires d < 16
    ensures DigitValue(DigitChar(d)) == d
  {
  }

  /** The value of a string of hex digits: `parseInt(s, 16)`, `int(s, 16)`. */
  function HexValue(s: string): nat
    requires AllHex(s)
  {
    if s == [] then 0 else HexValue(s[..|s| - 1]) * 16 + DigitValue(s[|s| - 1])
  }

  /** `n.toString(base)` for a non-negative integer `n` (JavaScript), and
      `"{}".format(n)` for base 10 (Python): no leading zeros, lower case. */
  function ToBase(n: nat, base: nat): (s: string)
    requires 2 <= base <= 16
    ensures |s| > 0 && AllHex(s)
    decreases n
  {
    if n < base then [DigitChar(n)]
    else
      DivShrinks(n, base);
      ToBase(n / base, base) + [DigitChar(n % base)]
  }

  lemma DivShrinks(n: nat, base: nat)
    requires 2 <= base <= n
    ensures n / base < n && n % base < base
  {
    var q := n / base;
    assert n == base * q + n % base;
    if q >= 1 {
      MulAtLeast(base, q);
      assert base * q == q + (base - 1) * q;
      MulAtLeast(q, base - 1);
    }
  }

  function ToHex(n: nat): string { ToBase(n, 16) }

  function ToDecimal(n: nat): string { ToBase(n, 10) }

  /** The last `width` hex digits of `n`, zero-padded: Python's `"{:016x}"`
      when `width` is 16 and `n` fits in 64 bits. */
  function PadHex(n: nat, width: nat): (s: string)
    ensures |s| == width && AllHex(s)
  {
    if width == 0 then [] else PadHex(n / 16, width - 1) + [DigitChar(n % 16)]
  }

  function Zeros(k: nat): (s: string)
    ensures |s| == k && forall i | 0 <= i < k :: s[i] == '0'
  {
    if k == 0 then [] else Zeros(k - 1) + ['0']
  }

  lemma {:induction false} MulAtLeast(m: int, k: int)
    requires m > 0 && k >= 1
    ensures m * k >= m
    decreases k
  {
    if k > 1 {
      assert m * k == m * (k - 1) + m;
      MulAtLeast(m, k - 1);
    }
  }

  /** Division with remainder has one answer. */
  lemma DivModUnique(n: int, m: int, q: int, r: int)
    requires m > 0 && n == m * q + r && 0 <= r < m
    ensures n / m == q && n % m == r
  {
    var q0, r0 := n / m, n % m;
    assert n == m * q0 + r0;
    if q > q0 {
      var k := q - q0;
      assert m * q == m * q0 + m * k;
      MulAtLeast(m, k);
    } else if q < q0 {
      var k := q0 - q;
      assert m * q0 == m * q + m * k;
      MulAtLeast(m, k);
    }
  }

  /** `toString(16)` prints the hex numeral of `n`: parsing it back gives `n`. */
  lemma {:induction false} HexRoundTrip(n: nat)
    ensures HexValue(ToHex(n)) == n
  {
    var s := ToHex(n);
    if n < 16 {
      DigitValueOfChar(n);
    } else {
      assert s[..|s| - 1] == ToHex(n / 16);
      HexRoundTrip(n / 16);
      DigitValueOfChar(n % 16);
    }
  }

  lemma ModStep(n: nat, p: nat)
    requires p > 0
    ensures (n / 16 % p) * 16 + n % 16 == n % (16 * p)
  {
    var q, r := n / 16, n % 16;
    var t, u := q / p, q % p;
    assert q == p * t + u;
    assert (16 * p) * t == 16 * (p * t);
    assert n == (16 * p) * t + (u * 16 + r);
    DivModUnique(n, 16 * p, t, u * 16 + r);
  }

  /** A fixed-width hex field holds `n` modulo `16^width`. */
  lemma {:induction false} PadHexValue(n: nat, width: nat)
    ensures HexValue(PadHex(n, width)) == n % Pow(16, width)
  {
    if width > 0 {
      var s := PadHex(n, width);
      assert s[..|s| - 1] == PadHex(n / 16, width - 1);
      PadHexValue(n / 16, width - 1);
      DigitValueOfChar(n % 16);
      ModStep(n, Pow(16, width - 1));
    }
  }

  lemma Regroup(x: int, p: int, y: int, d: int)
    ensures (x * p + y) * 16 + d == x * (16 * p) + (y * 16 + d)
  {
  }

  /** Reading a concatenation of hex strings weighs the left part by the
      length of the right part: the left part is the high-order part. */
  lemma {:induction false} HexValueOfConcat(a: string, b: string)
    requires AllHex(a) && AllHex(b)
    ensures AllHex(a + b)
    ensures HexValue(a + b) == HexValue(a) * Pow(16, |b|) + HexValue(b)
  {
    if b == [] {
      assert a + b == a;
    } else {
      var b' := b[..|b| - 1];
      var d := DigitValue(b[|b| - 1]);
      assert (a + b)[..|a + b| - 1] == a + b';
      HexValueOfConcat(a, b');
      assert HexValue(a + b) == HexValue(a + b') * 16 + d;
      assert HexValue(b) == HexValue(b') * 16 + d;
      Regroup(HexValue(a), Pow(16, |b'|), HexValue(b'), d);
    }
  }

  /** The last `width` digits of `toString(16)` are the fixed-width field. */
  lemma {:induction false} ToHexSuffix(n: nat, width: nat)
    requires width <= |ToHex(n)|
    ensures ToHex(n)[|ToHex(n)| - width..] == PadHex(n, width)
  {
    var s := ToHex(n);
    if width > 0 {
      if n < 16 {
        assert n / 16 == 0 && n % 16 == n;
      } else {
        ToHexSuffix(n / 16, width - 1);
        assert s[|s| - width..] == ToHex(n / 16)[|ToHex(n / 16)| - (width - 1)..] + [DigitChar(n % 16)];
      }
    }
  }

  /** A fixed-width field wider than `toString(16)` is that numeral zero-padded. */
  lemma {:induction false} PadHexWide(n: nat, width: nat)
    requires |ToHex(n)| <= width
    ensures PadHex(n, width) == Zeros(width - |ToHex(n)|) + ToHex(n)
  {
    if n < 16 {
      assert PadHex(n, width) == PadHex(0, width - 1) + [DigitChar(n)];
      ZeroPad(width - 1);
    } else {
      var t, d := ToHex(n / 16), [DigitChar(n % 16)];
      assert ToHex(n) == t + d;
      PadHexWide(n / 16, width - 1);
      assert PadHex(n, width) == PadHex(n / 16, width - 1) + d;
      assert Zeros(width - |ToHex(n)|) + ToHex(n) == (Zeros(width - 1 - |t|) + t) + d;
    }
  }

  lemma {:induction false} ZeroPad(width: nat)
    ensures PadHex(0, width) == Zeros(width)
  {
    if width > 0 {
      ZeroPad(width - 1);
    }
  }
}
