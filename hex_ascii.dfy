/** Rendering a hex key as text, as `hex2ascii` (memory.js) and
    `HexIntToAscii` (gdb/memory.py) do: the key is cut into two-digit pairs
    read from the END of the string towards its start, each pair is one byte,
    and each byte becomes one printable glyph. For a key of even length the
    bytes come out least significant first, which is the order a
    little-endian machine stores the number in memory. */
module HexAscii {
  import opened Text

  type Byte = b: nat | b < 256

  /** The value of the last two digits of `s`. */
  function LastPair(s: string): (b: Byte)
    requires |s| >= 2 && AllHex(s)
  {
    DigitValue(s[|s| - 2]) * 16 + DigitValue(s[|s| - 1])
  }

  /** `LastPair` reads the last two digits as a hex number. */
  lemma LastPairValue(s: string)
    requires |s| >= 2 && AllHex(s)
    ensures HexValue(s[|s| - 2..]) == LastPair(s)
  {
    var p := s[|s| - 2..];
    assert p[..1][..0] == [];
    assert HexValue(p[..1]) == DigitValue(p[0]);
  }

  /** The bytes of `s`, taking pairs from the end; a leading digit left over
      from an odd length is not read. */
  function PairsFromEnd(s: string): (bs: seq<Byte>)
    requires AllHex(s)
    ensures 2 * |bs| <= |s| <= 2 * |bs| + 1
    decreases |s|
  {
    if |s| < 2 then [] else [LastPair(s)] + PairsFromEnd(s[..|s| - 2])
  }

  /** The glyphs of a byte sequence, one per byte. */
  function Glyphs(bs: seq<Byte>, glyph: Byte -> char): (r: string)
    ensures |r| == |bs|
  {
    seq(|bs|, i requires 0 <= i < |bs| => glyph(bs[i]))
  }

  /** The text a hex key renders to under a choice of glyph. */
  function Render(s: string, glyph: Byte -> char): string
    requires AllHex(s)
  {
    Glyphs(PairsFromEnd(s), glyph)
  }

  /** `String.fromCharCode(code)` unless `code < 21`, which prints `.`. */
  function JsGlyph(b: Byte): char {
    if b < 21 then '.' else b as char
  }

  /** `chr(i) if i > 21 else '.'` */
  function PyGlyph(b: Byte): char {
    if b > 21 then b as char else '.'
  }

  /** The bytes of `n` modulo `256^k`, least significant first. */
  function LittleEndian(n: nat, k: nat): (bs: seq<Byte>)
    ensures |bs| == k
  {
    if k == 0 then [] else [n % 256] + LittleEndian(n / 256, k - 1)
  }

  // ---------------------------------------------------------------------

  /** The two renderings differ on exactly one byte value: 21 (0x15), which
      JavaScript prints as a control character and Python as `.`. */
  lemma GlyphsDisagreeOnlyAt21(b: Byte)
    ensures JsGlyph(b) != PyGlyph(b) <==> b == 21
  {
  }

  /** The `k`-th glyph comes from the `k`-th pair counted from the end. */
  lemma {:induction false} PairsAt(s: string, k: nat)
    requires AllHex(s) && 2 * k + 2 <= |s|
    ensures AllHex(s[..|s| - 2 * k])
    ensures PairsFromEnd(s)[k] == LastPair(s[..|s| - 2 * k])
    decreases k
  {
    if k == 0 {
      assert s[..|s|] == s;
    } else {
      var t := s[..|s| - 2];
      assert AllHex(t);
      assert PairsFromEnd(s)[k] == PairsFromEnd(t)[k - 1];
      PairsAt(t, k - 1);
      assert t[..|t| - 2 * (k - 1)] == s[..|s| - 2 * k];
    }
  }

  /** An odd-length key renders as if its leading digit were absent. */
  lemma {:induction false} PairsOddLength(s: string)
    requires AllHex(s) && |s| % 2 == 1
    ensures AllHex(s[1..]) && PairsFromEnd(s) == PairsFromEnd(s[1..])
    decreases |s|
  {
    if |s| >= 2 {
      var t, u := s[..|s| - 2], s[1..];
      assert AllHex(t) && |t| % 2 == 1 by {
        ParityLess2(|s|);
      }
      PairsOddLength(t);
      assert u[..|u| - 2] == t[1..];
      assert u[|u| - 2] == s[|s| - 2] && u[|u| - 1] == s[|s| - 1];
      assert LastPair(u) == LastPair(s);
      assert PairsFromEnd(u) == [LastPair(u)] + PairsFromEnd(t[1..]);
    }
  }

  lemma ParityLess2(n: nat)
    requires n >= 2
    ensures (n - 2) % 2 == n % 2
  {
  }

  lemma AllHexConcat(a: string, b: string)
    requires AllHex(a) && AllHex(b)
    ensures AllHex(a + b)
  {
    forall i | 0 <= i < |a + b| ensures IsHexDigit((a + b)[i]) {
      if i >= |a| { assert (a + b)[i] == b[i - |a|]; }
    }
  }

  /** The last pair of `a + b` is that of `b`. */
  lemma LastPairOfConcat(a: string, b: string)
    requires AllHex(a + b) && AllHex(b) && |b| >= 2
    ensures LastPair(a + b) == LastPair(b)
  {
    var s := a + b;
    assert s[|s| - 2] == b[|b| - 2] && s[|s| - 1] == b[|b| - 1];
  }

  /** One step of `PairsFromEnd` on `a + b` with `b` at least a pair long. */
  lemma PairsStep(a: string, b: string)
    requires AllHex(a) && AllHex(b) && |b| >= 2
    ensures AllHex(a + b) && AllHex(a + b[..|b| - 2])
    ensures PairsFromEnd(a + b) == [LastPair(b)] + PairsFromEnd(a + b[..|b| - 2])
  {
    var s := a + b;
    AllHexConcat(a, b);
    LastPairOfConcat(a, b);
    assert s[..|s| - 2] == a + b[..|b| - 2];
  }

  /** Reading pairs off the end of `s` first reads those of an even-length
      tail `b`, then those of the rest. */
  lemma {:induction false} PairsSplit(a: string, b: string)
    requires AllHex(a) && AllHex(b) && |b| % 2 == 0
    ensures AllHex(a + b)
    ensures PairsFromEnd(a + b) == PairsFromEnd(b) + PairsFromEnd(a)
    decreases |b|
  {
    AllHexConcat(a, b);
    if b == [] {
      assert a + b == a;
    } else {
      var b' := b[..|b| - 2];
      PairsStep(a, b);
      assert AllHex(b') && |b'| % 2 == 0 by {
        ParityLess2(|b|);
      }
      PairsSplit(a, b');
      assert PairsFromEnd(b) == [LastPair(b)] + PairsFromEnd(b');
    }
  }

  lemma HexValueOfPair(s: string)
    requires |s| >= 2 && AllHex(s)
    ensures AllHex(s[..|s| - 2])
    ensures HexValue(s) == HexValue(s[..|s| - 2]) * 256 + LastPair(s)
  {
    HexValueOfConcat(s[..|s| - 2], s[|s| - 2..]);
    LastPairValue(s);
    assert s[..|s| - 2] + s[|s| - 2..] == s;
    assert Pow(16, 2) == 256;
  }

  /** An even-length key renders the bytes of its value least significant
      first: the bytes in the order a little-endian word lies in memory. */
  lemma {:induction false} PairsAreLittleEndian(s: string)
    requires AllHex(s) && |s| % 2 == 0
    ensures PairsFromEnd(s) == LittleEndian(HexValue(s), |s| / 2)
    decreases |s|
  {
    if |s| >= 2 {
      var t := s[..|s| - 2];
      PairsAreLittleEndian(t);
      HexValueOfPair(s);
      DivModUnique(HexValue(s), 256, HexValue(t), LastPair(s));
    }
  }

  /** A single pair is one byte. */
  lemma PairsOfPair(p: string)
    requires |p| == 2 && AllHex(p)
    ensures PairsFromEnd(p) == [LastPair(p)] && LastPair(p) == HexValue(p)
  {
    assert p[..0] == [] && p[0..] == p;
    LastPairValue(p);
  }

  lemma GlyphsSnoc(bs: seq<Byte>, b: Byte, glyph: Byte -> char)
    ensures Glyphs(bs + [b], glyph) == Glyphs(bs, glyph) + [glyph(b)]
  {
  }

  lemma GlyphsAppend(a: seq<Byte>, b: seq<Byte>, glyph: Byte -> char)
    ensures Glyphs(a + b, glyph) == Glyphs(a, glyph) + Glyphs(b, glyph)
  {
    assert forall i | 0 <= i < |a + b| :: Glyphs(a + b, glyph)[i] == (Glyphs(a, glyph) + Glyphs(b, glyph))[i];
  }
}
