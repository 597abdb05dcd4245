/** The `heap_alloc_stats` command of gdb/memory.py: it walks the chunks of a
    glibc main arena from the heap base to the arena's top chunk, counts the
    busy ones, and for each busy chunk with room for at least one word counts
    the first four words of its user data, alone and in composite keys.
    Memory is a function from address to the 64-bit word read there
    (`ReadMemory_Int`); the heap base, the top of the arena and the pid of
    the inferior are inputs; the output is the sequence of `print`
    arguments. */
module GdbHeap {
  import opened Text
  import opened OrderedMaps
  import opened Ranking
  import opened HexAscii

  /** A word read by `struct.unpack("<Q", ...)`. */
  type Word = w: nat | w < 0x1_0000_0000_0000_0000

  /** The inferior's memory, one little-endian word per address. */
  type Memory = nat -> Word

  const WordRange: nat := 0x1_0000_0000_0000_0000

  // ---------------------------------------------------------------------
  // AlignAddress

  /** Python's `a % n`: the remainder takes the sign of `n`. */
  function PyMod(a: int, n: int): (r: int)
    requires n != 0
    ensures n > 0 ==> 0 <= r < n
    ensures n < 0 ==> n < r <= 0
    ensures (a - r) % n == 0
  {
    if n > 0 then
      ModLeavesMultiple(a, n);
      a % n
    else
      ModLeavesMultiple(-a, -n);
      MultipleOfNegated(a + (-a) % (-n), n);
      -((-a) % (-n))
  }

  /** Taking away the remainder leaves a multiple of the divisor. */
  lemma ModLeavesMultiple(a: int, n: int)
    requires n > 0
    ensures (a - a % n) % n == 0
  {
    assert a - a % n == n * (a / n);
    MultipleMod(n, a / n);
  }

  /** What `-n` divides, `n` divides. */
  lemma MultipleOfNegated(x: int, n: int)
    requires n < 0 && (-x) % (-n) == 0
    ensures x % n == 0
  {
    var q := (-x) / (-n);
    assert -x == (-n) * q;
    assert x == n * q;
    MultipleMod(n, q);
  }

  /** A multiple of `n` leaves no remainder. */
  lemma MultipleMod(n: int, q: int)
    requires n != 0
    ensures (n * q) % n == 0
  {
    var x := n * q;
    var d := x / n;
    assert n * (q - d) == x % n;
    if q > d {
      MulAtLeast(if n > 0 then n else -n, q - d);
    } else if q < d {
      MulAtLeast(if n > 0 then n else -n, d - q);
    }
  }

  /** `address + ((align - (address % align)) % align)`; `None` is the
      `ZeroDivisionError` raised for `align == 0`. */
  function AlignAddress(address: int, align: int): Option<int> {
    if align == 0 then None else Some(address + PyMod(align - PyMod(address, align), align))
  }

  /** For a positive alignment the result is the multiple of `align` in
      `[address, address + align)`, `address` itself when already aligned. */
  lemma AlignAddressAligns(address: int, align: int)
    requires align > 0
    ensures AlignAddress(address, align).Some?
    ensures var r := AlignAddress(address, align).value;
      address <= r < address + align && r % align == 0 && (address % align == 0 ==> r == address)
  {
    var q, m := address / align, address % align;
    var r := AlignAddress(address, align).value;
    if m == 0 {
      assert r == address;
    } else {
      DivModUnique(align - m, align, 0, align - m);
      assert r == address + (align - m);
      assert address == align * q + m;
      assert r == align * (q + 1);
      DivModUnique(r, align, q + 1, 0);
    }
  }

  /** And it is the least such multiple. */
  lemma AlignAddressLeast(address: int, align: int, b: int)
    requires align > 0 && address <= b && b % align == 0
    ensures AlignAddress(address, align).Some? && AlignAddress(address, align).value <= b
  {
    AlignAddressAligns(address, align);
    var q, m := address / align, address % align;
    var k := b / align;
    assert b == align * k;
    assert address == align * q + m;
    if m != 0 {
      DivModUnique(align - m, align, 0, align - m);
      assert AlignAddress(address, align).value == align * (q + 1);
      if k <= q {
        MulMonotone(align, k, q);
        assert false;
      }
      MulMonotone(align, q + 1, k);
    }
  }

  lemma MulMonotone(m: int, a: int, b: int)
    requires m > 0 && a <= b
    ensures m * a <= m * b
  {
    assert m * b - m * a == m * (b - a);
  }

  // ---------------------------------------------------------------------
  // Chunk

  /** The chunk size with its three flag bits cleared, `word & ~0x07`. */
  function Size(w: Word): nat {
    w - w % 8
  }

  /** `word & 0x01 == 0x01`: the previous chunk is in use. */
  predicate PBit(w: Word) {
    w % 2 == 1
  }

  /** `word & 0x02 == 0x02`: the chunk was obtained with `mmap`. */
  predicate MBit(w: Word) {
    w / 2 % 2 == 1
  }

  /** `word & 0x04 == 0x04`: the chunk belongs to a non-main arena. */
  predicate ABit(w: Word) {
    w / 4 % 2 == 1
  }

  /** The size word of the chunk at `base`, at `size_addr = base + 8`. */
  function SizeWord(mem: Memory, base: nat): Word {
    mem(base + 8)
  }

  /** `Chunk(base).size` */
  function ChunkSize(mem: Memory, base: nat): nat {
    Size(SizeWord(mem, base))
  }

  /** `Chunk(base).user_size`: zero for a zero size, else the size less two
      words for an mmapped chunk and less one word otherwise. */
  function UserSize(mem: Memory, base: nat): int {
    var size := ChunkSize(mem, base);
    if size == 0 then 0
    else if MBit(SizeWord(mem, base)) then size - 2 * 8
    else size - 8
  }

  /** `Chunk(base).get_next_chunk().base_address` */
  function NextChunk(mem: Memory, base: nat): nat {
    base + ChunkSize(mem, base)
  }

  /** `Chunk(base).busy`: an mmapped chunk is busy; any other is busy when the
      next chunk's P bit says its predecessor is in use. */
  predicate Busy(mem: Memory, base: nat) {
    MBit(SizeWord(mem, base)) || PBit(SizeWord(mem, NextChunk(mem, base)))
  }

  /** `Chunk(base).address`: the user data, two words past the base. */
  function UserAddress(base: nat): nat {
    base + 2 * 8
  }

  /** The size word is the size plus the three flag bits, the size a
      multiple of eight. */
  lemma SizeWordFields(w: Word)
    ensures Size(w) % 8 == 0 && Size(w) <= w < Size(w) + 8
    ensures w == Size(w) + (if ABit(w) then 4 else 0) + (if MBit(w) then 2 else 0) + (if PBit(w) then 1 else 0)
  {
    var low := w % 8;
    DivModUnique(w, 8, w / 8, low);
    DivModUnique(w, 2, 4 * (w / 8) + low / 2, low % 2);
    DivModUnique(w, 4, 2 * (w / 8) + low / 4, low % 4);
    DivModUnique(w / 2, 2, 2 * (w / 8) + low / 4, low / 2 % 2);
    DivModUnique(w / 4, 2, w / 8, low / 4);
  }

  /** The user size is a multiple of eight and, for a chunk with a size, one
      or two words less than that size. */
  lemma UserSizeBounds(mem: Memory, base: nat)
    ensures UserSize(mem, base) % 8 == 0
    ensures ChunkSize(mem, base) > 0 ==> ChunkSize(mem, base) - 16 <= UserSize(mem, base) <= ChunkSize(mem, base) - 8
  {
    var w := SizeWord(mem, base);
    var q := w / 8;
    assert ChunkSize(mem, base) == 8 * q;
    var k: int := if q == 0 then 0 else if MBit(w) then q as int - 2 else q as int - 1;
    assert UserSize(mem, base) == 8 * k;
    DivModUnique(UserSize(mem, base), 8, k, 0);
  }

  // ---------------------------------------------------------------------
  // GetChunks

  /** The chunk bases `GetChunks` yields from `addr`: the chunk at `addr`,
      then, unless its size is zero or the next base reaches `top`, those
      from the next base. */
  function ChunkAddrs(mem: Memory, addr: nat, top: nat): (cs: seq<nat>)
    ensures |cs| > 0 && cs[0] == addr
    decreases top - addr
  {
    var size := ChunkSize(mem, addr);
    if size == 0 || addr + size >= top then [addr]
    else [addr] + ChunkAddrs(mem, addr + size, top)
  }

  /** `GetChunks()` from the heap base to the top of the main arena. */
  method GetChunks(mem: Memory, heapBase: nat, top: nat) returns (chunks: seq<nat>)
    ensures chunks == ChunkAddrs(mem, heapBase, top)
  {
    var addr := heapBase;
    chunks := [];
    while true
      invariant chunks + ChunkAddrs(mem, addr, top) == ChunkAddrs(mem, heapBase, top)
      decreases top - addr
    {
      ghost var before := chunks;
      var here := addr;
      chunks := chunks + [addr];
      var size := ChunkSize(mem, addr);
      if size == 0 || addr + size >= top {
        ChunkAddrsLast(mem, here, top);
        break;
      }
      addr := addr + size;
      ChunkAddrsStep(mem, here, top);
      SnocShift(before, here, ChunkAddrs(mem, addr, top));
    }
  }

  /** `ChunkAddrs` from a chunk that has a successor below `top`. */
  lemma ChunkAddrsStep(mem: Memory, addr: nat, top: nat)
    requires ChunkSize(mem, addr) > 0 && addr + ChunkSize(mem, addr) < top
    ensures ChunkAddrs(mem, addr, top) == [addr] + ChunkAddrs(mem, addr + ChunkSize(mem, addr), top)
  {
  }

  /** `ChunkAddrs` from the last chunk of the walk. */
  lemma ChunkAddrsLast(mem: Memory, addr: nat, top: nat)
    requires ChunkSize(mem, addr) == 0 || addr + ChunkSize(mem, addr) >= top
    ensures ChunkAddrs(mem, addr, top) == [addr]
  {
  }

  lemma SnocShift<T>(a: seq<T>, x: T, r: seq<T>)
    ensures a + [x] + r == a + ([x] + r)
  {
  }

  /** One step of the walk, from the chunk at `a` to the next at `b`. */
  predicate Hop(mem: Memory, a: nat, b: nat, top: nat) {
    ChunkSize(mem, a) > 0 && b == a + ChunkSize(mem, a) && b < top
  }

  /** The walk: it starts at the heap base, each step advances by the size
      of the chunk it leaves, every chunk after the first lies below `top`,
      and it ends on a chunk of size zero or one whose successor reaches
      `top`. */
  lemma {:induction false} ChunkWalk(mem: Memory, addr: nat, top: nat)
    ensures var cs := ChunkAddrs(mem, addr, top);
      && cs[0] == addr
      && (forall i | 0 <= i < |cs| - 1 :: Hop(mem, cs[i], cs[i + 1], top))
      && (ChunkSize(mem, cs[|cs| - 1]) == 0 || cs[|cs| - 1] + ChunkSize(mem, cs[|cs| - 1]) >= top)
    decreases top - addr
  {
    var size := ChunkSize(mem, addr);
    if !(size == 0 || addr + size >= top) {
      ChunkWalk(mem, addr + size, top);
      var cs := ChunkAddrs(mem, addr, top);
      var rest := ChunkAddrs(mem, addr + size, top);
      assert cs == [addr] + rest;
      forall i | 0 <= i < |cs| - 1 ensures Hop(mem, cs[i], cs[i + 1], top) {
        if i > 0 {
          assert cs[i] == rest[i - 1] && cs[i + 1] == rest[i];
        }
      }
    }
  }

  /** Chunks are yielded at strictly increasing addresses, so none twice. */
  lemma ChunkAddrsIncreasing(mem: Memory, addr: nat, top: nat)
    ensures var cs := ChunkAddrs(mem, addr, top);
      forall i, j | 0 <= i < j < |cs| :: cs[i] < cs[j]
  {
    var cs := ChunkAddrs(mem, addr, top);
    ChunkWalk(mem, addr, top);
    forall i, j | 0 <= i < j < |cs| ensures cs[i] < cs[j] {
      IncreasingFrom(cs, i, j, mem, top);
    }
  }

  lemma {:induction false} IncreasingFrom(cs: seq<nat>, i: nat, j: nat, mem: Memory, top: nat)
    requires i < j < |cs|
    requires forall k | 0 <= k < |cs| - 1 :: Hop(mem, cs[k], cs[k + 1], top)
    ensures cs[i] < cs[j]
    decreases j - i
  {
    if j > i + 1 {
      IncreasingFrom(cs, i, j - 1, mem, top);
    }
  }

  // ---------------------------------------------------------------------
  // AddItem, HexIntToAscii, PrintTopStats

  /** `AddItem(d, val)`: a key `d.get` does not find starts at one, at the end
      of the iteration order; any other gets one more. */
  method AddItem<K>(d: MapObject<K, nat>, val: K)
    requires d.contents.Valid()
    modifies d
    ensures d.contents == Increment(old(d.contents), val)
  {
    if !d.contents.Has(val) {
      d.Set(val, 1);
    } else {
      d.Set(val, d.contents.values[val] + 1);
    }
  }

  /** `SplitStringIntoTwixes(s)` from `pos` down: the glyph of the pair ending
      at `pos`, then of the pairs before it, while `pos > 1`. */
  function Twixes(s: string, pos: nat): (r: string)
    requires pos <= |s| && AllHex(s)
    decreases pos
  {
    if pos <= 1 then []
    else [PyGlyph(LastPair(s[pos - 2..pos]))] + Twixes(s, pos - 2)
  }

  /** `HexIntToAscii(v)` */
  function HexIntToAscii(v: string): string
    requires AllHex(v)
  {
    Twixes(v, |v|)
  }

  lemma PrefixHex(s: string, pos: nat)
    requires pos <= |s| && AllHex(s)
    ensures AllHex(s[..pos])
  {
    forall i | 0 <= i < pos ensures IsHexDigit(s[..pos][i]) {
      assert s[..pos][i] == s[i];
    }
  }

  /** The pairs of a prefix, from its end. */
  lemma PairsOfPrefix(s: string, pos: nat)
    requires 2 <= pos <= |s| && AllHex(s)
    ensures AllHex(s[..pos]) && AllHex(s[..pos - 2]) && AllHex(s[pos - 2..pos])
    ensures PairsFromEnd(s[..pos]) == [LastPair(s[pos - 2..pos])] + PairsFromEnd(s[..pos - 2])
  {
    var p := s[..pos];
    PrefixHex(s, pos);
    PrefixHex(s, pos - 2);
    assert p[..|p| - 2] == s[..pos - 2];
    assert p[|p| - 2..] == s[pos - 2..pos];
    assert s[pos - 2..pos][0..] == s[pos - 2..pos];
  }

  lemma {:induction false} TwixesRender(s: string, pos: nat)
    requires pos <= |s| && AllHex(s)
    ensures AllHex(s[..pos]) && Twixes(s, pos) == Render(s[..pos], PyGlyph)
    decreases pos
  {
    PrefixHex(s, pos);
    if pos > 1 {
      TwixesRender(s, pos - 2);
      PairsOfPrefix(s, pos);
      GlyphsAppend([LastPair(s[pos - 2..pos])], PairsFromEnd(s[..pos - 2]), PyGlyph);
    } else {
      assert |s[..pos]| / 2 == 0;
    }
  }

  /** `HexIntToAscii` is the rendering `hex2ascii` performs, with Python's
      glyph for each byte. */
  lemma HexIntToAsciiRenders(v: string)
    requires AllHex(v)
    ensures HexIntToAscii(v) == Render(v, PyGlyph)
  {
    TwixesRender(v, |v|);
    assert v[..|v|] == v;
  }

  /** The two scripts render a key alike except on the bytes equal to 21. */
  lemma RenderingsDiffer(v: string)
    requires AllHex(v)
    ensures |Render(v, JsGlyph)| == |HexIntToAscii(v)| == |v| / 2
    ensures forall i | 0 <= i < |v| / 2 ::
      Render(v, JsGlyph)[i] != HexIntToAscii(v)[i] <==> PairsFromEnd(v)[i] == 21
  {
    HexIntToAsciiRenders(v);
    forall i | 0 <= i < |v| / 2
      ensures Render(v, JsGlyph)[i] != HexIntToAscii(v)[i] <==> PairsFromEnd(v)[i] == 21
    {
      GlyphsDisagreeOnlyAt21(PairsFromEnd(v)[i]);
    }
  }

  /** `"{} - '{}': {}".format(k, HexIntToAscii(k), v)` */
  function StatLine(e: (string, nat)): string
    requires AllHex(e.0)
  {
    e.0 + " - '" + HexIntToAscii(e.0) + "': " + ToDecimal(e.1)
  }

  function StatLines(es: seq<(string, nat)>): (lines: seq<string>)
    requires HexEntries(es)
    ensures |lines| == |es|
  {
    seq(|es|, i requires 0 <= i < |es| => StatLine(es[i]))
  }

  /** The lines `PrintTopStats` prints for `d`: the first eleven entries of
      `sorted(d.items(), key=lambda x: x[1], reverse=True)`. */
  function TopLines(m: OrderedMap<string, nat>): seq<string>
    requires m.Valid() && HexKeys(m)
  {
    TopKeysHex(m);
    StatLines(Top(Rank(Entries(m))))
  }

  /** `PrintTopStats(d)`: prints the entries in the order of the ranking and
      stops after the eleventh (`if i > 10: break`). */
  method PrintTopStats(d: MapObject<string, nat>) returns (log: seq<string>)
    requires d.contents.Valid() && HexKeys(d.contents)
    ensures log == TopLines(d.contents)
  {
    var s := Rank(Entries(d.contents));
    TopKeysHex(d.contents);
    log := [];
    var i := 0;
    while i < |s|
      invariant 0 <= i <= |s| && i <= 10
      invariant log == StatLines(s[..i])
    {
      var k, v := s[i].0, s[i].1;
      log := log + [k + " - '" + HexIntToAscii(k) + "': " + ToDecimal(v)];
      assert s[..i + 1] == s[..i] + [s[i]];
      i := i + 1;
      if i > 10 {
        break;
      }
    }
    assert Top(s) == s[..i];
  }

  // ---------------------------------------------------------------------
  // HeapAllocStats.invoke

  /** The four words read from a chunk's user data; words not read are 0. */
  datatype Sample = Sample(i1: Word, i2: Word, i3: Word, i4: Word)

  /** The words read from a busy chunk: four, three, two or one as the user
      size reaches 32, 24, 16 or 8 bytes; `None` below 8, where the chunk
      is skipped (`continue`). */
  function Reads(mem: Memory, base: nat): Option<Sample> {
    var size := UserSize(mem, base);
    var a := UserAddress(base);
    if size >= 32 then Some(Sample(mem(a), mem(a + 8), mem(a + 16), mem(a + 24)))
    else if size >= 24 then Some(Sample(mem(a), mem(a + 8), mem(a + 16), 0))
    else if size >= 16 then Some(Sample(mem(a), mem(a + 8), 0, 0))
    else if size >= 8 then Some(Sample(mem(a), 0, 0, 0))
    else None
  }

  /** The `n`-th word of a sample, from 0. */
  function WordOf(s: Sample, n: nat): Word
    requires n < 4
  {
    if n == 0 then s.i1 else if n == 1 then s.i2 else if n == 2 then s.i3 else s.i4
  }

  /** A word is read exactly when the user data holds it, from its place in
      the user data; the rest stay zero. */
  lemma ReadsWords(mem: Memory, base: nat)
    ensures Reads(mem, base).None? <==> UserSize(mem, base) < 8
    ensures Reads(mem, base).Some? ==> forall n | 0 <= n < 4 ::
      WordOf(Reads(mem, base).value, n)
        == if UserSize(mem, base) >= 8 * (n + 1) then mem(UserAddress(base) + 8 * n) else 0
  {
  }

  /** The seven dictionaries, by what they count. */
  datatype IntColumn = FirstInt | SecondInt | ThirdInt | FourthInt | FirstDoubleInt | SecondDoubleInt | QuadInt

  /** `"{:016x}".format(i)` */
  function Format(i: Word): string {
    PadHex(i, 16)
  }

  /** The key a sample adds to a dictionary: composites put the higher word
      first. */
  function IntKey(s: Sample, c: IntColumn): string {
    match c
    case FirstInt => Format(s.i1)
    case SecondInt => Format(s.i2)
    case ThirdInt => Format(s.i3)
    case FourthInt => Format(s.i4)
    case FirstDoubleInt => Format(s.i2) + Format(s.i1)
    case SecondDoubleInt => Format(s.i4) + Format(s.i3)
    case QuadInt => Format(s.i4) + Format(s.i3) + Format(s.i2) + Format(s.i1)
  }

  /** The keys the samples add to one dictionary, in order. */
  function IntKeys(ss: seq<Sample>, c: IntColumn): (ks: seq<string>)
    ensures |ks| == |ss|
  {
    if ss == [] then [] else IntKeys(ss[..|ss| - 1], c) + [IntKey(ss[|ss| - 1], c)]
  }

  /** One dictionary after the scan: each key counted once per sample. */
  function IntStats(ss: seq<Sample>, c: IntColumn): (m: OrderedMap<string, nat>)
    ensures m.Valid()
  {
    Tally(IntKeys(ss, c))
  }

  /** The number of busy chunks among `chunks`. */
  function BusyCount(mem: Memory, chunks: seq<nat>): (n: nat)
    ensures n <= |chunks|
  {
    if chunks == [] then 0
    else BusyCount(mem, chunks[..|chunks| - 1]) + (if Busy(mem, chunks[|chunks| - 1]) then 1 else 0)
  }

  /** The words read from the busy chunks with room for a word, in order. */
  function Samples(mem: Memory, chunks: seq<nat>): (ss: seq<Sample>)
    ensures |ss| <= BusyCount(mem, chunks)
  {
    if chunks == [] then []
    else
      var ss := Samples(mem, chunks[..|chunks| - 1]);
      var last := chunks[|chunks| - 1];
      if Busy(mem, last) && Reads(mem, last).Some? then ss + [Reads(mem, last).value] else ss
  }

  function Heading(c: IntColumn): string {
    match c
    case FirstInt => "--- Top by first int ---"
    case SecondInt => "\n--- Top by second int ---\n"
    case ThirdInt => "\n--- Top by third int ---\n"
    case FourthInt => "\n--- Top by fourth int ---\n"
    case FirstDoubleInt => "\n--- Top by first double int ---\n"
    case SecondDoubleInt => "\n--- Top by second double int ---\n"
    case QuadInt => "\n--- Top by quad int ---\n"
  }

  lemma {:induction false} IntKeysAt(ss: seq<Sample>, c: IntColumn, i: nat)
    requires i < |ss|
    ensures IntKeys(ss, c)[i] == IntKey(ss[i], c)
  {
    if i < |ss| - 1 {
      IntKeysAt(ss[..|ss| - 1], c, i);
    }
  }

  /** Every key is a hex numeral. */
  lemma IntKeysHex(ss: seq<Sample>, c: IntColumn)
    ensures HexKeys(IntStats(ss, c))
  {
    var ks := IntKeys(ss, c);
    forall i | 0 <= i < |ks| ensures AllHex(ks[i]) {
      IntKeysAt(ss, c, i);
      var s := ss[i];
      HexValueOfConcat(Format(s.i2), Format(s.i1));
      HexValueOfConcat(Format(s.i4), Format(s.i3));
      HexValueOfConcat(Format(s.i4) + Format(s.i3), Format(s.i2));
      HexValueOfConcat(Format(s.i4) + Format(s.i3) + Format(s.i2), Format(s.i1));
    }
    TallyKeys(ks, AllHex);
  }

  /** A heading and the top entries of one dictionary. */
  function Section(ss: seq<Sample>, c: IntColumn): seq<string> {
    IntKeysHex(ss, c);
    [Heading(c)] + TopLines(IntStats(ss, c))
  }

  /** What `invoke` prints after the scan. */
  function Report(busy: nat, ss: seq<Sample>): seq<string> {
    ["Total " + ToDecimal(busy) + " busy chunks\n"]
    + Section(ss, FirstInt) + Section(ss, SecondInt) + Section(ss, ThirdInt) + Section(ss, FourthInt)
    + Section(ss, FirstDoubleInt) + Section(ss, SecondDoubleInt) + Section(ss, QuadInt)
  }

  /** What `heap_alloc_stats` prints. */
  function HeapAllocStats(pid: nat, mem: Memory, heapBase: nat, top: nat): seq<string> {
    if pid == 0 then ["There is no running program\n"]
    else
      var chunks := ChunkAddrs(mem, heapBase, top);
      Report(BusyCount(mem, chunks), Samples(mem, chunks))
  }

  /** One more chunk of the scan. */
  lemma ChunkStep(mem: Memory, chunks: seq<nat>, k: nat)
    requires k < |chunks|
    ensures BusyCount(mem, chunks[..k + 1])
      == BusyCount(mem, chunks[..k]) + (if Busy(mem, chunks[k]) then 1 else 0)
    ensures Samples(mem, chunks[..k + 1])
      == Samples(mem, chunks[..k])
         + (if Busy(mem, chunks[k]) && Reads(mem, chunks[k]).Some? then [Reads(mem, chunks[k]).value] else [])
  {
    assert chunks[..k + 1][..k] == chunks[..k];
  }

  /** One more sample: each dictionary counts its key once more. */
  lemma IntColumnStep(ss: seq<Sample>, s: Sample, c: IntColumn)
    ensures IntStats(ss + [s], c) == Increment(IntStats(ss, c), IntKey(s, c))
  {
    assert (ss + [s])[..|ss|] == ss;
  }

  /** `heap_alloc_stats`: nothing but a message without a running program;
      otherwise the scan of the chunks and the report. */
  method Invoke(pid: nat, mem: Memory, heapBase: nat, top: nat) returns (log: seq<string>)
    ensures log == HeapAllocStats(pid, mem, heapBase, top)
  {
    if pid == 0 {
      log := ["There is no running program\n"];
      return;
    }
    var int1 := new MapObject<string, nat>();
    var int2 := new MapObject<string, nat>();
    var int3 := new MapObject<string, nat>();
    var int4 := new MapObject<string, nat>();
    var doubleInt1 := new MapObject<string, nat>();
    var doubleInt2 := new MapObject<string, nat>();
    var quadInt := new MapObject<string, nat>();
    var chunks := GetChunks(mem, heapBase, top);
    var busy := CountChunks(mem, chunks, int1, int2, int3, int4, doubleInt1, doubleInt2, quadInt);
    log := PrintReport(Samples(mem, chunks), busy, int1, int2, int3, int4, doubleInt1, doubleInt2, quadInt);
  }

  /** The `for ch in GetChunks()` loop: counts the busy chunks and adds the
      words of each busy chunk with room for one to the seven dictionaries. */
  method CountChunks(mem: Memory, chunks: seq<nat>,
                     int1: MapObject<string, nat>, int2: MapObject<string, nat>,
                     int3: MapObject<string, nat>, int4: MapObject<string, nat>,
                     doubleInt1: MapObject<string, nat>, doubleInt2: MapObject<string, nat>,
                     quadInt: MapObject<string, nat>)
    returns (busy: nat)
    requires int1.contents == Empty() && int2.contents == Empty() && int3.contents == Empty()
    requires int4.contents == Empty() && doubleInt1.contents == Empty()
    requires doubleInt2.contents == Empty() && quadInt.contents == Empty()
    requires int1 != int2 && int1 != int3 && int1 != int4 && int1 != doubleInt1 && int1 != doubleInt2 && int1 != quadInt
    requires int2 != int3 && int2 != int4 && int2 != doubleInt1 && int2 != doubleInt2 && int2 != quadInt
    requires int3 != int4 && int3 != doubleInt1 && int3 != doubleInt2 && int3 != quadInt
    requires int4 != doubleInt1 && int4 != doubleInt2 && int4 != quadInt
    requires doubleInt1 != doubleInt2 && doubleInt1 != quadInt && doubleInt2 != quadInt
    modifies int1, int2, int3, int4, doubleInt1, doubleInt2, quadInt
    ensures busy == BusyCount(mem, chunks)
    ensures int1.contents == IntStats(Samples(mem, chunks), FirstInt)
    ensures int2.contents == IntStats(Samples(mem, chunks), SecondInt)
    ensures int3.contents == IntStats(Samples(mem, chunks), ThirdInt)
    ensures int4.contents == IntStats(Samples(mem, chunks), FourthInt)
    ensures doubleInt1.contents == IntStats(Samples(mem, chunks), FirstDoubleInt)
    ensures doubleInt2.contents == IntStats(Samples(mem, chunks), SecondDoubleInt)
    ensures quadInt.contents == IntStats(Samples(mem, chunks), QuadInt)
  {
    busy := 0;
    var k := 0;
    ghost var ss: seq<Sample> := [];
    while k < |chunks|
      invariant k <= |chunks| && busy == BusyCount(mem, chunks[..k]) && ss == Samples(mem, chunks[..k])
      invariant int1.contents == IntStats(ss, FirstInt)
      invariant int2.contents == IntStats(ss, SecondInt)
      invariant int3.contents == IntStats(ss, ThirdInt)
      invariant int4.contents == IntStats(ss, FourthInt)
      invariant doubleInt1.contents == IntStats(ss, FirstDoubleInt)
      invariant doubleInt2.contents == IntStats(ss, SecondDoubleInt)
      invariant quadInt.contents == IntStats(ss, QuadInt)
    {
      var ch := chunks[k];
      ChunkStep(mem, chunks, k);
      k := k + 1;
      if Busy(mem, ch) {
        busy := busy + 1;
        var words := ReadWords(mem, ch);
        if words.None? {
          continue;
        }
        var s := words.value;
        var k1, k2, k3, k4, d1, d2, q := SampleKeys(s);
        AddWords(k1, k2, k3, k4, int1, int2, int3, int4);
        AddComposites(d1, d2, q, doubleInt1, doubleInt2, quadInt);
        IntColumnStep(ss, s, FirstInt);
        IntColumnStep(ss, s, SecondInt);
        IntColumnStep(ss, s, ThirdInt);
        IntColumnStep(ss, s, FourthInt);
        IntColumnStep(ss, s, FirstDoubleInt);
        IntColumnStep(ss, s, SecondDoubleInt);
        IntColumnStep(ss, s, QuadInt);
        ss := ss + [s];
      }
    }
    assert chunks[..k] == chunks;
  }

  /** The reads of `invoke` for a busy chunk, by user size; `None` where it
      `continue`s. */
  method ReadWords(mem: Memory, ch: nat) returns (words: Option<Sample>)
    ensures words == Reads(mem, ch)
  {
    var size := UserSize(mem, ch);
    var address := UserAddress(ch);
    var i1: Word, i2: Word, i3: Word, i4: Word := 0, 0, 0, 0;
    if size >= 32 {
      i1 := mem(address);
      i2 := mem(address + 8);
      i3 := mem(address + 16);
      i4 := mem(address + 24);
    } else if size >= 24 {
      i1 := mem(address);
      i2 := mem(address + 8);
      i3 := mem(address + 16);
    } else if size >= 16 {
      i1 := mem(address);
      i2 := mem(address + 8);
    } else if size >= 8 {
      i1 := mem(address);
    } else {
      return None;
    }
    words := Some(Sample(i1, i2, i3, i4));
  }

  /** The keys of `invoke`'s seven `AddItem` calls for one sample. */
  method SampleKeys(s: Sample) returns (k1: string, k2: string, k3: string, k4: string,
                                        d1: string, d2: string, q: string)
    ensures k1 == IntKey(s, FirstInt) && k2 == IntKey(s, SecondInt)
    ensures k3 == IntKey(s, ThirdInt) && k4 == IntKey(s, FourthInt)
    ensures d1 == IntKey(s, FirstDoubleInt) && d2 == IntKey(s, SecondDoubleInt)
    ensures q == IntKey(s, QuadInt)
  {
    k1, k2, k3, k4 := Format(s.i1), Format(s.i2), Format(s.i3), Format(s.i4);
    d1, d2 := k2 + k1, k4 + k3;
    q := k4 + k3 + k2 + k1;
  }

  /** The first four `AddItem` calls for one chunk, with the words
      formatted. */
  method AddWords(k1: string, k2: string, k3: string, k4: string,
                  int1: MapObject<string, nat>, int2: MapObject<string, nat>,
                  int3: MapObject<string, nat>, int4: MapObject<string, nat>)
    requires int1.contents.Valid() && int2.contents.Valid() && int3.contents.Valid() && int4.contents.Valid()
    requires int1 != int2 && int1 != int3 && int1 != int4 && int2 != int3 && int2 != int4 && int3 != int4
    modifies int1, int2, int3, int4
    ensures int1.contents == Increment(old(int1.contents), k1)
    ensures int2.contents == Increment(old(int2.contents), k2)
    ensures int3.contents == Increment(old(int3.contents), k3)
    ensures int4.contents == Increment(old(int4.contents), k4)
  {
    AddItem(int1, k1);
    AddItem(int2, k2);
    AddItem(int3, k3);
    AddItem(int4, k4);
  }

  /** The last three `AddItem` calls, with the composite keys. */
  method AddComposites(double1: string, double2: string, quad: string,
                       doubleInt1: MapObject<string, nat>, doubleInt2: MapObject<string, nat>,
                       quadInt: MapObject<string, nat>)
    requires doubleInt1.contents.Valid() && doubleInt2.contents.Valid() && quadInt.contents.Valid()
    requires doubleInt1 != doubleInt2 && doubleInt1 != quadInt && doubleInt2 != quadInt
    modifies doubleInt1, doubleInt2, quadInt
    ensures doubleInt1.contents == Increment(old(doubleInt1.contents), double1)
    ensures doubleInt2.contents == Increment(old(doubleInt2.contents), double2)
    ensures quadInt.contents == Increment(old(quadInt.contents), quad)
  {
    AddItem(doubleInt1, double1);
    AddItem(doubleInt2, double2);
    AddItem(quadInt, quad);
  }

  /** The `print` calls after the loop. */
  method PrintReport(ghost ss: seq<Sample>, busy: nat,
                     int1: MapObject<string, nat>, int2: MapObject<string, nat>,
                     int3: MapObject<string, nat>, int4: MapObject<string, nat>,
                     doubleInt1: MapObject<string, nat>, doubleInt2: MapObject<string, nat>,
                     quadInt: MapObject<string, nat>)
    returns (log: seq<string>)
    requires int1.contents == IntStats(ss, FirstInt)
    requires int2.contents == IntStats(ss, SecondInt)
    requires int3.contents == IntStats(ss, ThirdInt)
    requires int4.contents == IntStats(ss, FourthInt)
    requires doubleInt1.contents == IntStats(ss, FirstDoubleInt)
    requires doubleInt2.contents == IntStats(ss, SecondDoubleInt)
    requires quadInt.contents == IntStats(ss, QuadInt)
    ensures log == Report(busy, ss)
  {
    log := ["Total " + ToDecimal(busy) + " busy chunks\n"];
    var section := PrintSection(ss, FirstInt, int1);
    log := log + section;
    section := PrintSection(ss, SecondInt, int2);
    log := log + section;
    section := PrintSection(ss, ThirdInt, int3);
    log := log + section;
    section := PrintSection(ss, FourthInt, int4);
    log := log + section;
    section := PrintSection(ss, FirstDoubleInt, doubleInt1);
    log := log + section;
    section := PrintSection(ss, SecondDoubleInt, doubleInt2);
    log := log + section;
    section := PrintSection(ss, QuadInt, quadInt);
    log := log + section;
  }

  /** One heading followed by the top entries of its dictionary. */
  method PrintSection(ghost ss: seq<Sample>, c: IntColumn, d: MapObject<string, nat>)
    returns (lines: seq<string>)
    requires d.contents == IntStats(ss, c)
    ensures lines == Section(ss, c)
  {
    IntKeysHex(ss, c);
    var top := PrintTopStats(d);
    lines := [Heading(c)] + top;
  }

  // ---------------------------------------------------------------------
  // What the report says

  /** The number of samples whose key in dictionary `c` is `k`. */
  function Occurrences(ss: seq<Sample>, c: IntColumn, k: string): nat {
    if ss == [] then 0
    else Occurrences(ss[..|ss| - 1], c, k) + (if IntKey(ss[|ss| - 1], c) == k then 1 else 0)
  }

  /** A dictionary's count of a key is the number of sampled chunks with that
      key. */
  lemma {:induction false} IntCount(ss: seq<Sample>, c: IntColumn, k: string)
    ensures Count(IntStats(ss, c), k) == Occurrences(ss, c, k)
    ensures IntStats(ss, c).Has(k) <==> Occurrences(ss, c, k) > 0
  {
    if ss != [] {
      var init := ss[..|ss| - 1];
      var ks := IntKeys(ss, c);
      assert ks[..|ks| - 1] == IntKeys(init, c);
      IntCount(init, c, k);
    }
  }

  /** Each sampled chunk adds exactly one count to every dictionary, and no
      more chunks are sampled than are busy or walked. */
  lemma IntTotal(mem: Memory, chunks: seq<nat>, c: IntColumn)
    ensures Total(IntStats(Samples(mem, chunks), c)) == |Samples(mem, chunks)|
    ensures |Samples(mem, chunks)| <= BusyCount(mem, chunks) <= |chunks|
  {
    TallyTotal(IntKeys(Samples(mem, chunks), c));
  }

  /** `"{:016x}"` prints a word in full: sixteen digits that read back as the
      word. */
  lemma FormatValue(i: Word)
    ensures |Format(i)| == 16 && AllHex(Format(i)) && HexValue(Format(i)) == i
  {
    PadHexValue(i, 16);
    WordDigits();
    DivModUnique(i, WordRange, 0, i);
  }

  /** Rendered, a formatted word shows its bytes in the order they lie in
      memory. */
  lemma FormatBytes(i: Word)
    ensures PairsFromEnd(Format(i)) == LittleEndian(i, 8)
  {
    FormatValue(i);
    PairsAreLittleEndian(Format(i));
  }

  /** Sixteen hex digits span a word. */
  lemma WordDigits()
    ensures Pow(16, 16) == WordRange
  {
    assert Pow(16, 2) == 0x100;
    assert Pow(16, 4) == 16 * (16 * Pow(16, 2));
    assert Pow(16, 6) == 16 * (16 * Pow(16, 4));
    assert Pow(16, 8) == 16 * (16 * Pow(16, 6));
    assert Pow(16, 10) == 16 * (16 * Pow(16, 8));
    assert Pow(16, 12) == 16 * (16 * Pow(16, 10));
    assert Pow(16, 14) == 16 * (16 * Pow(16, 12));
    assert Pow(16, 16) == 16 * (16 * Pow(16, 14));
  }

  /** Digits followed by sixteen more read as the first part times 2^64
      plus the second. */
  lemma WordsValue(a: string, b: string)
    requires AllHex(a) && AllHex(b) && |b| == 16
    ensures AllHex(a + b) && HexValue(a + b) == HexValue(a) * WordRange + HexValue(b)
  {
    HexValueOfConcat(a, b);
    WordDigits();
  }

  /** A composite key is its words high first: as a number it is the higher
      word times 2^64 plus the lower. */
  lemma DoubleKeyValue(low: Word, high: Word)
    ensures AllHex(Format(high) + Format(low))
    ensures HexValue(Format(high) + Format(low)) == high * WordRange + low
  {
    FormatValue(low);
    FormatValue(high);
    WordsValue(Format(high), Format(low));
  }

  /** Rendered, a composite key shows the lower word's bytes first, as the
      two words lie in memory. */
  lemma DoubleKeyBytes(low: Word, high: Word)
    ensures AllHex(Format(high) + Format(low))
    ensures PairsFromEnd(Format(high) + Format(low)) == LittleEndian(low, 8) + LittleEndian(high, 8)
  {
    FormatBytes(low);
    FormatBytes(high);
    PairsSplit(Format(high), Format(low));
  }

  /** The quad key reads as the four words, highest first. */
  lemma QuadKeyValue(s: Sample)
    ensures AllHex(IntKey(s, QuadInt))
    ensures HexValue(IntKey(s, QuadInt))
      == ((s.i4 * WordRange + s.i3) * WordRange + s.i2) * WordRange + s.i1
  {
    var hi := Format(s.i4) + Format(s.i3);
    DoubleKeyValue(s.i3, s.i4);
    FormatValue(s.i2);
    FormatValue(s.i1);
    WordsValue(hi, Format(s.i2));
    WordsValue(hi + Format(s.i2), Format(s.i1));
  }

  /** Rendered, the quad key shows the 32 bytes of user data in memory
      order. */
  lemma QuadKeyBytes(s: Sample)
    ensures AllHex(IntKey(s, QuadInt))
    ensures PairsFromEnd(IntKey(s, QuadInt))
      == LittleEndian(s.i1, 8) + LittleEndian(s.i2, 8) + LittleEndian(s.i3, 8) + LittleEndian(s.i4, 8)
  {
    var hi := Format(s.i4) + Format(s.i3);
    DoubleKeyBytes(s.i3, s.i4);
    FormatBytes(s.i2);
    FormatBytes(s.i1);
    PairsSplit(hi, Format(s.i2));
    PairsSplit(hi + Format(s.i2), Format(s.i1));
  }
}
