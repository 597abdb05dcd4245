/** `!fix_stack` (noexcept.js, `__FixStack`): repair a call stack that the
    debugger printed wrongly after an exception left a function that must not
    throw.

    The `kb` listing is split, in one pass, into a trusted prefix (logged as
    it is), the dispatcher part, and a pool of candidate frames indexed by
    frame pointer. Then the frame-pointer chain is followed from the last
    trusted frame through `dds <ptr> L2` dumps until it reaches a pointer of
    the pool, whose frames are then logged from that one on.

    The debugger is an input: `kb` is the listing as a sequence of lines,
    `dds` gives the two-line dump for a pointer, and the log is the sequence
    of lines handed to `debugLog` (each call appends its text and "\n"; the
    model keeps the text). */
module FixStack {
  import opened Text
  import opened OrderedMaps

  const Warning := "Following frames may be wrong."
  const DispatcherMarker := "ntdll!ExecuteHandler2+"
  /** The walk stops before reading memory at this pointer. */
  const StackBase := "00000000"

  const NothingToFix := "Error: nothing to fix"
  const NothingToParse := "Error: nothing to parse"
  const CannotFindNextFrame := "Error: cannot find next frame"
  const CannotFindNextSymbol := "Error: cannot find next symbol"

  /** A line of the `kb` listing, split into the seven groups of `lineRE`. */
  datatype Frame = Frame(index: string, framePointer: string, returnAddress: string,
                         arg0: string, arg1: string, arg2: string, symbol: string)

  // ---------------------------------------------------------------------
  // The three line grammars

  /** `\s+([0-9A-Fa-f]+)`: the hex field after the whitespace, and what
      follows the field. */
  function HexField(s: string): Option<(string, string)> {
    var w := SpaceLen(s);
    if w == 0 then None
    else
      var t := s[w..];
      var h := HexLen(t);
      if h == 0 then None else Some((t[..h], t[h..]))
  }

  /** Non-empty runs of hex digits. */
  predicate HexList(fs: seq<string>) {
    forall i | 0 <= i < |fs| :: HexWord(fs[i])
  }

  /** A non-empty run of hex digits. */
  predicate HexWord(f: string) {
    f != [] && AllHex(f)
  }

  /** `count` consecutive `\s+([0-9A-Fa-f]+)` fields. */
  function HexFields(s: string, count: nat): (r: Option<(seq<string>, string)>)
    ensures r.Some? ==> |r.value.0| == count
  {
    if count == 0 then Some(([], s))
    else
      match HexField(s)
      case None => None
      case Some((f, rest)) =>
        match HexFields(rest, count - 1)
        case None => None
        case Some((fs, tail)) => Some(([f] + fs, tail))
  }

  /** Every field read is a non-empty run of hex digits. */
  lemma {:induction false} HexFieldsHex(s: string, count: nat)
    requires HexFields(s, count).Some?
    ensures HexList(HexFields(s, count).value.0)
  {
    if count > 0 {
      var r := HexField(s).value;
      var fs := HexFields(r.1, count - 1).value.0;
      HexFieldHex(s);
      HexFieldsHex(r.1, count - 1);
      HexListCons(r.0, fs);
      assert HexFields(s, count).value.0 == [r.0] + fs;
    }
  }

  lemma HexFieldHex(s: string)
    requires HexField(s).Some?
    ensures HexWord(HexField(s).value.0)
  {
    HexLenHex(s[SpaceLen(s)..]);
  }

  lemma HexListCons(f: string, fs: seq<string>)
    requires HexWord(f) && HexList(fs)
    ensures HexList([f] + fs)
  {
    forall i | 0 <= i < |[f] + fs| ensures HexWord(([f] + fs)[i]) {
      if i > 0 {
        assert ([f] + fs)[i] == fs[i - 1];
      }
    }
  }

  /** `lineRE`, the frame grammar:
      `^([0-9A-Fa-f]{1,4})\s+([0-9A-Fa-f]+)` four more `\s+([0-9A-Fa-f]+)`,
      then `\s+(.+)$`. Each hex group is a whole run of hex digits; the symbol
      is what follows the last run of whitespace, or, when the line ends in
      two or more whitespace characters, the last of them. */
  function ParseFrame(line: string): Option<Frame> {
    var n := HexLen(line);
    if !(1 <= n <= 4) then None
    else
      match HexFields(line[n..], 5)
      case None => None
      case Some((fs, rest)) =>
        match FrameSymbol(rest)
        case None => None
        case Some(symbol) => Some(Frame(line[..n], fs[0], fs[1], fs[2], fs[3], fs[4], symbol))
  }

  /** The `\s+(.+)$` that ends `lineRE`: at least one whitespace character,
      then a non-empty rest of the line. */
  function FrameSymbol(rest: string): (r: Option<string>)
    ensures r.Some? ==> r.value != [] && NoLineTerminator(r.value)
  {
    var w := SpaceLen(rest);
    var symbol := if w < |rest| then rest[w..] else if w >= 2 then rest[w - 1..] else [];
    if w == 0 || symbol == [] || !NoLineTerminator(symbol) then None else Some(symbol)
  }

  /** `ebpRE` = `^([0-9A-Fa-f]+)\s+([0-9A-Fa-f]+)` on the first `dds` line:
      its second group, the saved frame pointer. */
  function NextFramePointer(line: string): Option<string> {
    var n := HexLen(line);
    if n == 0 then None
    else
      match HexField(line[n..])
      case None => None
      case Some((p, _)) => Some(p)
  }

  /** `symRE` = `^([0-9A-Fa-f]+)\s+([0-9A-Fa-f]+)\s*(.*)$` on the second
      `dds` line: the return address and the symbol text after it. */
  function NextSymbol(line: string): Option<(string, string)> {
    var n := HexLen(line);
    if n == 0 then None
    else
      match HexField(line[n..])
      case None => None
      case Some((address, rest)) =>
        var caller := rest[SpaceLen(rest)..];
        if NoLineTerminator(caller) then Some((address, caller)) else None
  }

  /** A frame as the debugger prints it, one space between fields. */
  function FrameText(f: Frame): string {
    f.index + FieldsText([f.framePointer, f.returnAddress, f.arg0, f.arg1, f.arg2], " " + f.symbol)
  }

  function FieldsText(fs: seq<string>, tail: string): string {
    if fs == [] then tail else " " + fs[0] + FieldsText(fs[1..], tail)
  }

  /** The frames `lineRE` can read back: hex fields, a 1-4 digit index, a
      symbol that is one line and does not start with whitespace. */
  predicate WellFormed(f: Frame) {
    && 1 <= |f.index| <= 4 && AllHex(f.index)
    && HexList([f.framePointer, f.returnAddress, f.arg0, f.arg1, f.arg2])
    && f.symbol != [] && !IsSpace(f.symbol[0]) && NoLineTerminator(f.symbol)
  }

  lemma HexFieldOf(f: string, rest: string)
    requires f != [] && AllHex(f)
    requires rest == [] || !IsHexDigit(rest[0])
    ensures HexField(" " + f + rest) == Some((f, rest))
  {
    var s := " " + f + rest;
    assert s == [' '] + (f + rest);
    assert f[0] == (f + rest)[0];
    SpaceLenOfConcat([' '], f + rest);
    assert s[1..] == f + rest;
    HexLenOfConcat(f, rest);
    assert (f + rest)[..|f|] == f && (f + rest)[|f|..] == rest;
  }

  lemma HexFieldsCons(f: string, rest: string, n: nat, fs: seq<string>, tail: string)
    requires f != [] && AllHex(f)
    requires rest == [] || !IsHexDigit(rest[0])
    requires HexFields(rest, n) == Some((fs, tail))
    ensures HexFields(" " + f + rest, n + 1) == Some(([f] + fs, tail))
  {
    HexFieldOf(f, rest);
  }

  /** Fields printed one space apart are read back by as many
      `\s+([0-9A-Fa-f]+)` groups. */
  lemma {:induction false} HexFieldsOf(fs: seq<string>, tail: string)
    requires HexList(fs)
    requires tail == [] || !IsHexDigit(tail[0])
    ensures HexFields(FieldsText(fs, tail), |fs|) == Some((fs, tail))
  {
    if fs != [] {
      var rest := FieldsText(fs[1..], tail);
      assert HexList(fs[1..]) by {
        forall i | 0 <= i < |fs[1..]| ensures HexWord(fs[1..][i]) {
          assert fs[1..][i] == fs[i + 1];
        }
      }
      HexFieldsOf(fs[1..], tail);
      assert rest == [] || !IsHexDigit(rest[0]);
      assert HexWord(fs[0]);
      HexFieldsCons(fs[0], rest, |fs| - 1, fs[1..], tail);
      assert [fs[0]] + fs[1..] == fs;
    }
  }

  /** `lineRE` accepts `line` with these groups. */
  lemma ParseFrameOf(line: string, n: nat, fs: seq<string>, rest: string)
    requires n == HexLen(line) && 1 <= n <= 4
    requires HexFields(line[n..], 5) == Some((fs, rest))
    requires 1 == SpaceLen(rest) < |rest| && NoLineTerminator(rest[1..])
    ensures ParseFrame(line) == Some(Frame(line[..n], fs[0], fs[1], fs[2], fs[3], fs[4], rest[1..]))
  {
  }

  /** What `lineRE` accepts: an index of one to four hex digits, five
      non-empty hex fields, and a one-line symbol that is not empty. The
      symbol may be a single whitespace character, when the line ends in
      two or more of them. */
  lemma ParsedFrame(line: string, f: Frame)
    requires ParseFrame(line) == Some(f)
    ensures && 1 <= |f.index| <= 4 && AllHex(f.index)
      && HexList([f.framePointer, f.returnAddress, f.arg0, f.arg1, f.arg2])
      && f.symbol != [] && NoLineTerminator(f.symbol)
  {
    var n := HexLen(line);
    ParseFrameParts(line, f);
    HexLenHex(line);
    HexFieldsHex(line[n..], 5);
  }

  /** Where each part of a parsed frame comes from. */
  lemma ParseFrameParts(line: string, f: Frame)
    requires ParseFrame(line) == Some(f)
    ensures 1 <= HexLen(line) <= 4 && f.index == line[..HexLen(line)]
    ensures HexFields(line[HexLen(line)..], 5).Some?
    ensures [f.framePointer, f.returnAddress, f.arg0, f.arg1, f.arg2]
      == HexFields(line[HexLen(line)..], 5).value.0
    ensures FrameSymbol(HexFields(line[HexLen(line)..], 5).value.1) == Some(f.symbol)
  {
    var n := HexLen(line);
    var fs := HexFields(line[n..], 5).value.0;
    assert [fs[0], fs[1], fs[2], fs[3], fs[4]] == fs;
  }

  /** Reading a printed frame with `lineRE` gives the frame back. */
  lemma ParseFrameText(f: Frame)
    requires WellFormed(f)
    ensures ParseFrame(FrameText(f)) == Some(f)
  {
    var fs := [f.framePointer, f.returnAddress, f.arg0, f.arg1, f.arg2];
    var tail := " " + f.symbol;
    var body := FieldsText(fs, tail);
    assert body == [' '] + (f.framePointer + FieldsText(fs[1..], tail));
    HexLenOfConcat(f.index, body);
    var line := FrameText(f);
    assert line == f.index + body;
    assert line[..|f.index|] == f.index && line[|f.index|..] == body;
    HexFieldsOf(fs, tail);
    assert tail == [' '] + f.symbol;
    SpaceLenOfConcat([' '], f.symbol);
    assert tail[1..] == f.symbol;
    ParseFrameOf(line, |f.index|, fs, tail);
  }

  /** `dds` prints the saved frame pointer as the second field of its first
      line; `ebpRE` reads it back. */
  lemma NextFramePointerOf(address: string, value: string, rest: string)
    requires address != [] && AllHex(address) && value != [] && AllHex(value)
    requires rest == [] || !IsHexDigit(rest[0])
    ensures NextFramePointer(address + " " + value + rest) == Some(value)
  {
    var tail := " " + value + rest;
    assert address + " " + value + rest == address + tail;
    assert tail == [' '] + (value + rest);
    HexLenOfConcat(address, tail);
    assert (address + tail)[|address|..] == tail;
    HexFieldOf(value, rest);
  }

  /** `symRE` reads the return address and the symbol back from the second
      `dds` line. */
  lemma NextSymbolOf(address: string, value: string, symbol: string)
    requires address != [] && AllHex(address) && value != [] && AllHex(value)
    requires symbol != [] && !IsSpace(symbol[0]) && NoLineTerminator(symbol)
    ensures NextSymbol(address + " " + value + " " + symbol) == Some((value, symbol))
  {
    var rest := " " + symbol;
    var tail := " " + value + rest;
    var line := address + " " + value + " " + symbol;
    assert line == address + tail;
    assert HexLen(line) == |address| && line[|address|..] == tail by {
      assert tail == [' '] + (value + rest);
      HexLenOfConcat(address, tail);
      assert (address + tail)[|address|..] == tail;
    }
    assert HexField(tail) == Some((value, rest)) by {
      HexFieldOf(value, rest);
    }
    assert rest[SpaceLen(rest)..] == symbol by {
      assert rest == [' '] + symbol;
      SpaceLenOfConcat([' '], symbol);
      assert rest[1..] == symbol;
    }
    NextSymbolParts(line, |address|, value, rest);
  }

  /** `symRE` on a line whose parts are read so. */
  lemma NextSymbolParts(line: string, n: nat, address: string, rest: string)
    requires n == HexLen(line) && n > 0
    requires HexField(line[n..]) == Some((address, rest))
    requires NoLineTerminator(rest[SpaceLen(rest)..])
    ensures NextSymbol(line) == Some((address, rest[SpaceLen(rest)..]))
  {
  }

  // ---------------------------------------------------------------------
  // Segmentation of the `kb` listing

  /** The three modes of the loop over the listing (0, 1 and 2 in the script). */
  datatype Mode = ScanPrefix | ScanWarning | FillCandidates

  /** The variables of that loop. */
  datatype Segmentation = Segmentation(mode: Mode, warningFound: bool, prevEbp: string,
                                       log: seq<string>, candidates: OrderedMap<string, string>)

  /** Symbols that are never a stitch point: unsymbolised addresses and the
      exception-dispatch routines. */
  predicate Skipped(symbol: string) {
    || StartsWith(symbol, "0x")
    || StartsWith(symbol, "ntdll!ExecuteHandler2+")
    || StartsWith(symbol, "ntdll!ExecuteHandler+")
    || StartsWith(symbol, "ntdll!KiUserExceptionDispatcher+")
    || StartsWith(symbol, "KERNELBASE!RaiseException+")
  }

  /** What mode 2 does with one line. */
  function AddCandidate(m: OrderedMap<string, string>, line: string): (r: OrderedMap<string, string>)
    requires m.Valid()
    ensures r.Valid()
  {
    match ParseFrame(line)
    case Some(f) => if Skipped(f.symbol) then m else m.Set(f.framePointer, line)
    case None => m
  }

  /** One iteration of the loop over the listing. */
  function Step(s: Segmentation, line: string): (r: Segmentation)
    requires s.candidates.Valid()
    ensures r.candidates.Valid()
  {
    match s.mode
    case ScanPrefix =>
      if !s.warningFound && Contains(line, Warning) then s.(warningFound := true)
      else if Contains(line, DispatcherMarker) then
        s.(mode := if s.warningFound then FillCandidates else ScanWarning)
      else
        s.(log := s.log + [line],
           prevEbp := match ParseFrame(line) case Some(f) => f.framePointer case None => s.prevEbp)
    case ScanWarning =>
      if Contains(line, Warning) then s.(warningFound := true, mode := FillCandidates) else s
    case FillCandidates =>
      s.(candidates := AddCandidate(s.candidates, line))
  }

  function Start(): (s: Segmentation)
    ensures s.candidates.Valid()
  {
    Segmentation(ScanPrefix, false, "", [], Empty())
  }

  /** The loop variables after the first `n` lines. */
  function SegmentPrefix(lines: seq<string>, n: nat): (s: Segmentation)
    requires n <= |lines|
    ensures s.candidates.Valid()
  {
    if n == 0 then Start() else Step(SegmentPrefix(lines, n - 1), lines[n - 1])
  }

  function Segment(lines: seq<string>): (s: Segmentation)
    ensures s.candidates.Valid()
  {
    SegmentPrefix(lines, |lines|)
  }

  /** The loop over the `kb` listing. */
  method SegmentListing(kb: seq<string>)
    returns (mode: Mode, warningFound: bool, prevEbp: string, log: seq<string>,
             linesMap: MapObject<string, string>)
    ensures fresh(linesMap)
    ensures Segmentation(mode, warningFound, prevEbp, log, linesMap.contents) == Segment(kb)
  {
    mode, warningFound, prevEbp, log := ScanPrefix, false, "", [];
    linesMap := new MapObject();
    for i := 0 to |kb|
      invariant Segmentation(mode, warningFound, prevEbp, log, linesMap.contents) == SegmentPrefix(kb, i)
    {
      var line := kb[i];
      ghost var before := Segmentation(mode, warningFound, prevEbp, log, linesMap.contents);
      match mode {
        case ScanPrefix =>
          mode, warningFound, prevEbp, log := PrefixLine(line, warningFound, prevEbp, log, linesMap.contents);
        case ScanWarning =>
          if Contains(line, Warning) {
            warningFound := true;
            mode := FillCandidates;
          }
        case FillCandidates =>
          CandidateLine(linesMap, line);
      }
      assert Segmentation(mode, warningFound, prevEbp, log, linesMap.contents) == Step(before, line);
    }
  }

  /** Mode 0 of the loop on one line. */
  method PrefixLine(line: string, warningFound: bool, prevEbp: string, log: seq<string>,
                    ghost candidates: OrderedMap<string, string>)
    returns (mode': Mode, warningFound': bool, prevEbp': string, log': seq<string>)
    requires candidates.Valid()
    ensures Segmentation(mode', warningFound', prevEbp', log', candidates)
            == Step(Segmentation(ScanPrefix, warningFound, prevEbp, log, candidates), line)
  {
    mode', warningFound', prevEbp', log' := ScanPrefix, warningFound, prevEbp, log;
    if !warningFound && Contains(line, Warning) {
      warningFound' := true;
    } else if Contains(line, DispatcherMarker) {
      mode' := if warningFound then FillCandidates else ScanWarning;
    } else {
      log' := log + [line];
      var parsed := ParseFrame(line);
      if parsed.Some? {
        prevEbp' := parsed.value.framePointer;
      }
    }
  }

  /** Mode 2 of the loop on one line. */
  method CandidateLine(linesMap: MapObject<string, string>, line: string)
    requires linesMap.contents.Valid()
    modifies linesMap
    ensures linesMap.contents == AddCandidate(old(linesMap.contents), line)
  {
    var parsed := ParseFrame(line);
    if parsed.Some? && !Skipped(parsed.value.symbol) {
      linesMap.Set(parsed.value.framePointer, line);
    }
  }

  // ---------------------------------------------------------------------
  // What the segmentation computes, stated by positions in the listing

  /** The index of the first line holding the warning, `|lines|` if none. */
  function FirstWarning(lines: seq<string>): (w: nat)
    ensures w <= |lines|
    ensures w < |lines| ==> Contains(lines[w], Warning)
    ensures forall j | 0 <= j < w :: !Contains(lines[j], Warning)
  {
    if lines == [] then 0
    else if Contains(lines[0], Warning) then 0
    else 1 + FirstWarning(lines[1..])
  }

  /** The first line at or after `i`, other than line `w`, that holds the
      dispatcher marker; `|lines|` if none. */
  function MarkerFrom(lines: seq<string>, w: nat, i: nat): (e: nat)
    requires i <= |lines|
    ensures i <= e <= |lines|
    ensures e < |lines| ==> e != w && Contains(lines[e], DispatcherMarker)
    ensures forall j | i <= j < e :: j == w || !Contains(lines[j], DispatcherMarker)
    decreases |lines| - i
  {
    if i == |lines| then i
    else if i != w && Contains(lines[i], DispatcherMarker) then i
    else MarkerFrom(lines, w, i + 1)
  }

  /** Where mode 0 ends: the first marker line that is not the first warning
      line (that one is taken as the warning). */
  function PrefixEnd(lines: seq<string>): nat {
    MarkerFrom(lines, FirstWarning(lines), 0)
  }

  /** The first `k` lines without line `w`. */
  function Without(lines: seq<string>, k: nat, w: nat): seq<string>
    requires k <= |lines|
  {
    if w < k then lines[..w] + lines[w + 1..k] else lines[..k]
  }

  /** The trusted prefix: every line before the end of mode 0 except the
      first warning line. */
  function TrustedPrefix(lines: seq<string>): seq<string> {
    Without(lines, PrefixEnd(lines), FirstWarning(lines))
  }

  /** The index of the first candidate line: mode 2 starts after the marker
      when the warning came first, after the warning otherwise. */
  function CandidateStart(lines: seq<string>): (c: nat)
    ensures c <= |lines|
  {
    var w, e := FirstWarning(lines), PrefixEnd(lines);
    if e == |lines| || w == |lines| then |lines|
    else if w < e then e + 1
    else w + 1
  }

  /** The candidate map built from lines `lo` to `hi`. */
  function Collect(lines: seq<string>, lo: nat, hi: nat): (m: OrderedMap<string, string>)
    requires lo <= hi <= |lines|
    ensures m.Valid()
    decreases hi - lo
  {
    if hi == lo then Empty() else AddCandidate(Collect(lines, lo, hi - 1), lines[hi - 1])
  }

  function ModeAfter(n: nat, w: nat, e: nat): Mode {
    if n <= e then ScanPrefix
    else if w < e then FillCandidates
    else if n <= w then ScanWarning
    else FillCandidates
  }

  function Rank(m: Mode): nat {
    match m
    case ScanPrefix => 0
    case ScanWarning => 1
    case FillCandidates => 2
  }

  lemma WithoutStep(lines: seq<string>, n: nat, w: nat)
    requires n < |lines| && n != w
    ensures Without(lines, n + 1, w) == Without(lines, n, w) + [lines[n]]
  {
    if w < n {
      assert lines[w + 1..n + 1] == lines[w + 1..n] + [lines[n]];
    } else {
      assert lines[..n + 1] == lines[..n] + [lines[n]];
    }
  }

  lemma WithoutSkip(lines: seq<string>, w: nat)
    requires w < |lines|
    ensures Without(lines, w + 1, w) == Without(lines, w, w)
  {
    assert lines[w + 1..w + 1] == [];
  }

  /** `s` holds the loop variables after `n` lines, stated by the positions
      of the first warning and of the end of mode 0. */
  ghost predicate StateAt(lines: seq<string>, n: nat, s: Segmentation)
    requires n <= |lines|
  {
    var w, e, c := FirstWarning(lines), PrefixEnd(lines), CandidateStart(lines);
    && s.warningFound == (w < n)
    && s.mode == ModeAfter(n, w, e)
    && s.log == Without(lines, if n <= e then n else e, w)
    && s.candidates == (if n <= c then Empty() else Collect(lines, c, n))
  }

  lemma StateStep(lines: seq<string>, k: nat, s: Segmentation)
    requires k < |lines| && s.candidates.Valid() && StateAt(lines, k, s)
    ensures StateAt(lines, k + 1, Step(s, lines[k]))
  {
    var w, e, c := FirstWarning(lines), PrefixEnd(lines), CandidateStart(lines);
    var line := lines[k];
    if k < e {
      if k == w {
        WithoutSkip(lines, w);
      } else {
        assert !Contains(line, DispatcherMarker);
        assert !(!s.warningFound && Contains(line, Warning));
        WithoutStep(lines, k, w);
      }
      assert c >= e;
    } else if k == e {
      assert e != w;
      assert !(!s.warningFound && Contains(line, Warning));
    } else if w >= e && k < w {
      assert !Contains(line, Warning);
    }
  }

  /** The loop variables after `n` lines. */
  lemma {:induction false} SegmentState(lines: seq<string>, n: nat)
    requires n <= |lines|
    ensures StateAt(lines, n, SegmentPrefix(lines, n))
  {
    if n > 0 {
      SegmentState(lines, n - 1);
      StateStep(lines, n - 1, SegmentPrefix(lines, n - 1));
    }
  }

  /** The frame pointer of the last line of `log` that `lineRE` accepts,
      empty when there is none. */
  function LastFramePointer(log: seq<string>): string {
    if log == [] then ""
    else
      match ParseFrame(log[|log| - 1])
      case Some(f) => f.framePointer
      case None => LastFramePointer(log[..|log| - 1])
  }

  /** A step either leaves the log and `prevEBP` alone, or logs the line and
      takes its frame pointer when `lineRE` accepts it. */
  lemma StepLog(s: Segmentation, line: string)
    requires s.candidates.Valid()
    ensures Step(s, line).log == s.log || Step(s, line).log == s.log + [line]
    ensures Step(s, line).log == s.log ==> Step(s, line).prevEbp == s.prevEbp
    ensures Step(s, line).log == s.log + [line] ==>
      Step(s, line).prevEbp == match ParseFrame(line) case Some(f) => f.framePointer case None => s.prevEbp
  {
    assert |s.log + [line]| == |s.log| + 1;
  }

  lemma LastFramePointerSnoc(log: seq<string>, line: string)
    ensures LastFramePointer(log + [line])
            == match ParseFrame(line) case Some(f) => f.framePointer case None => LastFramePointer(log)
  {
    assert (log + [line])[..|log|] == log;
  }

  /** No frame pointer is empty, so `prevEBP` stays empty exactly when no
      logged line is a frame line. */
  lemma {:induction false} NoFramePointer(log: seq<string>)
    ensures LastFramePointer(log) == [] <==> forall i | 0 <= i < |log| :: ParseFrame(log[i]).None?
  {
    if log != [] {
      var init, last := log[..|log| - 1], log[|log| - 1];
      NoFramePointer(init);
      if ParseFrame(last).Some? {
        ParsedFrame(last, ParseFrame(last).value);
        assert [ParseFrame(last).value.framePointer][0] != [];
      } else {
        assert forall i | 0 <= i < |init| :: init[i] == log[i];
      }
    }
  }

  /** One step keeps `prevEBP` the frame pointer of the last frame line logged. */
  lemma PrevEbpStep(s: Segmentation, line: string)
    requires s.candidates.Valid() && s.prevEbp == LastFramePointer(s.log)
    ensures Step(s, line).prevEbp == LastFramePointer(Step(s, line).log)
  {
    StepLog(s, line);
    LastFramePointerSnoc(s.log, line);
  }

  /** `prevEBP` is always the frame pointer of the last frame line logged. */
  lemma {:induction false} PrevEbpTracksLog(lines: seq<string>, n: nat)
    requires n <= |lines|
    ensures SegmentPrefix(lines, n).prevEbp == LastFramePointer(SegmentPrefix(lines, n).log)
  {
    if n > 0 {
      var s := SegmentPrefix(lines, n - 1);
      PrevEbpTracksLog(lines, n - 1);
      PrevEbpStep(s, lines[n - 1]);
      assert SegmentPrefix(lines, n) == Step(s, lines[n - 1]);
    }
  }

  /** After the pass: the log is the trusted prefix, the walk starts from the
      frame pointer of its last frame line, and the warning counts as found
      exactly when some line holds it. */
  lemma SegmentResult(lines: seq<string>)
    ensures Segment(lines).log == TrustedPrefix(lines)
    ensures Segment(lines).prevEbp == LastFramePointer(TrustedPrefix(lines))
    ensures Segment(lines).warningFound <==> exists i | 0 <= i < |lines| :: Contains(lines[i], Warning)
    ensures Segment(lines).candidates == Collect(lines, CandidateStart(lines), |lines|)
  {
    SegmentState(lines, |lines|);
    PrevEbpTracksLog(lines, |lines|);
    var c := CandidateStart(lines);
    if c == |lines| {
      assert Collect(lines, c, |lines|) == Empty();
    }
  }

  /** Modes only move forward (0 to 1, 0 to 2, 1 to 2), and mode 0 goes
      straight to mode 2 only once the warning was seen. */
  lemma ModesMoveForward(lines: seq<string>, n: nat, m: nat)
    requires n <= m <= |lines|
    ensures Rank(SegmentPrefix(lines, n).mode) <= Rank(SegmentPrefix(lines, m).mode)
    ensures m == n + 1 && SegmentPrefix(lines, n).mode == ScanPrefix && SegmentPrefix(lines, m).mode == FillCandidates
            ==> SegmentPrefix(lines, n).warningFound
  {
    SegmentState(lines, n);
    SegmentState(lines, m);
  }

  /** `line` is a frame line kept in mode 2 under the key `k`: `lineRE`
      accepts it, `k` is its frame pointer and its symbol is not skipped. */
  predicate KeptFrame(k: string, line: string) {
    KeptPointer(line) == Some(k)
  }

  /** The frame pointer mode 2 stores `line` under, if it stores it. */
  function KeptPointer(line: string): Option<string> {
    match ParseFrame(line)
    case Some(f) => if Skipped(f.symbol) then None else Some(f.framePointer)
    case None => None
  }

  /** Mode 2 stores a line only under its own frame pointer, and only when
      it is a kept frame line. */
  lemma AddCandidateKept(m: OrderedMap<string, string>, line: string, k: string)
    requires m.Valid() && k in AddCandidate(m, line).values
    requires !(k in m.values && AddCandidate(m, line).values[k] == m.values[k])
    ensures AddCandidate(m, line).values[k] == line && KeptFrame(k, line)
  {
    var p := ParseFrame(line);
    if p.Some? && !Skipped(p.value.symbol) {
      var f := p.value;
      assert AddCandidate(m, line).values == m.values[f.framePointer := line];
      assert k == f.framePointer;
    }
  }

  /** Mode 2 on one line is one step of filling a map keyed by
      `KeptPointer`. */
  lemma AddCandidateSetSome(m: OrderedMap<string, string>, line: string)
    requires m.Valid()
    ensures AddCandidate(m, line) == SetSome(m, KeptPointer(line), line)
  {
  }

  /** Adding line `hi - 1` to the candidate map is one filling step. */
  lemma CollectStep(lines: seq<string>, lo: nat, hi: nat)
    requires lo < hi <= |lines|
    ensures Collect(lines, lo, hi) == SetSome(Collect(lines, lo, hi - 1), KeptPointer(lines[hi - 1]), lines[hi - 1])
  {
    AddCandidateSetSome(Collect(lines, lo, hi - 1), lines[hi - 1]);
  }

  /** The candidate map built from lines `lo` to `hi` is those lines, each
      set under its kept frame pointer. */
  /** Step `n` of filling the candidate map from line `lo` on. */
  lemma CollectFillStep(lines: seq<string>, lo: nat, fills: seq<OrderedMap<string, string>>, n: nat)
    requires lo + n < |lines| && n + 1 < |fills|
    requires fills[n] == Collect(lines, lo, lo + n) && fills[n + 1] == Collect(lines, lo, lo + n + 1)
    ensures fills[n].Valid() && fills[n + 1] == SetSome(fills[n], KeptPointer(lines[lo + n]), lines[lo + n])
  {
    CollectStep(lines, lo, lo + n + 1);
  }

  /** The maps mode 2 holds after each line from `lo` to `hi`, each one
      filling step after the one before. */
  lemma CollectFills(lines: seq<string>, lo: nat, hi: nat) returns (fills: seq<OrderedMap<string, string>>)
    requires lo <= hi <= |lines|
    ensures |fills| == hi - lo + 1 && fills[0] == Empty() && fills[hi - lo] == Collect(lines, lo, hi)
    ensures forall n | 0 <= n < hi - lo ::
      fills[n].Valid() && fills[n + 1] == SetSome(fills[n], KeptPointer(lines[lo + n]), lines[lo + n])
  {
    fills := seq(hi - lo + 1, n requires 0 <= n <= hi - lo => Collect(lines, lo, lo + n));
    forall n | 0 <= n < hi - lo
      ensures fills[n].Valid() && fills[n + 1] == SetSome(fills[n], KeptPointer(lines[lo + n]), lines[lo + n])
    {
      CollectFillStep(lines, lo, fills, n);
    }
    assert fills[0] == Collect(lines, lo, lo);
    assert fills[hi - lo] == Collect(lines, lo, lo + (hi - lo));
  }

  lemma CollectSetEach(lines: seq<string>, lo: nat, hi: nat)
    requires lo <= hi <= |lines|
    ensures Collect(lines, lo, hi) == SetEach(KeptPointer, lines[lo..hi])
  {
    var vs := lines[lo..hi];
    var fills := CollectFills(lines, lo, hi);
    forall n | 0 <= n < |vs|
      ensures fills[n].Valid() && fills[n + 1] == SetSome(fills[n], KeptPointer(vs[n]), vs[n])
    {
      assert vs[n] == lines[lo + n];
    }
    SetEachFromSteps(KeptPointer, vs, fills);
  }

  /** The lines mode 2 reads: those after the warning and the marker. */
  function CandidateLines(lines: seq<string>): seq<string> {
    lines[CandidateStart(lines)..]
  }

  /** The candidate map is the lines mode 2 reads, each set under its kept
      frame pointer. */
  lemma CandidatesFilled(lines: seq<string>)
    ensures Segment(lines).candidates == SetEach(KeptPointer, CandidateLines(lines))
  {
    SegmentResult(lines);
    CollectSetEach(lines, CandidateStart(lines), |lines|);
    assert lines[CandidateStart(lines)..|lines|] == CandidateLines(lines);
  }

  /** No unsymbolised or dispatcher frame is ever a candidate: each candidate
      is a line mode 2 reads, stored under its own frame pointer. */
  lemma CandidateValue(lines: seq<string>, k: string)
    requires Segment(lines).candidates.Has(k)
    ensures Segment(lines).candidates.values[k] in CandidateLines(lines)
    ensures KeptFrame(k, Segment(lines).candidates.values[k])
  {
    CandidatesFilled(lines);
    SetEachValueKeyed(KeptPointer, CandidateLines(lines), k);
  }

  /** A frame pointer is a candidate key exactly when a line mode 2 reads is
      a frame kept under it. */
  lemma CandidateKey(lines: seq<string>, k: string)
    ensures Segment(lines).candidates.Has(k) <==>
      exists i | 0 <= i < |CandidateLines(lines)| :: KeptFrame(k, CandidateLines(lines)[i])
  {
    CandidatesFilled(lines);
    SetEachKeys(KeptPointer, CandidateLines(lines), k);
  }

  /** A candidate holds the last line kept under its frame pointer: a later
      line with the same pointer replaces an earlier one. */
  lemma CandidateLatest(lines: seq<string>, k: string, i: nat)
    requires i < |CandidateLines(lines)| && KeptFrame(k, CandidateLines(lines)[i])
    requires forall j | i < j < |CandidateLines(lines)| :: !KeptFrame(k, CandidateLines(lines)[j])
    ensures Segment(lines).candidates.Has(k) && Segment(lines).candidates.values[k] == CandidateLines(lines)[i]
  {
    CandidatesFilled(lines);
    SetEachLatest(KeptPointer, CandidateLines(lines), k, i);
  }

  /** The keys of the candidate map are in the order of the first kept line
      of each frame pointer: a pointer seen again keeps its first place. */
  lemma CandidateOrder(lines: seq<string>, k1: string, i1: nat, k2: string, i2: nat)
    requires i1 < |CandidateLines(lines)| && KeptFrame(k1, CandidateLines(lines)[i1])
    requires forall j | 0 <= j < i1 :: !KeptFrame(k1, CandidateLines(lines)[j])
    requires i2 < |CandidateLines(lines)| && KeptFrame(k2, CandidateLines(lines)[i2])
    requires forall j | 0 <= j < i2 :: !KeptFrame(k2, CandidateLines(lines)[j])
    ensures Segment(lines).candidates.Has(k1) && Segment(lines).candidates.Has(k2)
    ensures Segment(lines).candidates.IndexOf(k1) < Segment(lines).candidates.IndexOf(k2) <==> i1 < i2
  {
    CandidatesFilled(lines);
    SetEachOrder(KeptPointer, CandidateLines(lines), k1, i1, k2, i2);
  }

  // ---------------------------------------------------------------------
  // The frame-pointer walk

  /** Why the walk stopped. */
  datatype WalkEnd =
    | ReachedStackBase        // the pointer is "00000000"
    | ShortDump               // `dds` printed fewer than two lines
    | NoNextFrame             // `ebpRE` refused the first line
    | ZeroFramePointer        // the saved frame pointer is all zeros
    | Spliced(at: string)     // the saved frame pointer is a candidate
    | NoNextSymbol            // `symRE` refused the second line
    | OutOfFuel               // the model's step bound ran out

  datatype WalkResult = WalkResult(log: seq<string>, end: WalkEnd)

  /** The line the walk prints for a frame it recovered. */
  function SynthLine(ebp: string, address: string, caller: string): string {
    "-- " + ebp + " " + address + " 00000000 00000000 00000000 " + caller
  }

  predicate AllZero(s: string) {
    forall i | 0 <= i < |s| :: s[i] == '0'
  }

  /** The two `dds` line grammars the walk applies: `ebpRE`, giving the saved
      frame pointer, and `symRE`, giving the return address and the caller. */
  datatype Matchers = Matchers(framePointer: string -> Option<string>,
                               symbol: string -> Option<(string, string)>)

  /** The grammars of the script. */
  function DdsMatchers(): Matchers {
    Matchers(NextFramePointer, NextSymbol)
  }

  /** What one iteration of the walk loop decides. */
  datatype Outcome =
    | Stop(lines: seq<string>, end: WalkEnd)
    | Continue(lines: seq<string>, ebp: string, address: string, caller: string)

  /** The recovered frame printed at the head of an iteration: none in the
      first iteration, whose caller is still empty. */
  function Synth(ebp: string, address: string, caller: string): seq<string> {
    if |caller| > 0 then [SynthLine(ebp, address, caller)] else []
  }

  /** One iteration of the walk loop from the pointer `ebp`, with the return
      address and caller found by the previous iteration. */
  function WalkStep(ebp: string, address: string, caller: string, m: OrderedMap<string, string>,
                    dds: string -> seq<string>, re: Matchers): Outcome
    requires m.Valid()
  {
    var synth := Synth(ebp, address, caller);
    var output := dds(ebp);
    if |output| < 2 then Stop(synth + [NothingToParse], ShortDump)
    else
      match re.framePointer(output[0])
      case None => Stop(synth + [CannotFindNextFrame], NoNextFrame)
      case Some(newEbp) =>
        if AllZero(newEbp) then Stop(synth, ZeroFramePointer)
        else if m.Has(newEbp) then Stop(synth + m.ValuesFrom(newEbp), Spliced(newEbp))
        else
          match re.symbol(output[1])
          case None => Stop(synth + [CannotFindNextSymbol], NoNextSymbol)
          case Some((a, c)) => Continue(synth, newEbp, a, c)
  }

  /** The walk loop around a loop body `step`, for at most `fuel`
      iterations, appending what it logs to `log`: it stops before reading
      memory at the stack base, and otherwise does what the body decides. */
  function Run(log: seq<string>, ebp: string, address: string, caller: string,
               step: (string, string, string) -> Outcome, fuel: nat): WalkResult
    decreases fuel
  {
    if ebp == StackBase then WalkResult(log, ReachedStackBase)
    else if fuel == 0 then WalkResult(log, OutOfFuel)
    else
      match step(ebp, address, caller)
      case Stop(lines, end) => WalkResult(log + lines, end)
      case Continue(lines, e, a, c) => Run(log + lines, e, a, c, step, fuel - 1)
  }

  /** The loop body of the script, over the candidate map `m`. */
  function Body(m: OrderedMap<string, string>, dds: string -> seq<string>, re: Matchers)
    : (step: (string, string, string) -> Outcome)
    requires m.Valid()
    ensures forall ebp, address, caller :: step(ebp, address, caller) == WalkStep(ebp, address, caller, m, dds, re)
  {
    (ebp, address, caller) => WalkStep(ebp, address, caller, m, dds, re)
  }

  /** The log and the end of the walk started at `start`. */
  function WalkFrom(start: string, m: OrderedMap<string, string>, dds: string -> seq<string>,
                    re: Matchers, fuel: nat): WalkResult
    requires m.Valid()
  {
    Run([], start, "", "", Body(m, dds, re), fuel)
  }

  lemma RunContinue(log: seq<string>, ebp: string, address: string, caller: string,
                    step: (string, string, string) -> Outcome, fuel: nat,
                    lines: seq<string>, e: string, a: string, c: string)
    requires ebp != StackBase && fuel > 0
    requires step(ebp, address, caller) == Continue(lines, e, a, c)
    ensures Run(log, ebp, address, caller, step, fuel) == Run(log + lines, e, a, c, step, fuel - 1)
  {
  }
  /** The stack base is all zeros, so the all-zero test catches it. */
  lemma NotStackBase(e: string)
    requires !AllZero(e)
    ensures e != StackBase
  {
    assert AllZero(StackBase);
  }

  /** The `for (let letter of newEbp)` loop. */
  method IsAllZero(s: string) returns (zero: bool)
    ensures zero <==> AllZero(s)
  {
    zero := true;
    for i := 0 to |s|
      invariant zero <==> AllZero(s[..i])
    {
      if s[i] != '0' {
        zero := false;
        break;
      }
    }
    assert zero ==> s[..|s|] == s;
  }

  /** The loop over `linesMap.entries()` after a hit: print from the entry
      whose key is `key` to the last one. */
  method PrintFrom(m: OrderedMap<string, string>, key: string) returns (out: seq<string>)
    requires m.Valid() && m.Has(key)
    ensures out == m.ValuesFrom(key)
  {
    out := PrintEntriesFrom(m.keys, m.Values(), key, m.IndexOf(key));
  }

  /** The same loop over the entries `(keys[j], vals[j])`, where `at` is the
      first entry whose key is `key`. */
  method PrintEntriesFrom(keys: seq<string>, vals: seq<string>, key: string, ghost at: nat)
    returns (out: seq<string>)
    requires |vals| == |keys| && at < |keys| && keys[at] == key
    requires forall j | 0 <= j < at :: keys[j] != key
    ensures out == vals[at..]
  {
    var printing := false;
    out := [];
    for j := 0 to |keys|
      invariant printing <==> at < j
      invariant out == if printing then vals[at..j] else []
    {
      var item := (keys[j], vals[j]);
      if printing || item.0 == key {
        assert vals[at..j + 1] == vals[at..j] + [item.1];
        printing := true;
        out := out + [item.1];
      }
    }
    assert vals[at..] == vals[at..|keys|];
  }

  /** The body of the walk loop: what it logs, and either why the walk stops
      or the pointer, return address and caller of the next iteration. */
  method WalkIteration(ebp: string, nextAddress: string, nextCaller: string,
                       m: OrderedMap<string, string>, dds: string -> seq<string>, re: Matchers)
    returns (lines: seq<string>, stop: bool, end: WalkEnd, newEbp: string, address: string, caller: string)
    requires m.Valid()
    ensures stop ==> WalkStep(ebp, nextAddress, nextCaller, m, dds, re) == Stop(lines, end)
    ensures !stop ==> WalkStep(ebp, nextAddress, nextCaller, m, dds, re) == Continue(lines, newEbp, address, caller)
  {
    lines, stop, end, newEbp, address, caller := [], true, ReachedStackBase, ebp, nextAddress, nextCaller;
    if |nextCaller| > 0 {
      lines := lines + [SynthLine(ebp, nextAddress, nextCaller)];
    }
    assert lines == Synth(ebp, nextAddress, nextCaller);
    var output := dds(ebp);
    if |output| < 2 {
      lines := lines + [NothingToParse];
      end := ShortDump;
      return;
    }
    var parsedEbp := re.framePointer(output[0]);
    if parsedEbp.None? {
      lines := lines + [CannotFindNextFrame];
      end := NoNextFrame;
      return;
    }
    newEbp := parsedEbp.value;
    var zero := IsAllZero(newEbp);
    if zero {
      end := ZeroFramePointer;
      return;
    }
    if m.Has(newEbp) {
      var tail := PrintFrom(m, newEbp);
      lines := lines + tail;
      end := Spliced(newEbp);
      return;
    }
    var parsedSym := re.symbol(output[1]);
    if parsedSym.None? {
      lines := lines + [CannotFindNextSymbol];
      end := NoNextSymbol;
      return;
    }
    stop := false;
    address, caller := parsedSym.value.0, parsedSym.value.1;
  }

  /** The walk loop of `__FixStack`, bounded by `fuel` iterations. */
  method Walk(start: string, linesMap: MapObject<string, string>, dds: string -> seq<string>,
              re: Matchers, fuel: nat)
    returns (log: seq<string>, end: WalkEnd)
    requires linesMap.contents.Valid()
    ensures WalkResult(log, end) == WalkFrom(start, linesMap.contents, dds, re, fuel)
  {
    var m := linesMap.contents;
    ghost var step := Body(m, dds, re);
    var prevEbp, nextAddress, nextCaller := start, "", "";
    var steps := fuel;
    log, end := [], ReachedStackBase;
    ghost var total := Run(log, prevEbp, nextAddress, nextCaller, step, steps);
    assert Run(log, prevEbp, nextAddress, nextCaller, step, steps) == total;
    while prevEbp != StackBase
      invariant Run(log, prevEbp, nextAddress, nextCaller, step, steps) == total
      decreases steps
    {
      if steps == 0 {
        end := OutOfFuel;
        break;
      }
      var lines, stop, e, newEbp, address, caller := WalkIteration(prevEbp, nextAddress, nextCaller, m, dds, re);
      ghost var before := log;
      log := log + lines;
      if stop {
        end := e;
        break;
      }
      RunContinue(before, prevEbp, nextAddress, nextCaller, step, steps, lines, newEbp, address, caller);
      prevEbp, nextAddress, nextCaller := newEbp, address, caller;
      steps := steps - 1;
      assert Run(log, prevEbp, nextAddress, nextCaller, step, steps) == total;
    }
  }

  // ---------------------------------------------------------------------
  // What the walk logs

  /** A log line the walk printed for a frame it recovered. */
  predicate RecoveredLine(line: string) {
    StartsWith(line, "-- ")
  }

  /** What the walk logs after the frames it recovered, by why it stopped. */
  function EndLines(end: WalkEnd, m: OrderedMap<string, string>): seq<string>
    requires m.Valid()
  {
    match end
    case ShortDump => [NothingToParse]
    case NoNextFrame => [CannotFindNextFrame]
    case NoNextSymbol => [CannotFindNextSymbol]
    case Spliced(k) => if m.Has(k) then m.ValuesFrom(k) else []
    case _ => []
  }

  /** The walk appends to its log and never rewrites it. */
  lemma {:induction false} RunLog(log: seq<string>, ebp: string, address: string, caller: string,
                                  step: (string, string, string) -> Outcome, fuel: nat)
    ensures Run(log, ebp, address, caller, step, fuel)
            == WalkResult(log + Run([], ebp, address, caller, step, fuel).log,
                          Run([], ebp, address, caller, step, fuel).end)
    decreases fuel
  {
    if ebp != StackBase && fuel > 0 {
      match step(ebp, address, caller)
      case Stop(lines, end) =>
      case Continue(lines, e, a, c) =>
        RunLog(log + lines, e, a, c, step, fuel - 1);
        RunLog(lines, e, a, c, step, fuel - 1);
        assert [] + lines == lines;
    }
  }

  /** What one iteration logs, by how it ends: at most the recovered frame,
      then, when it stops, the lines `ends` gives for its end; it splices
      only at a candidate of `m` whose pointer is not all zeros, and goes on
      only to a pointer that is not all zeros. */
  predicate Shaped(o: Outcome, ebp: string, address: string, caller: string,
                   ends: WalkEnd -> seq<string>, m: OrderedMap<string, string>)
  {
    match o
    case Stop(lines, end) =>
      && lines == Synth(ebp, address, caller) + ends(end)
      && (end.Spliced? ==> m.Has(end.at) && !AllZero(end.at))
      && end != ReachedStackBase && end != OutOfFuel
    case Continue(lines, e, _, _) =>
      lines == Synth(ebp, address, caller) && !AllZero(e)
  }

  /** `EndLines` over the candidate map `m`. */
  function Ends(m: OrderedMap<string, string>): (ends: WalkEnd -> seq<string>)
    requires m.Valid()
    ensures forall end :: ends(end) == EndLines(end, m)
  {
    end => EndLines(end, m)
  }

  lemma WalkStepShaped(ebp: string, address: string, caller: string,
                       m: OrderedMap<string, string>, dds: string -> seq<string>, re: Matchers)
    requires m.Valid()
    ensures Shaped(WalkStep(ebp, address, caller, m, dds, re), ebp, address, caller, Ends(m), m)
  {
    var o := WalkStep(ebp, address, caller, m, dds, re);
    if o == Stop(Synth(ebp, address, caller), ZeroFramePointer) {
      assert o.lines == Synth(ebp, address, caller) + [];
    }
  }

  /** Every iteration of the script's loop body is shaped so. */
  lemma BodyShaped(m: OrderedMap<string, string>, dds: string -> seq<string>, re: Matchers)
    requires m.Valid()
    ensures forall ebp, address, caller :: Shaped(Body(m, dds, re)(ebp, address, caller), ebp, address, caller, Ends(m), m)
  {
    forall ebp, address, caller
      ensures Shaped(Body(m, dds, re)(ebp, address, caller), ebp, address, caller, Ends(m), m)
    {
      WalkStepShaped(ebp, address, caller, m, dds, re);
    }
  }

  /** What `ends` gives for an iteration that stopped; nothing when the loop
      condition or the fuel stopped the walk. */
  function After(ends: WalkEnd -> seq<string>, end: WalkEnd): seq<string> {
    if end == ReachedStackBase || end == OutOfFuel then [] else ends(end)
  }

  /** Every line is a recovered frame. */
  predicate AllRecovered(lines: seq<string>) {
    forall i | 0 <= i < |lines| :: RecoveredLine(lines[i])
  }

  lemma SynthRecovered(ebp: string, address: string, caller: string)
    ensures |Synth(ebp, address, caller)| <= 1 && AllRecovered(Synth(ebp, address, caller))
  {
  }

  /** An iteration that goes on puts its lines in front of the rest of the
      walk. */
  lemma RunStepContinue(ebp: string, address: string, caller: string,
                        step: (string, string, string) -> Outcome, fuel: nat)
    requires ebp != StackBase && fuel > 0 && step(ebp, address, caller).Continue?
    ensures var o := step(ebp, address, caller);
      var rest := Run([], o.ebp, o.address, o.caller, step, fuel - 1);
      Run([], ebp, address, caller, step, fuel) == WalkResult(o.lines + rest.log, rest.end)
  {
    var o := step(ebp, address, caller);
    RunContinue([], ebp, address, caller, step, fuel, o.lines, o.ebp, o.address, o.caller);
    assert [] + o.lines == o.lines;
    RunLog(o.lines, o.ebp, o.address, o.caller, step, fuel - 1);
  }

  /** `log` is at most `n` recovered frames followed by `tail`. */
  predicate RecoveredThen(log: seq<string>, n: nat, tail: seq<string>)
    decreases |log|
  {
    log == tail || (n > 0 && log != [] && RecoveredLine(log[0]) && RecoveredThen(log[1..], n - 1, tail))
  }

  lemma {:induction false} RecoveredThenMore(log: seq<string>, n: nat, tail: seq<string>)
    requires RecoveredThen(log, n, tail)
    ensures RecoveredThen(log, n + 1, tail)
    decreases |log|
  {
    if log != tail {
      RecoveredThenMore(log[1..], n - 1, tail);
    }
  }

  lemma RecoveredCons(synth: seq<string>, log: seq<string>, n: nat, tail: seq<string>)
    requires |synth| <= 1 && AllRecovered(synth) && RecoveredThen(log, n, tail)
    ensures RecoveredThen(synth + log, n + 1, tail)
  {
    if synth == [] {
      assert synth + log == log;
      RecoveredThenMore(log, n, tail);
    } else {
      assert (synth + log)[1..] == log;
    }
  }

  /** The log of a walk whose iterations are shaped so: at most one recovered
      frame per iteration, then what its end calls for. */
  lemma {:induction false} RunRecovered(ebp: string, address: string, caller: string,
                                        step: (string, string, string) -> Outcome,
                                        ends: WalkEnd -> seq<string>, m: OrderedMap<string, string>, fuel: nat)
    requires forall e, a, c :: Shaped(step(e, a, c), e, a, c, ends, m)
    ensures var r := Run([], ebp, address, caller, step, fuel);
      RecoveredThen(r.log, fuel, After(ends, r.end))
    decreases fuel
  {
    if ebp != StackBase && fuel > 0 {
      var o := step(ebp, address, caller);
      assert Shaped(o, ebp, address, caller, ends, m);
      if o.Stop? {
        StopRecovered(ebp, address, caller, step, ends, m, fuel);
      } else {
        RunRecovered(o.ebp, o.address, o.caller, step, ends, m, fuel - 1);
        ContinueRecovered(ebp, address, caller, step, ends, m, fuel);
      }
    }
  }

  /** An iteration that stops logs at most one recovered frame, then what its
      end calls for. */
  lemma StopRecovered(ebp: string, address: string, caller: string,
                      step: (string, string, string) -> Outcome,
                      ends: WalkEnd -> seq<string>, m: OrderedMap<string, string>, fuel: nat)
    requires ebp != StackBase && fuel > 0 && step(ebp, address, caller).Stop?
    requires Shaped(step(ebp, address, caller), ebp, address, caller, ends, m)
    ensures var r := Run([], ebp, address, caller, step, fuel);
      RecoveredThen(r.log, fuel, After(ends, r.end))
  {
    var o := step(ebp, address, caller);
    var synth := Synth(ebp, address, caller);
    SynthRecovered(ebp, address, caller);
    var r := Run([], ebp, address, caller, step, fuel);
    assert r == WalkResult([] + o.lines, o.end);
    assert r.log == synth + After(ends, r.end);
    RecoveredCons(synth, After(ends, r.end), fuel - 1, After(ends, r.end));
  }

  /** An iteration that goes on puts at most one recovered frame in front of
      the rest of the walk. */
  lemma ContinueRecovered(ebp: string, address: string, caller: string,
                          step: (string, string, string) -> Outcome,
                          ends: WalkEnd -> seq<string>, m: OrderedMap<string, string>, fuel: nat)
    requires ebp != StackBase && fuel > 0 && step(ebp, address, caller).Continue?
    requires Shaped(step(ebp, address, caller), ebp, address, caller, ends, m)
    requires var o := step(ebp, address, caller);
      var rest := Run([], o.ebp, o.address, o.caller, step, fuel - 1);
      RecoveredThen(rest.log, fuel - 1, After(ends, rest.end))
    ensures var r := Run([], ebp, address, caller, step, fuel);
      RecoveredThen(r.log, fuel, After(ends, r.end))
  {
    var o := step(ebp, address, caller);
    var synth := Synth(ebp, address, caller);
    SynthRecovered(ebp, address, caller);
    RunStepContinue(ebp, address, caller, step, fuel);
    var rest := Run([], o.ebp, o.address, o.caller, step, fuel - 1);
    RecoveredCons(synth, rest.log, fuel - 1, After(ends, rest.end));
  }

  /** A walk whose iterations are shaped so splices only at a candidate
      whose pointer is not all zeros, and stops at the stack base only when
      it starts there. */
  lemma {:induction false} RunEnds(ebp: string, address: string, caller: string,
                                   step: (string, string, string) -> Outcome,
                                   ends: WalkEnd -> seq<string>, m: OrderedMap<string, string>, fuel: nat)
    requires forall e, a, c :: Shaped(step(e, a, c), e, a, c, ends, m)
    ensures var r := Run([], ebp, address, caller, step, fuel);
      && (r.end.Spliced? ==> m.Has(r.end.at) && !AllZero(r.end.at))
      && (r.end == ReachedStackBase <==> ebp == StackBase)
    decreases fuel
  {
    if ebp != StackBase && fuel > 0 {
      var o := step(ebp, address, caller);
      assert Shaped(o, ebp, address, caller, ends, m);
      if o.Continue? {
        NotStackBase(o.ebp);
        RunStepContinue(ebp, address, caller, step, fuel);
        RunEnds(o.ebp, o.address, o.caller, step, ends, m, fuel - 1);
      }
    }
  }

  /** The walk of the script logs at most one recovered frame per iteration,
      then the error line, or the candidate frames from the one it spliced
      at; it splices only at a candidate whose pointer is not all zeros, and
      the loop condition `prevEBP != "00000000"` stops it only when it starts
      there, since the all-zero test catches every later such pointer. */
  lemma WalkShape(start: string, m: OrderedMap<string, string>, dds: string -> seq<string>, re: Matchers, fuel: nat)
    requires m.Valid()
    ensures var r := WalkFrom(start, m, dds, re, fuel);
      && RecoveredThen(r.log, fuel, EndLines(r.end, m))
      && (r.end.Spliced? ==> m.Has(r.end.at) && !AllZero(r.end.at))
      && (r.end == ReachedStackBase <==> start == StackBase)
  {
    BodyShaped(m, dds, re);
    RunRecovered(start, "", "", Body(m, dds, re), Ends(m), m, fuel);
    RunEnds(start, "", "", Body(m, dds, re), Ends(m), m, fuel);
    var r := WalkFrom(start, m, dds, re, fuel);
    assert After(Ends(m), r.end) == EndLines(r.end, m);
  }

  /** A walk whose body keeps coming back to the same frame runs out of
      fuel, logging one line per iteration that has a caller. */
  lemma {:induction false} RunSelfLoop(ebp: string, address: string, caller: string,
                                       step: (string, string, string) -> Outcome, fuel: nat, a: string, c: string)
    requires ebp != StackBase
    requires step(ebp, address, caller) == Continue(Synth(ebp, address, caller), ebp, a, c)
    requires step(ebp, a, c) == Continue(Synth(ebp, a, c), ebp, a, c)
    requires caller == [] || (address, caller) == (a, c)
    ensures var r := Run([], ebp, address, caller, step, fuel);
      && r.end == OutOfFuel
      && (c != [] && caller != [] ==> |r.log| == fuel)
      && (c != [] && caller == [] && fuel > 0 ==> |r.log| == fuel - 1)
    decreases fuel
  {
    if fuel > 0 {
      var synth := Synth(ebp, address, caller);
      RunContinue([], ebp, address, caller, step, fuel, synth, ebp, a, c);
      assert [] + synth == synth;
      RunLog(synth, ebp, a, c, step, fuel - 1);
      RunSelfLoop(ebp, a, c, step, fuel - 1, a, c);
    }
  }

  /** Every line such a walk logs is the same recovered frame. */
  lemma {:induction false} RunSelfLoopLines(ebp: string, address: string, caller: string,
                                            step: (string, string, string) -> Outcome, fuel: nat, a: string, c: string)
    requires ebp != StackBase
    requires step(ebp, address, caller) == Continue(Synth(ebp, address, caller), ebp, a, c)
    requires step(ebp, a, c) == Continue(Synth(ebp, a, c), ebp, a, c)
    requires caller == [] || (address, caller) == (a, c)
    ensures var r := Run([], ebp, address, caller, step, fuel);
      forall i | 0 <= i < |r.log| :: r.log[i] == SynthLine(ebp, a, c)
    decreases fuel
  {
    if fuel > 0 {
      var synth := Synth(ebp, address, caller);
      RunContinue([], ebp, address, caller, step, fuel, synth, ebp, a, c);
      assert [] + synth == synth;
      RunLog(synth, ebp, a, c, step, fuel - 1);
      RunSelfLoopLines(ebp, a, c, step, fuel - 1, a, c);
      var rest := Run([], ebp, a, c, step, fuel - 1);
      assert Run([], ebp, address, caller, step, fuel).log == synth + rest.log;
      SameLinesCons(synth, rest.log, SynthLine(ebp, a, c));
    }
  }

  lemma SameLinesCons(synth: seq<string>, rest: seq<string>, line: string)
    requires forall i | 0 <= i < |synth| :: synth[i] == line
    requires forall i | 0 <= i < |rest| :: rest[i] == line
    ensures forall i | 0 <= i < |synth + rest| :: (synth + rest)[i] == line
  {
    forall i | 0 <= i < |synth + rest| ensures (synth + rest)[i] == line {
      if i >= |synth| {
        assert (synth + rest)[i] == rest[i - |synth|];
      }
    }
  }

  /** An iteration at a pointer that is not a candidate, whose dump gives a
      saved frame pointer that is not all zeros and a symbol, goes on. */
  lemma WalkStepContinues(ebp: string, address: string, caller: string,
                          m: OrderedMap<string, string>, dds: string -> seq<string>, re: Matchers,
                          e: string, a: string, c: string)
    requires m.Valid()
    requires |dds(ebp)| >= 2 && re.framePointer(dds(ebp)[0]) == Some(e)
    requires !AllZero(e) && !m.Has(e) && re.symbol(dds(ebp)[1]) == Some((a, c))
    ensures WalkStep(ebp, address, caller, m, dds, re) == Continue(Synth(ebp, address, caller), e, a, c)
  {
  }

  /** The loop has no guard against a cycle in the frame-pointer chain: when
      the dump at `ebp` gives `ebp` back as its saved frame pointer, the walk
      goes round until the fuel runs out, logging the same recovered frame in
      every iteration after the first. */
  lemma SelfLoop(ebp: string, m: OrderedMap<string, string>, dds: string -> seq<string>, fuel: nat,
                 slot: string, next: string, returnAddress: string, symbol: string)
    requires m.Valid() && ebp != [] && AllHex(ebp) && !AllZero(ebp) && !m.Has(ebp)
    requires slot != [] && AllHex(slot) && next != [] && AllHex(next) && returnAddress != [] && AllHex(returnAddress)
    requires symbol != [] && !IsSpace(symbol[0]) && NoLineTerminator(symbol)
    requires dds(ebp) == [slot + " " + ebp, next + " " + returnAddress + " " + symbol]
    ensures WalkFrom(ebp, m, dds, DdsMatchers(), fuel).end == OutOfFuel
    ensures forall i | 0 <= i < |WalkFrom(ebp, m, dds, DdsMatchers(), fuel).log| ::
      WalkFrom(ebp, m, dds, DdsMatchers(), fuel).log[i] == SynthLine(ebp, returnAddress, symbol)
    ensures fuel > 0 ==> |WalkFrom(ebp, m, dds, DdsMatchers(), fuel).log| == fuel - 1
  {
    NextFramePointerOf(slot, ebp, []);
    assert slot + " " + ebp + [] == slot + " " + ebp;
    NextSymbolOf(next, returnAddress, symbol);
    NotStackBase(ebp);
    WalkStepContinues(ebp, "", "", m, dds, DdsMatchers(), ebp, returnAddress, symbol);
    WalkStepContinues(ebp, returnAddress, symbol, m, dds, DdsMatchers(), ebp, returnAddress, symbol);
    RunSelfLoop(ebp, "", "", Body(m, dds, DdsMatchers()), fuel, returnAddress, symbol);
    RunSelfLoopLines(ebp, "", "", Body(m, dds, DdsMatchers()), fuel, returnAddress, symbol);
  }

  // ---------------------------------------------------------------------
  // The whole command

  /** The log and the return value of `__FixStack`, with the walk bounded by
      `fuel` iterations. */
  function Reconstruct(kb: seq<string>, dds: string -> seq<string>, fuel: nat): (seq<string>, int) {
    var s := Segment(kb);
    if !s.warningFound || |s.prevEbp| == 0 then (s.log + [NothingToFix], 1)
    else (s.log + WalkFrom(s.prevEbp, s.candidates, dds, DdsMatchers(), fuel).log, 0)
  }

  /** The command stated by positions in the listing. The trusted prefix is
      always logged first. The command gives up, returning 1, exactly when no
      line holds the warning or no trusted line is a frame line; otherwise
      it returns 0 after the walk from the frame pointer of the last trusted
      frame line, over the candidates collected after the warning and the
      marker. */
  lemma ReconstructResult(kb: seq<string>, dds: string -> seq<string>, fuel: nat)
    ensures var prefix := TrustedPrefix(kb);
      var start := LastFramePointer(prefix);
      var (log, rc) := Reconstruct(kb, dds, fuel);
      && (rc == 1 <==> (forall i | 0 <= i < |kb| :: !Contains(kb[i], Warning))
                       || (forall i | 0 <= i < |prefix| :: ParseFrame(prefix[i]).None?))
      && (rc == 1 ==> log == prefix + [NothingToFix])
      && (rc != 1 ==> rc == 0 && log == prefix + WalkFrom(start, Collect(kb, CandidateStart(kb), |kb|), dds, DdsMatchers(), fuel).log)
  {
    SegmentResult(kb);
    NoFramePointer(TrustedPrefix(kb));
  }

  /** `__FixStack` */
  method FixStackCommand(kb: seq<string>, dds: string -> seq<string>, fuel: nat) returns (log: seq<string>, rc: int)
    ensures (log, rc) == Reconstruct(kb, dds, fuel)
  {
    var mode, warningFound, prevEbp, prefix, linesMap := SegmentListing(kb);
    if !warningFound || |prevEbp| == 0 {
      log := prefix + [NothingToFix];
      rc := 1;
      return;
    }
    var walked, end := Walk(prevEbp, linesMap, dds, DdsMatchers(), fuel);
    log := prefix + walked;
    rc := 0;
  }
}

