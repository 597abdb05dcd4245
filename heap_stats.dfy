/** The heap-statistics commands of memory.js: `heap_alloc_stats`
    (`__CollectHeapAllocationStats`), which counts the first four dwords
    and the two qwords of every busy block listed by a page-heap dump, and
    `av_heap_alloc_stats` (`__CollectAvHeapAllocationStats`), which scans the
    same listing for blocks of one size. The listing is an input; the
    debugger log is the sequence of `debugLog` arguments, verbatim. */
module HeapStats {
  import opened Text
  import opened OrderedMaps
  import opened Ranking
  import opened HexAscii

  // ---------------------------------------------------------------------
  // AddItem, hex2ascii, PrintTopStats

  /** `AddItem(stat, key)`: a key seen before gets one more, a new key
      starts at one, at the end of the iteration order. */
  method AddItem<K>(stat: MapObject<K, nat>, key: K)
    requires stat.contents.Valid()
    modifies stat
    ensures stat.contents == Increment(old(stat.contents), key)
  {
    if stat.contents.Has(key) {
      stat.Set(key, stat.contents.values[key] + 1);
    } else {
      stat.Set(key, 1);
    }
  }

  /** `hex2ascii(str)`: walks the two-digit pairs from the end of the string
      back to its start and appends one glyph per pair. */
  method Hex2Ascii(str: string) returns (res: string)
    requires AllHex(str)
    ensures res == Render(str, JsGlyph)
  {
    res := "";
    var i: int := |str| - 2;
    ghost var bytes: seq<Byte> := [];
    ghost var n: nat := 0;
    while i >= 0
      invariant -2 <= i && |str| == i + 2 + 2 * n
      invariant AllHex(str[i + 2..]) && bytes == PairsFromEnd(str[i + 2..])
      invariant res == Glyphs(bytes, JsGlyph)
      decreases i
    {
      var code := HexValue(str[i..i + 2]);
      NextPair(str, i, n);
      GlyphsSnoc(bytes, code, JsGlyph);
      bytes := bytes + [code];
      if code < 21 {
        res := res + ".";
      } else {
        res := res + [code as char];
      }
      i, n := i - 2, n + 1;
    }
    LeadingDigit(str, i + 2, n);
  }

  /** After the loop at most one digit, a leading one, is left unread. */
  lemma LeadingDigit(str: string, j: nat, n: nat)
    requires AllHex(str) && j <= 1 && |str| == j + 2 * n
    ensures PairsFromEnd(str) == PairsFromEnd(str[j..])
  {
    if j == 1 {
      PairsOddLength(str);
    } else {
      assert str[j..] == str;
    }
  }

  /** Reading one more pair, further from the end. */
  lemma NextPair(str: string, i: nat, n: nat)
    requires AllHex(str) && |str| == i + 2 + 2 * n
    ensures HexValue(str[i..i + 2]) < 256
    ensures PairsFromEnd(str[i..]) == PairsFromEnd(str[i + 2..]) + [HexValue(str[i..i + 2])]
  {
    var pair, done := str[i..i + 2], str[i + 2..];
    assert str[i..] == pair + done;
    PairsSplit(pair, done);
    PairsOfPair(pair);
  }

  /** `key + " \"" + hex2ascii(key) + "\": " + value.toString(10) + "\n"` */
  function StatLine(e: (string, nat)): string
    requires AllHex(e.0)
  {
    e.0 + " \"" + Render(e.0, JsGlyph) + "\": " + ToDecimal(e.1) + "\n"
  }

  /** One line per entry. */
  function StatLines(es: seq<(string, nat)>): (lines: seq<string>)
    requires HexEntries(es)
    ensures |lines| == |es|
  {
    seq(|es|, i requires 0 <= i < |es| => StatLine(es[i]))
  }

  /** The lines `PrintTopStats` logs for `m`: the first eleven entries of the
      ranking by count. */
  function TopLines(m: OrderedMap<string, nat>): seq<string>
    requires m.Valid() && HexKeys(m)
  {
    TopKeysHex(m);
    StatLines(Top(Rank(Entries(m))))
  }


  /** `PrintTopStats(stat)`: logs the entries in the order of the ranking and
      stops after the eleventh (`if (++i > 10) break`). */
  method PrintTopStats(stat: MapObject<string, nat>) returns (log: seq<string>)
    requires stat.contents.Valid() && HexKeys(stat.contents)
    ensures log == TopLines(stat.contents)
  {
    var ranked := Rank(Entries(stat.contents));
    TopKeysHex(stat.contents);
    log := [];
    var i := 0;
    while i < |ranked|
      invariant 0 <= i <= |ranked| && i <= 10
      invariant log == StatLines(ranked[..i])
    {
      var key, value := ranked[i].0, ranked[i].1;
      var text := Hex2Ascii(key);
      log := log + [key + " \"" + text + "\": " + ToDecimal(value) + "\n"];
      assert ranked[..i + 1] == ranked[..i] + [ranked[i]];
      i := i + 1;
      if i > 10 {
        break;
      }
    }
    assert Top(ranked) == ranked[..i];
  }

  // ---------------------------------------------------------------------
  // The block listing of `heap_alloc_stats` (memory.js:222)

  /** The four dwords a matching line captures (groups 1 to 4). */
  datatype HeapRecord = HeapRecord(d1: string, d2: string, d3: string, d4: string)

  /** A dword column: exactly eight hex digits. */
  predicate Dword(s: string) {
    |s| == 8 && AllHex(s)
  }

  predicate WellFormedRecord(r: HeapRecord) {
    Dword(r.d1) && Dword(r.d2) && Dword(r.d3) && Dword(r.d4)
  }

  /** `count` repetitions of `([0-9A-Fa-f]{8})\s`: the dwords read and
      what follows them. */
  function Dwords(s: string, count: nat): (r: Option<(seq<string>, string)>)
    ensures r.Some? ==> |r.value.0| == count && forall i | 0 <= i < count :: Dword(r.value.0[i])
  {
    if count == 0 then Some(([], s))
    else if |s| >= 9 && AllHex(s[..8]) && IsSpace(s[8]) then
      match Dwords(s[9..], count - 1)
      case None => None
      case Some((ds, rest)) => Some(([s[..8]] + ds, rest))
    else None
  }

  /** `line.match(lineRE)` for
      `^[0-9A-Fa-f]{8,16}\s[bB]\s([0-9A-Fa-f]{8})\s([0-9A-Fa-f]{8})\s([0-9A-Fa-f]{8})\s([0-9A-Fa-f]{8})\s(.+)$`.
      The address run cannot give digits back to `\s`, so it is the whole
      leading run of hex digits; `(.+)$` takes the rest of the line, which
      must be non-empty and free of line terminators. */
  function ParseHeapLine(line: string): (r: Option<HeapRecord>)
    ensures r.Some? ==> WellFormedRecord(r.value)
  {
    var n := HexLen(line);
    if 8 <= n <= 16 && n + 3 <= |line|
      && IsSpace(line[n]) && (line[n + 1] == 'b' || line[n + 1] == 'B') && IsSpace(line[n + 2])
    then
      match Dwords(line[n + 3..], 4)
      case Some((ds, rest)) =>
        if rest != [] && NoLineTerminator(rest) then Some(HeapRecord(ds[0], ds[1], ds[2], ds[3])) else None
      case None => None
    else None
  }

  /** Each dword followed by its separator. */
  function DwordText(ds: seq<string>, sp: seq<char>): string
    requires |sp| == |ds|
  {
    if ds == [] then [] else ds[0] + [sp[0]] + DwordText(ds[1..], sp[1..])
  }

  /** A block line as a page-heap dump lays it out. */
  function HeapLine(address: string, flag: char, r: HeapRecord, rest: string, sp: seq<char>): string
    requires |sp| == 6
  {
    address + [sp[0], flag, sp[1]] + DwordText([r.d1, r.d2, r.d3, r.d4], sp[2..]) + rest
  }

  lemma {:induction false} DwordsOf(ds: seq<string>, sp: seq<char>, rest: string)
    requires |sp| == |ds|
    requires forall i | 0 <= i < |ds| :: Dword(ds[i]) && IsSpace(sp[i])
    ensures Dwords(DwordText(ds, sp) + rest, |ds|) == Some((ds, rest))
  {
    if ds != [] {
      var s := DwordText(ds, sp) + rest;
      var t := DwordText(ds[1..], sp[1..]) + rest;
      assert s == ds[0] + ([sp[0]] + t);
      assert s[..8] == ds[0] && s[8] == sp[0] && s[9..] == t;
      DwordsOf(ds[1..], sp[1..], rest);
      assert [ds[0]] + ds[1..] == ds;
    } else {
      assert DwordText(ds, sp) + rest == rest;
    }
  }

  /** Every line laid out as the pattern describes is matched, and the four
      dwords are captured unchanged. */
  lemma ParseHeapLineOf(address: string, flag: char, r: HeapRecord, rest: string, sp: seq<char>)
    requires |sp| == 6 && forall i | 0 <= i < 6 :: IsSpace(sp[i])
    requires 8 <= |address| <= 16 && AllHex(address)
    requires flag == 'b' || flag == 'B'
    requires WellFormedRecord(r)
    requires rest != [] && NoLineTerminator(rest)
    ensures ParseHeapLine(HeapLine(address, flag, r, rest, sp)) == Some(r)
  {
    var ds := [r.d1, r.d2, r.d3, r.d4];
    var body := DwordText(ds, sp[2..]) + rest;
    var line := HeapLine(address, flag, r, rest, sp);
    assert line == address + ([sp[0], flag, sp[1]] + body);
    assert !IsHexDigit(sp[0]) by {
      assert IsSpace(sp[0]);
    }
    HexLenOfConcat(address, [sp[0], flag, sp[1]] + body);
    var n := |address|;
    assert line[n] == sp[0] && line[n + 1] == flag && line[n + 2] == sp[1];
    assert line[n + 3..] == body;
    DwordsOf(ds, sp[2..], rest);
  }

  /** The converse of `DwordsOf`: dwords read are laid out as dword text,
      each followed by its whitespace separator. */
  lemma {:induction false} DwordsLaidOut(s: string, count: nat) returns (sp: seq<char>)
    requires Dwords(s, count).Some?
    ensures |sp| == count && forall i | 0 <= i < count :: IsSpace(sp[i])
    ensures s == DwordText(Dwords(s, count).value.0, sp) + Dwords(s, count).value.1
  {
    if count == 0 {
      sp := [];
    } else {
      var ds := Dwords(s, count).value.0;
      var tail := DwordsLaidOut(s[9..], count - 1);
      sp := [s[8]] + tail;
      assert ds[0] == s[..8] && ds[1..] == Dwords(s[9..], count - 1).value.0;
      assert sp[1..] == tail;
      assert s == s[..8] + [s[8]] + s[9..];
    }
  }

  /** The converse of `ParseHeapLineOf`: every line the pattern matches is
      laid out as it describes, with the dwords it captured. */
  lemma ParseHeapLineLaidOut(line: string) returns (address: string, flag: char, rest: string, sp: seq<char>)
    requires ParseHeapLine(line).Some?
    ensures |sp| == 6 && forall i | 0 <= i < 6 :: IsSpace(sp[i])
    ensures 8 <= |address| <= 16 && AllHex(address)
    ensures flag == 'b' || flag == 'B'
    ensures rest != [] && NoLineTerminator(rest)
    ensures line == HeapLine(address, flag, ParseHeapLine(line).value, rest, sp)
  {
    var n := HexLen(line);
    var r := ParseHeapLine(line).value;
    var ds := Dwords(line[n + 3..], 4).value.0;
    address, flag, rest := line[..n], line[n + 1], Dwords(line[n + 3..], 4).value.1;
    var dsp := DwordsLaidOut(line[n + 3..], 4);
    sp := [line[n], line[n + 2]] + dsp;
    HexLenHex(line);
    assert ds == [r.d1, r.d2, r.d3, r.d4];
    assert sp[2..] == dsp;
    assert line == line[..n] + [line[n], line[n + 1], line[n + 2]] + line[n + 3..];
  }

  // ---------------------------------------------------------------------
  // `__CollectHeapAllocationStats`

  /** The six counting maps, by what they count. */
  datatype Column = FirstDword | SecondDword | ThirdDword | FourthDword | FirstQword | SecondQword

  /** The key a record adds to a column's map: a dword, or for the qwords the
      higher dword followed by the lower one (`parsed[2] + parsed[1]`,
      `parsed[4] + parsed[3]`). */
  function KeyOf(r: HeapRecord, c: Column): string {
    match c
    case FirstDword => r.d1
    case SecondDword => r.d2
    case ThirdDword => r.d3
    case FourthDword => r.d4
    case FirstQword => r.d2 + r.d1
    case SecondQword => r.d4 + r.d3
  }

  predicate WellFormedRecords(rs: seq<HeapRecord>) {
    forall i | 0 <= i < |rs| :: WellFormedRecord(rs[i])
  }

  /** What `re` captures from each line it matches, in order. */
  function Matches<R>(lines: seq<string>, re: string -> Option<R>): (rs: seq<R>)
    ensures |rs| <= |lines|
  {
    if lines == [] then []
    else
      var rs := Matches(lines[..|lines| - 1], re);
      match re(lines[|lines| - 1])
      case Some(r) => rs + [r]
      case None => rs
  }

  /** The records of the block lines, in order. */
  function Records(lines: seq<string>): seq<HeapRecord> {
    Matches(lines, ParseHeapLine)
  }

  lemma RecordsWellFormed(lines: seq<string>)
    ensures WellFormedRecords(Records(lines))
  {
    MatchesWellFormed(lines, ParseHeapLine);
  }

  /** The keys the records add to one column, in order. */
  function Keys(rs: seq<HeapRecord>, c: Column): (ks: seq<string>)
    ensures |ks| == |rs|
  {
    if rs == [] then [] else Keys(rs[..|rs| - 1], c) + [KeyOf(rs[|rs| - 1], c)]
  }

  /** The counting map of one column: each key counted once per record. */
  function ColumnStats(rs: seq<HeapRecord>, c: Column): (m: OrderedMap<string, nat>)
    ensures m.Valid()
  {
    Tally(Keys(rs, c))
  }

  lemma {:induction false} KeysAt(rs: seq<HeapRecord>, c: Column, i: nat)
    requires i < |rs|
    ensures Keys(rs, c)[i] == KeyOf(rs[i], c)
  {
    if i < |rs| - 1 {
      KeysAt(rs[..|rs| - 1], c, i);
    }
  }

  /** Every key of a well-formed record is a hex numeral. */
  lemma ColumnKeysHex(rs: seq<HeapRecord>, c: Column)
    requires WellFormedRecords(rs)
    ensures HexKeys(ColumnStats(rs, c))
  {
    var ks := Keys(rs, c);
    forall i | 0 <= i < |ks| ensures AllHex(ks[i]) {
      KeysAt(rs, c, i);
      var r := rs[i];
      if c == FirstQword {
        HexValueOfConcat(r.d2, r.d1);
      } else if c == SecondQword {
        HexValueOfConcat(r.d4, r.d3);
      }
    }
    TallyKeys(ks, AllHex);
  }

  function Heading(c: Column): string {
    match c
    case FirstDword => "\n--- Top by first dword ---\n"
    case SecondDword => "\n--- Top by second dword ---\n"
    case ThirdDword => "\n--- Top by third dword ---\n"
    case FourthDword => "\n--- Top by fourth dword ---\n"
    case FirstQword => "\n--- Top by first qword ---\n"
    case SecondQword => "\n--- Top by second qword ---\n"
  }

  /** A column's heading and its top entries. */
  function Section(rs: seq<HeapRecord>, c: Column): seq<string>
    requires WellFormedRecords(rs)
  {
    ColumnKeysHex(rs, c);
    [Heading(c)] + TopLines(ColumnStats(rs, c))
  }

  /** What `heap_alloc_stats` logs once the records are collected. */
  function Report(rs: seq<HeapRecord>): seq<string>
    requires WellFormedRecords(rs)
  {
    ["Matched: 0x" + ToHex(|rs|) + " blocks\n"]
    + Section(rs, FirstDword) + Section(rs, SecondDword) + Section(rs, ThirdDword)
    + Section(rs, FourthDword) + Section(rs, FirstQword) + Section(rs, SecondQword)
    + ["\n"]
  }

  /** What `heap_alloc_stats` logs for a listing. */
  function HeapReport(lines: seq<string>): seq<string> {
    RecordsWellFormed(lines);
    Report(Records(lines))
  }

  /** A pattern whose every match captures four dwords. */
  ghost predicate DwordPattern(re: string -> Option<HeapRecord>) {
    forall line :: re(line).Some? ==> WellFormedRecord(re(line).value)
  }

  lemma {:induction false} MatchesWellFormed(lines: seq<string>, re: string -> Option<HeapRecord>)
    requires DwordPattern(re)
    ensures WellFormedRecords(Matches(lines, re))
  {
    if lines != [] {
      MatchesWellFormed(lines[..|lines| - 1], re);
    }
  }

  lemma MatchesStep<R>(lines: seq<string>, i: nat, re: string -> Option<R>, parsed: Option<R>)
    requires i < |lines| && parsed == re(lines[i])
    ensures parsed.Some? ==> Matches(lines[..i + 1], re) == Matches(lines[..i], re) + [parsed.value]
    ensures parsed.None? ==> Matches(lines[..i + 1], re) == Matches(lines[..i], re)
  {
    assert lines[..i + 1][..i] == lines[..i];
  }

  lemma ColumnStep(rs: seq<HeapRecord>, r: HeapRecord, c: Column)
    ensures ColumnStats(rs + [r], c) == Increment(ColumnStats(rs, c), KeyOf(r, c))
  {
    assert (rs + [r])[..|rs|] == rs;
    assert (Keys(rs, c) + [KeyOf(r, c)])[..|rs|] == Keys(rs, c);
  }

  lemma AllColumnsStep(rs: seq<HeapRecord>, r: HeapRecord)
    ensures forall c :: ColumnStats(rs + [r], c) == Increment(ColumnStats(rs, c), KeyOf(r, c))
  {
    forall c ensures ColumnStats(rs + [r], c) == Increment(ColumnStats(rs, c), KeyOf(r, c)) {
      ColumnStep(rs, r, c);
    }
  }

  /** The six `AddItem` calls for one matching line. */
  method AddRecord(r: HeapRecord, dword1: MapObject<string, nat>, dword2: MapObject<string, nat>,
                   dword3: MapObject<string, nat>, dword4: MapObject<string, nat>,
                   qword1: MapObject<string, nat>, qword2: MapObject<string, nat>)
    requires dword1.contents.Valid() && dword2.contents.Valid() && dword3.contents.Valid()
    requires dword4.contents.Valid() && qword1.contents.Valid() && qword2.contents.Valid()
    requires dword1 != dword2 && dword1 != dword3 && dword1 != dword4 && dword1 != qword1 && dword1 != qword2
    requires dword2 != dword3 && dword2 != dword4 && dword2 != qword1 && dword2 != qword2
    requires dword3 != dword4 && dword3 != qword1 && dword3 != qword2
    requires dword4 != qword1 && dword4 != qword2 && qword1 != qword2
    modifies dword1, dword2, dword3, dword4, qword1, qword2
    ensures dword1.contents == Increment(old(dword1.contents), KeyOf(r, FirstDword))
    ensures dword2.contents == Increment(old(dword2.contents), KeyOf(r, SecondDword))
    ensures dword3.contents == Increment(old(dword3.contents), KeyOf(r, ThirdDword))
    ensures dword4.contents == Increment(old(dword4.contents), KeyOf(r, FourthDword))
    ensures qword1.contents == Increment(old(qword1.contents), KeyOf(r, FirstQword))
    ensures qword2.contents == Increment(old(qword2.contents), KeyOf(r, SecondQword))
  {
    AddItem(dword1, r.d1);
    AddItem(dword2, r.d2);
    AddItem(dword3, r.d3);
    AddItem(dword4, r.d4);
    AddItem(qword1, r.d2 + r.d1);
    AddItem(qword2, r.d4 + r.d3);
  }

  /** `__CollectHeapAllocationStats(heap)` over the listing `lines`: counts
      every line, feeds the four dwords and two qwords of every line the
      pattern matches to the six maps, then logs the match count and each
      map's top entries. Returns the number of lines read. */
  method CollectHeapAllocationStats(lines: seq<string>) returns (lineCount: nat, log: seq<string>)
    ensures lineCount == |lines|
    ensures log == HeapReport(lines)
  {
    var lineRE := ParseHeapLine;
    lineCount, log := CollectWith(lines, lineRE);
  }

  /** The body of `__CollectHeapAllocationStats` for a given `lineRE`. */
  method CollectWith(lines: seq<string>, lineRE: string -> Option<HeapRecord>) returns (lineCount: nat, log: seq<string>)
    requires DwordPattern(lineRE)
    ensures lineCount == |lines|
    ensures WellFormedRecords(Matches(lines, lineRE)) && log == Report(Matches(lines, lineRE))
  {
    var dword1 := new MapObject<string, nat>();
    var dword2 := new MapObject<string, nat>();
    var dword3 := new MapObject<string, nat>();
    var dword4 := new MapObject<string, nat>();
    var qword1 := new MapObject<string, nat>();
    var qword2 := new MapObject<string, nat>();
    var matched;
    lineCount, matched := CountLines(lines, lineRE, dword1, dword2, dword3, dword4, qword1, qword2);
    MatchesWellFormed(lines, lineRE);
    log := LogReport(Matches(lines, lineRE), matched, dword1, dword2, dword3, dword4, qword1, qword2);
  }

  /** The per-line loop: every line is counted, and every line `lineRE`
      matches adds one to each of the six maps. */
  method CountLines(lines: seq<string>, lineRE: string -> Option<HeapRecord>,
                    dword1: MapObject<string, nat>, dword2: MapObject<string, nat>,
                    dword3: MapObject<string, nat>, dword4: MapObject<string, nat>,
                    qword1: MapObject<string, nat>, qword2: MapObject<string, nat>)
    returns (lineCount: nat, matched: nat)
    requires dword1.contents == Empty() && dword2.contents == Empty() && dword3.contents == Empty()
    requires dword4.contents == Empty() && qword1.contents == Empty() && qword2.contents == Empty()
    requires dword1 != dword2 && dword1 != dword3 && dword1 != dword4 && dword1 != qword1 && dword1 != qword2
    requires dword2 != dword3 && dword2 != dword4 && dword2 != qword1 && dword2 != qword2
    requires dword3 != dword4 && dword3 != qword1 && dword3 != qword2
    requires dword4 != qword1 && dword4 != qword2 && qword1 != qword2
    modifies dword1, dword2, dword3, dword4, qword1, qword2
    ensures lineCount == |lines| && matched == |Matches(lines, lineRE)|
    ensures dword1.contents == ColumnStats(Matches(lines, lineRE), FirstDword)
    ensures dword2.contents == ColumnStats(Matches(lines, lineRE), SecondDword)
    ensures dword3.contents == ColumnStats(Matches(lines, lineRE), ThirdDword)
    ensures dword4.contents == ColumnStats(Matches(lines, lineRE), FourthDword)
    ensures qword1.contents == ColumnStats(Matches(lines, lineRE), FirstQword)
    ensures qword2.contents == ColumnStats(Matches(lines, lineRE), SecondQword)
  {
    lineCount := 0;
    matched := 0;
    ghost var rs: seq<HeapRecord> := [];
    while lineCount < |lines|
      invariant lineCount <= |lines| && rs == Matches(lines[..lineCount], lineRE) && matched == |rs|
      invariant dword1.contents == ColumnStats(rs, FirstDword)
      invariant dword2.contents == ColumnStats(rs, SecondDword)
      invariant dword3.contents == ColumnStats(rs, ThirdDword)
      invariant dword4.contents == ColumnStats(rs, FourthDword)
      invariant qword1.contents == ColumnStats(rs, FirstQword)
      invariant qword2.contents == ColumnStats(rs, SecondQword)
    {
      var line := lines[lineCount];
      var parsed := lineRE(line);
      MatchesStep(lines, lineCount, lineRE, parsed);
      lineCount := lineCount + 1;
      if parsed.Some? {
        var r := parsed.value;
        matched := matched + 1;
        AddRecord(r, dword1, dword2, dword3, dword4, qword1, qword2);
        AllColumnsStep(rs, r);
        rs := rs + [r];
      }
    }
    assert lines[..lineCount] == lines;
  }

  /** The log lines after the loop: the match count, then each map's
      heading and top entries. */
  method LogReport(ghost rs: seq<HeapRecord>, matched: nat,
                   dword1: MapObject<string, nat>, dword2: MapObject<string, nat>,
                   dword3: MapObject<string, nat>, dword4: MapObject<string, nat>,
                   qword1: MapObject<string, nat>, qword2: MapObject<string, nat>)
    returns (log: seq<string>)
    requires WellFormedRecords(rs) && matched == |rs|
    requires dword1.contents == ColumnStats(rs, FirstDword)
    requires dword2.contents == ColumnStats(rs, SecondDword)
    requires dword3.contents == ColumnStats(rs, ThirdDword)
    requires dword4.contents == ColumnStats(rs, FourthDword)
    requires qword1.contents == ColumnStats(rs, FirstQword)
    requires qword2.contents == ColumnStats(rs, SecondQword)
    ensures log == Report(rs)
  {
    log := ["Matched: 0x" + ToHex(matched) + " blocks\n"];
    var section := LogSection(rs, FirstDword, dword1);
    log := log + section;
    section := LogSection(rs, SecondDword, dword2);
    log := log + section;
    section := LogSection(rs, ThirdDword, dword3);
    log := log + section;
    section := LogSection(rs, FourthDword, dword4);
    log := log + section;
    section := LogSection(rs, FirstQword, qword1);
    log := log + section;
    section := LogSection(rs, SecondQword, qword2);
    log := log + section + ["\n"];
  }

  /** One heading followed by the top entries of its map. */
  method LogSection(ghost rs: seq<HeapRecord>, c: Column, stat: MapObject<string, nat>)
    returns (lines: seq<string>)
    requires WellFormedRecords(rs) && stat.contents == ColumnStats(rs, c)
    ensures lines == Section(rs, c)
  {
    ColumnKeysHex(rs, c);
    var top := PrintTopStats(stat);
    lines := [Heading(c)] + top;
  }

  // ---------------------------------------------------------------------
  // What the report says

  /** The number of records whose key in column `c` is `k`. */
  function Occurrences(rs: seq<HeapRecord>, c: Column, k: string): nat {
    if rs == [] then 0
    else Occurrences(rs[..|rs| - 1], c, k) + (if KeyOf(rs[|rs| - 1], c) == k then 1 else 0)
  }

  /** Each column's count of a key is the number of matched blocks with that
      key in that column. */
  lemma {:induction false} ColumnCount(rs: seq<HeapRecord>, c: Column, k: string)
    ensures Count(ColumnStats(rs, c), k) == Occurrences(rs, c, k)
    ensures ColumnStats(rs, c).Has(k) <==> Occurrences(rs, c, k) > 0
  {
    if rs != [] {
      var init := rs[..|rs| - 1];
      var ks := Keys(rs, c);
      assert ks[..|ks| - 1] == Keys(init, c);
      ColumnCount(init, c, k);
    }
  }

  /** Every matched block adds exactly one count to each column: the counts
      of every map add up to the number matched. */
  lemma ColumnTotal(lines: seq<string>, c: Column)
    ensures Total(ColumnStats(Records(lines), c)) == |Records(lines)|
  {
    TallyTotal(Keys(Records(lines), c));
  }

  /** A qword key is the higher dword followed by the lower one: as a number
      it is `high * 2^32 + low`, and rendered it shows the lower dword's bytes
      first, the order the qword has in little-endian memory. */
  lemma QwordKey(low: string, high: string)
    requires Dword(low) && Dword(high)
    ensures AllHex(high + low)
    ensures HexValue(high + low) == HexValue(high) * Pow(16, 8) + HexValue(low)
    ensures Render(high + low, JsGlyph) == Render(low, JsGlyph) + Render(high, JsGlyph)
  {
    HexValueOfConcat(high, low);
    PairsSplit(high, low);
    GlyphsAppend(PairsFromEnd(low), PairsFromEnd(high), JsGlyph);
  }

  /** The qword columns of a record, as `QwordKey` describes them. */
  lemma QwordColumns(r: HeapRecord)
    requires WellFormedRecord(r)
    ensures KeyOf(r, FirstQword) == r.d2 + r.d1 && KeyOf(r, SecondQword) == r.d4 + r.d3
    ensures AllHex(KeyOf(r, FirstQword)) && AllHex(KeyOf(r, SecondQword))
    ensures HexValue(KeyOf(r, FirstQword)) == HexValue(r.d2) * Pow(16, 8) + HexValue(r.d1)
    ensures HexValue(KeyOf(r, SecondQword)) == HexValue(r.d4) * Pow(16, 8) + HexValue(r.d3)
  {
    QwordKey(r.d1, r.d2);
    QwordKey(r.d3, r.d4);
  }

  // ---------------------------------------------------------------------
  // `__CollectAvHeapAllocationStats`

  /** `('0000000' + blockSize.toString(16)).slice(-8)` */
  function BlockSizeField(blockSize: nat): string {
    var s := "0000000" + ToHex(blockSize);
    s[|s| - 8..]
  }

  /** The block-size field is the block size in eight hex digits: zero-padded
      when shorter, its low 32 bits when longer. */
  lemma BlockSizeFieldIsPadded(blockSize: nat)
    ensures BlockSizeField(blockSize) == PadHex(blockSize, 8)
  {
    var h := ToHex(blockSize);
    var s := "0000000" + h;
    if |h| >= 8 {
      assert s[|s| - 8..] == h[|h| - 8..];
      ToHexSuffix(blockSize, 8);
    } else {
      assert s[|s| - 8..] == Zeros(8 - |h|) + h;
      PadHexWide(blockSize, 8);
    }
  }

  /** The padded field reads back as the block size modulo 2^32. */
  lemma BlockSizeFieldValue(blockSize: nat)
    ensures HexValue(BlockSizeField(blockSize)) == blockSize % Pow(16, 8)
  {
    BlockSizeFieldIsPadded(blockSize);
    PadHexValue(blockSize, 8);
  }

  /** The fixed part of the pattern of memory.js:133 before the size field,
      `([0-9A-Fa-f]{8})\sB\sabcdaaa[0-9A-Fa-f]\s[0-9A-Fa-f]{8}\s`, on
      exactly 29 characters. */
  predicate AvHead(h: string) {
    |h| == 29 && AllHex(h[..8]) && IsSpace(h[8]) && h[9] == 'B' && IsSpace(h[10])
    && h[11..18] == "abcdaaa" && IsHexDigit(h[18]) && IsSpace(h[19])
    && AllHex(h[20..28]) && IsSpace(h[28])
  }

  /** `line.match(lineRE)` for the pattern of memory.js:133,
      `^([0-9A-Fa-f]{8})\sB\sabcdaaa[0-9A-Fa-f]\s[0-9A-Fa-f]{8}\s<field>\s(.+)$`,
      every part of which has a fixed width; the result is the block
      address, `host.parseInt64(parsed[1], 16)`. */
  function MatchAvLine(line: string, field: string): Option<nat> {
    if |line| >= 31 + |field| && AvHead(line[..29])
      && line[29..29 + |field|] == field && IsSpace(line[29 + |field|])
      && NoLineTerminator(line[30 + |field|..])
    then Some(HexValue(line[..8]))
    else None
  }

  /** The pattern built for `blockSize`. */
  function ParseAvLine(line: string, blockSize: nat): Option<nat> {
    MatchAvLine(line, BlockSizeField(blockSize))
  }

  /** The fields before the size field, with their separators. */
  function AvHeadText(address: string, tag: char, word: string, sp: seq<char>): string
    requires |sp| == 4
  {
    address + [sp[0], 'B', sp[1]] + "abcdaaa" + [tag, sp[2]] + word + [sp[3]]
  }

  /** A block line laid out as the pattern describes. */
  function AvLine(address: string, tag: char, word: string, field: string, rest: string, sp: seq<char>): string
    requires |sp| == 5
  {
    AvHeadText(address, tag, word, sp[..4]) + (field + ([sp[4]] + rest))
  }

  lemma AvHeadOf(address: string, tag: char, word: string, sp: seq<char>)
    requires |sp| == 4 && forall i | 0 <= i < 4 :: IsSpace(sp[i])
    requires Dword(address) && IsHexDigit(tag) && Dword(word)
    ensures AvHead(AvHeadText(address, tag, word, sp))
    ensures AvHeadText(address, tag, word, sp)[..8] == address
  {
    var h := AvHeadText(address, tag, word, sp);
    assert h[..8] == address;
    assert h[11..18] == "abcdaaa";
    assert h[20..28] == word;
  }

  lemma MatchAvLineOf(address: string, tag: char, word: string, field: string, rest: string, sp: seq<char>)
    requires |sp| == 5 && forall i | 0 <= i < 5 :: IsSpace(sp[i])
    requires Dword(address) && IsHexDigit(tag) && Dword(word) && |field| == 8
    requires rest != [] && NoLineTerminator(rest)
    ensures MatchAvLine(AvLine(address, tag, word, field, rest, sp), field) == Some(HexValue(address))
  {
    var h := AvHeadText(address, tag, word, sp[..4]);
    var line := h + (field + ([sp[4]] + rest));
    AvHeadOf(address, tag, word, sp[..4]);
    assert line[..29] == h && line[..8] == h[..8];
    assert line[29..37] == field && line[37] == sp[4] && line[38..] == rest;
  }

  /** Every line laid out as the pattern describes is matched, with the
      block address read from its first field. */
  lemma ParseAvLineOf(address: string, tag: char, word: string, blockSize: nat, rest: string, sp: seq<char>)
    requires |sp| == 5 && forall i | 0 <= i < 5 :: IsSpace(sp[i])
    requires Dword(address) && IsHexDigit(tag) && Dword(word)
    requires rest != [] && NoLineTerminator(rest)
    ensures ParseAvLine(AvLine(address, tag, word, BlockSizeField(blockSize), rest, sp), blockSize)
      == Some(HexValue(address))
  {
    BlockSizeFieldIsPadded(blockSize);
    MatchAvLineOf(address, tag, word, BlockSizeField(blockSize), rest, sp);
  }

  lemma MatchAvLineMatches(line: string, field: string, address: nat)
    requires MatchAvLine(line, field) == Some(address) && |field| == 8
    ensures |line| >= 39
    ensures Dword(line[..8])
    ensures Dword(line[20..28])
    ensures address == HexValue(line[..8])
    ensures line[38..] != [] && NoLineTerminator(line[38..])
    ensures line == AvLine(line[..8], line[18], line[20..28], field, line[38..],
                           [line[8], line[10], line[19], line[28], line[37]])
  {
    var h := line[..29];
    assert h[..8] == line[..8] && h[20..28] == line[20..28];
    var sp := [line[8], line[10], line[19], line[28], line[37]];
    var g := AvHeadText(line[..8], line[18], line[20..28], sp[..4]);
    assert |g| == 29;
    forall i | 0 <= i < 29 ensures g[i] == h[i] {
      if 11 <= i < 18 {
        assert h[11..18][i - 11] == h[i];
      }
    }
    assert g == h;
    assert line == h + (line[29..37] + ([line[37]] + line[38..]));
  }

  /** And every line matched is laid out that way: the size field it matched
      is the block size's, and nothing else. */
  lemma ParseAvLineMatches(line: string, blockSize: nat, address: nat)
    requires ParseAvLine(line, blockSize) == Some(address)
    ensures |line| >= 39 && Dword(line[..8]) && Dword(line[20..28]) && address == HexValue(line[..8])
    ensures line[38..] != [] && NoLineTerminator(line[38..])
    ensures line == AvLine(line[..8], line[18], line[20..28], BlockSizeField(blockSize), line[38..],
                           [line[8], line[10], line[19], line[28], line[37]])
    ensures HexValue(line[29..37]) == blockSize % Pow(16, 8)
  {
    BlockSizeFieldIsPadded(blockSize);
    BlockSizeFieldValue(blockSize);
    MatchAvLineMatches(line, BlockSizeField(blockSize), address);
  }

  /** How far the scan gets: (lines read, blocks matched). Reading the slot at
      `address + 0x20` of a matched block throws when the memory is not
      readable; the `catch` around the loop then ends the scan, after that
      line and that block were counted. */
  function AvScan(lines: seq<string>, re: string -> Option<nat>, readable: nat -> bool): (r: (nat, nat))
    ensures r.1 <= r.0 <= |lines|
  {
    if lines == [] then (0, 0)
    else
      match re(lines[0])
      case None =>
        var t := AvScan(lines[1..], re, readable);
        (t.0 + 1, t.1)
      case Some(address) =>
        if !readable(address + 0x20) then (1, 1)
        else
          var t := AvScan(lines[1..], re, readable);
          (t.0 + 1, t.1 + 1)
  }

  /** What the scan logs before the per-stack dumps. */
  function AvReport(matched: nat): seq<string> {
    ["Matched: 0x" + ToHex(matched) + " blocks\n",
     "-------------------------------------------------------------\n"]
  }

  /** `av_heap_alloc_stats(heap, blockSize)`: the lines read and the log up to
      the per-stack dumps. */
  method CollectAvHeapAllocationStats(lines: seq<string>, blockSize: nat, readable: nat -> bool)
    returns (lineCount: nat, log: seq<string>)
    ensures lineCount == AvScan(lines, line => ParseAvLine(line, blockSize), readable).0
    ensures log == AvReport(AvScan(lines, line => ParseAvLine(line, blockSize), readable).1)
  {
    var lineRE := line => ParseAvLine(line, blockSize);
    lineCount, log := CollectAvWith(lines, lineRE, readable);
  }

  /** The scan for a given `lineRE`. */
  method CollectAvWith(lines: seq<string>, lineRE: string -> Option<nat>, readable: nat -> bool)
    returns (lineCount: nat, log: seq<string>)
    ensures lineCount == AvScan(lines, lineRE, readable).0
    ensures log == AvReport(AvScan(lines, lineRE, readable).1)
  {
    var matched;
    lineCount, matched := ScanAv(lines, lineRE, readable);
    log := ["Matched: 0x" + ToHex(matched) + " blocks\n"];
    log := log + ["-------------------------------------------------------------\n"];
  }

  /** The loop over the `!heap -flt s` lines: the lines read and the blocks
      matched. */
  method ScanAv(lines: seq<string>, lineRE: string -> Option<nat>, readable: nat -> bool)
    returns (lineCount: nat, matched: nat)
    ensures (lineCount, matched) == AvScan(lines, lineRE, readable)
  {
    lineCount, matched := 0, 0;
    ghost var total := AvScan(lines, lineRE, readable);
    assert lines[0..] == lines;
    while lineCount < |lines|
      invariant lineCount <= |lines|
      invariant total.0 == lineCount + AvScan(lines[lineCount..], lineRE, readable).0
      invariant total.1 == matched + AvScan(lines[lineCount..], lineRE, readable).1
    {
      var line := lines[lineCount];
      var parsed := lineRE(line);
      AvScanStep(lines, lineCount, lineRE, readable, parsed);
      lineCount := lineCount + 1;
      if parsed.Some? {
        matched := matched + 1;
        if !readable(parsed.value + 0x20) {
          break;
        }
      }
    }
  }

  lemma AvScanStep(lines: seq<string>, k: nat, re: string -> Option<nat>, readable: nat -> bool, parsed: Option<nat>)
    requires k < |lines| && parsed == re(lines[k])
    ensures var t := AvScan(lines[k + 1..], re, readable);
      AvScan(lines[k..], re, readable)
        == if parsed.None? then (t.0 + 1, t.1)
           else if !readable(parsed.value + 0x20) then (1, 1)
           else (t.0 + 1, t.1 + 1)
  {
    assert lines[k..][1..] == lines[k + 1..];
  }

  /** The records `re` captures from `lines`, counted from the front. */
  lemma {:induction false} MatchesCons<R>(lines: seq<string>, re: string -> Option<R>)
    requires lines != []
    ensures Matches(lines, re)
      == (if re(lines[0]).Some? then [re(lines[0]).value] else []) + Matches(lines[1..], re)
  {
    if |lines| > 1 {
      var init := lines[..|lines| - 1];
      MatchesCons(init, re);
      assert init[1..] == lines[1..][..|lines[1..]| - 1];
    } else {
      assert lines[1..] == [];
      assert lines[..0] == [];
    }
  }

  /** When every block is readable the scan reads every line and matches
      exactly the lines `re` matches. */
  lemma {:induction false} AvScanReadable(lines: seq<string>, re: string -> Option<nat>, readable: nat -> bool)
    requires forall line | re(line).Some? :: readable(re(line).value + 0x20)
    ensures AvScan(lines, re, readable) == (|lines|, |Matches(lines, re)|)
  {
    if lines != [] {
      AvScanReadable(lines[1..], re, readable);
      MatchesCons(lines, re);
    }
  }

  /** A scan that stops early stops on a matched block whose slot cannot be
      read, and counts that line and that block. */
  lemma {:induction false} AvScanStops(lines: seq<string>, re: string -> Option<nat>, readable: nat -> bool)
    requires AvScan(lines, re, readable).0 < |lines|
    ensures var n := AvScan(lines, re, readable).0;
      n > 0 && re(lines[n - 1]).Some? && !readable(re(lines[n - 1]).value + 0x20)
  {
    var t := AvScan(lines[1..], re, readable);
    if re(lines[0]).Some? && !readable(re(lines[0]).value + 0x20) {
    } else {
      AvScanStops(lines[1..], re, readable);
      assert lines[1..][t.0 - 1] == lines[t.0];
    }
  }
}
