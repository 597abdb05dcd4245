# Heap statistics and stack repair for WinDbg and gdb, in Dafny

This project models three debugger scripts and proves properties of the model.

- `!fix_stack` (noexcept.js, `__FixStack`) repairs the call stack WinDbg prints
  after an exception escaped a function that must not throw:
  - it splits the `kb` listing into a trusted prefix, the exception-dispatch part and
    a pool of candidate frames keyed by frame pointer;
  - it follows the saved frame-pointer chain through `dds` dumps, printing a
    recovered frame per step, until the chain reaches a candidate, whose frames it
    prints from there on.
- `heap_alloc_stats` and `av_heap_alloc_stats` (memory.js) scan a page-heap block
  listing and count the leading dwords and qwords of the blocks, or the blocks of
  one size. Each counting map's eleven most frequent keys are printed with the key
  rendered as text.
- `heap_alloc_stats` for gdb (gdb/memory.py) walks the chunks of glibc's main
  arena. It counts the busy chunks and tallies the first four words of their user
  data, alone and as composite keys.

Modules:

| file | module | what |
|---|---|---|
| text.dfy | `Text` | ECMAScript `\s` and line terminators, hex digits, `startsWith`/`includes`, `toString(base)`, zero-padded hex, hex parsing |
| ordered_maps.dfy | `OrderedMaps` | insertion-ordered maps (JavaScript `Map`, Python `dict`) as values, the `AddItem` count, and the mutable `MapObject` |
| ranking.dfy | `Ranking` | the stable sort by decreasing count and the first eleven entries that get printed |
| hex_ascii.dfy | `HexAscii` | `hex2ascii` / `HexIntToAscii`: pairs read from the end, bytes, glyphs |
| fix_stack.dfy | `FixStack` | `__FixStack`: the three regular expressions, the listing pass, the walk and the splice |
| heap_stats.dfy | `HeapStats` | memory.js: `AddItem`, `hex2ascii`, `PrintTopStats`, both collectors |
| gdb_heap.dfy | `GdbHeap` | gdb/memory.py: `AlignAddress`, `Chunk`, `GetChunks`, `AddItem`, `HexIntToAscii`, `PrintTopStats`, `invoke` |

Modelling choices:

- **Debugger inputs.** The debugger is an input to the model.
  - The `kb` output and the heap listing are sequences of lines.
  - `dds` is a function from a pointer to the lines it prints.
  - The inferior's memory is a function from an address to the 64-bit word
    `ReadMemory_Int` reads there.
  - Readability of an address is a predicate.
- **Output.** What a script writes is the sequence of strings it passes to
  `debugLog` or `print`.
  - For memory.js the arguments are kept verbatim.
  - For noexcept.js and gdb/memory.py the trailing newline each call adds is dropped.
- **Statement for statement.** Code that updates variables in loops is modelled as
  methods with loops.
  - The `Map` and `dict` objects are instances of the class `OrderedMaps.MapObject`,
    which the methods update in place.
  - Each method is proved equal to a specification function.
  - The lemmas state what those functions mean.
- **Regular expressions.** They are modelled as functions that decide the match
  exactly, including how the greedy groups share characters.
  - Lemmas show which lines each expression accepts (the layout the debugger prints
    is read back unchanged).
  - Lemmas show what every accepted line looks like.

## Model

| member | source | states |
|---|---|---|
| Text.HexLenOfConcat | noexcept.js:37 | a greedy `[0-9A-Fa-f]+` run stops exactly where the hex digits stop |
| Text.HexLenHex | noexcept.js:37 | everything the greedy hex run consumes is a hex digit |
| Text.HexEndHex | noexcept.js:37 | the run of hex digits measured from any position consists of hex digits |
| Text.SpaceLenOfConcat | noexcept.js:37 | a greedy `\s+` run stops exactly where the whitespace stops |
| Text.LineTerminatorIsSpace | noexcept.js:37 | every character `.` refuses (a line terminator) is matched by `\s` and is not a hex digit |
| Text.ToBase | memory.js:162 | `toString(base)` of a non-negative number is a non-empty string of digits |
| Text.HexRoundTrip | memory.js:162 | `parseInt(n.toString(16), 16) == n`: the hex numeral reads back as the number |
| Text.PadHexValue | gdb/memory.py:215 | a fixed-width hex field (`"{:016x}"`) reads back as the number modulo 16^width |
| Text.HexValueOfConcat | gdb/memory.py:219 | reading a concatenation of hex fields weighs the left field by 16^(length of the right) |
| Text.ToHexSuffix | memory.js:133 | the last `width` digits of `toString(16)` are the fixed-width field of the number |
| Text.PadHexWide | memory.js:133 | a fixed-width field wider than `toString(16)` is that numeral with zeros in front |
| Text.ZeroPad | memory.js:133 | the field of zero is all zeros |
| Text.DigitValueOfChar | memory.js:186 | each printed digit parses back to its value |
| OrderedMaps.OrderedMap.Set | memory.js:121-123 | `map.set` keeps keys unique and listed exactly once each |
| OrderedMaps.SetKeepsPosition | memory.js:120-124 | setting a key changes only that key's value; an existing key keeps its place in iteration order, a new key goes last |
| OrderedMaps.Find | noexcept.js:162 | the position found is the first at which the key occurs |
| OrderedMaps.OrderedMap.IndexOf | noexcept.js:155-166 | the position of a present key in iteration order holds that key |
| OrderedMaps.TallyCounts | memory.js:118-125 | after `AddItem` once per element, a key is present exactly when it occurred, and its count is its number of occurrences |
| OrderedMaps.TallyTotal | gdb/memory.py:148-152 | the counts of a tally add up to the number of keys tallied |
| OrderedMaps.IncrementTotal | gdb/memory.py:148-152 | every `AddItem` call adds exactly one to the sum of the counts |
| OrderedMaps.TallyKeys | memory.js:237-242 | whatever holds of every tallied key holds of every key of the map |
| OrderedMaps.MapObject.Set | memory.js:121 | `map.set` / `d[k] = v` on the object replaces its contents with the ordered-map update |
| OrderedMaps.SetSome | noexcept.js:99 | definition of one optional `map.set(k, line)`: the map unchanged when there is no key, otherwise set; the result is a valid ordered map |
| OrderedMaps.SetSomeEntry | noexcept.js:99 | after an optional set, a key is present exactly when it was or is the key set; the key set holds the new value, every other key its old one |
| OrderedMaps.SetSomeIndex | noexcept.js:99 | an optional set keeps every present key at its place in iteration order |
| OrderedMaps.SetSomeNew | noexcept.js:99 | setting a new key puts it last in iteration order |
| OrderedMaps.SetEach | noexcept.js:82-101 | definition of a map filled by `map.set(key(v), v)` for each element in turn, skipping elements without a key; the result is a valid ordered map |
| OrderedMaps.SetEachFromSteps | noexcept.js:82-101 | any sequence of maps that starts empty and sets one element at a time ends in the filled map |
| OrderedMaps.SetEachHas | noexcept.js:99 | a key of some element is in the filled map |
| OrderedMaps.SetEachGiven | noexcept.js:99 | every key of the filled map is the key of some element |
| OrderedMaps.SetEachKeys | noexcept.js:82-101 | a key is in the filled map exactly when some element has that key |
| OrderedMaps.SetEachValueKeyed | noexcept.js:99 | the value of every key is one of the elements, and that element has that key |
| OrderedMaps.SetEachLatest | noexcept.js:99 | the value of a key is the last element with that key: a later `set` overwrites an earlier one |
| OrderedMaps.SetEachFresh | noexcept.js:99 | a key no element has is absent |
| OrderedMaps.SetEachOrder | noexcept.js:82-101 | keys are iterated in the order of their first occurrence: a key first set earlier comes earlier, and conversely |
| OrderedMaps.SetEachAppends | noexcept.js:99 | the key of the last element, when new, goes after every key already present |
| OrderedMaps.SetEachKeeps | noexcept.js:99 | one more element keeps the place of every key already present |
| Ranking.RankSorted | memory.js:200 | the ranking is sorted by decreasing count and is a permutation of the entries |
| Ranking.RankStable | gdb/memory.py:163 | the sort is stable: entries of equal count keep their map order |
| Ranking.InsertDescending | gdb/memory.py:163 | inserting an entry into a sorted ranking keeps it sorted |
| Ranking.InsertPermutation | gdb/memory.py:163 | inserting adds exactly that entry |
| Ranking.InsertWithCount | gdb/memory.py:163 | an inserted entry goes after the entries of its own count |
| Ranking.TopAreLargest | memory.js:203-209 | at most eleven entries are printed, the first ones of the ranking, none with a smaller count than an entry left out |
| Ranking.TopOfRank | gdb/memory.py:164-169 | the printed entries are entries of the map, counts never increasing, and no entry left out has a larger count |
| Ranking.TopEntries | memory.js:196-210 | what `PrintTopStats` prints of a map: min(size, 11) entries of the map with their counts, descending, and no key left out outranks a printed one |
| Ranking.RankKeys | memory.js:200 | the ranking holds only keys of the map |
| Ranking.EntryOf | memory.js:200 | every entry of `[...this.entries()]` is a key of the map with its count |
| Ranking.EntryFor | memory.js:200 | every key of the map is listed by `[...this.entries()]` with its count |
| Ranking.Rank | memory.js:200 | definition of the stable sort by decreasing count, as insertion of each entry after those of at least its count |
| Ranking.Top | memory.js:203-209 | definition of the printed entries, the first eleven; at most eleven |
| Ranking.TopKeysHex | memory.js:205 | every ranked and printed key of a map with hex keys is a hex numeral |
| HexAscii.PairsFromEnd | memory.js:185-186 | the pairs are read from the end; a key of length n gives n/2 bytes (rounded down) |
| HexAscii.PairsAt | memory.js:185-186 | the k-th byte comes from the k-th pair counted from the end |
| HexAscii.PairsOddLength | gdb/memory.py:155-156 | an odd-length key renders as if its leading digit were absent |
| HexAscii.PairsSplit | memory.js:185 | the pairs of a key with an even-length tail are the tail's pairs followed by the rest's |
| HexAscii.PairsAreLittleEndian | memory.js:185-191 | an even-length key renders the bytes of its value least significant first, the order of a little-endian word in memory |
| HexAscii.LastPairValue | memory.js:186 | each pair is parsed as a two-digit hex number |
| HexAscii.GlyphsDisagreeOnlyAt21 | memory.js:187-191 | the two scripts' glyph choices differ exactly on byte 21: memory.js tests `code < 21`, gdb/memory.py `i > 21` |
| HexAscii.Glyphs | memory.js:187-191 | one glyph per byte |
| HexAscii.Render | memory.js:185-191 | definition of a key rendered as text: one glyph per byte of its pairs read from the end |
| HexAscii.JsGlyph | memory.js:187-191 | definition of memory.js's glyph: `.` below 21, otherwise the character with that code |
| HexAscii.PyGlyph | gdb/memory.py:157 | definition of gdb/memory.py's glyph: the character above 21, otherwise `.` |
| HeapStats.AddItem | memory.js:118-125 | the map's new contents are the old ones with the key's count incremented, a new key starting at one at the end |
| HeapStats.Hex2Ascii | memory.js:181-194 | the loop from `hex.length - 2` down by two produces the rendering of the key with memory.js's glyphs |
| HeapStats.NextPair | memory.js:185-186 | the pair at `i` is one byte and is read after those nearer the end |
| HeapStats.LeadingDigit | memory.js:185 | when the loop ends, at most the leading digit is left unread |
| HeapStats.PrintTopStats | memory.js:196-210 | the log is one line per entry of the first eleven of the ranking, `key "text": count` |
| HeapStats.StatLines | memory.js:205 | one line per printed entry |
| HeapStats.ParseHeapLine | memory.js:222 | every match captures four eight-digit dwords |
| HeapStats.ParseHeapLineOf | memory.js:222 | every line laid out as the pattern describes (8-16 digit address, `b`/`B`, four dwords, a rest) is matched with its dwords unchanged |
| HeapStats.ParseHeapLineLaidOut | memory.js:222 | conversely, every matched line is laid out so: an 8-16 digit hex address, `b` or `B`, the four dwords, a non-empty rest without line terminators, each separated by one whitespace character |
| HeapStats.DwordsLaidOut | memory.js:222 | every read of `count` dwords is those dwords each followed by one whitespace character, then the rest |
| HeapStats.Dwords | memory.js:222 | each `([0-9A-Fa-f]{8})\s` group reads exactly eight hex digits |
| HeapStats.DwordsOf | memory.js:222 | dwords separated by whitespace are read back unchanged |
| HeapStats.Matches | memory.js:228-233 | the captures are taken from the matching lines only, in order |
| HeapStats.MatchesCons | memory.js:228-233 | the captures of a listing are those of its first line followed by those of the rest |
| HeapStats.MatchesWellFormed | memory.js:232-243 | every record fed to the maps has four eight-digit dwords |
| HeapStats.ColumnKeysHex | memory.js:237-242 | every key of the six maps is a hex numeral |
| HeapStats.ColumnStats | memory.js:213-218 | each column's map is a valid ordered map |
| HeapStats.KeysAt | memory.js:237-242 | the i-th key of a column is the key the i-th record adds |
| HeapStats.KeyOf | memory.js:237-242 | definition of the key a record adds to each of the six maps: the dword, or the higher dword then the lower one |
| HeapStats.ColumnStep | memory.js:237-242 | one more matching line increments each map by its key |
| HeapStats.AddRecord | memory.js:237-242 | the six `AddItem` calls: each map is incremented by the record's key for it; qwords are `parsed[2] + parsed[1]` and `parsed[4] + parsed[3]` |
| HeapStats.CountLines | memory.js:227-248 | every line is counted; the match count is the number of matching lines; each map is the tally of its column over them |
| HeapStats.CollectWith | memory.js:212-267 | for any pattern whose matches are dword records: returns the line count and logs the match count then the six sections |
| HeapStats.CollectHeapAllocationStats | memory.js:212-267 | `heap_alloc_stats` returns the number of lines and logs the report of the matched records |
| HeapStats.LogReport | memory.js:250-265 | the log after the loop: `Matched: 0x<hex>`, then each heading and its top entries |
| HeapStats.LogSection | memory.js:252-263 | one heading followed by the top entries of its map |
| HeapStats.ColumnCount | memory.js:237-242 | each map's count of a key is the number of matched blocks with that key in that column, and only such keys are present |
| HeapStats.ColumnTotal | memory.js:237-242 | the counts of every map add up to the number of matched blocks |
| HeapStats.QwordKey | memory.js:241-242 | a qword key is the high dword then the low: as a number `high * 2^32 + low`, rendered with the low dword's bytes first |
| HeapStats.QwordColumns | memory.js:241-242 | the qword columns of a record are its dword pairs, high first, with those values |
| HeapStats.BlockSizeField | memory.js:133 | definition of `('0000000' + blockSize.toString(16)).slice(-8)` |
| HeapStats.BlockSizeFieldIsPadded | memory.js:133 | `('0000000' + blockSize.toString(16)).slice(-8)` is the block size in eight hex digits, zero-padded or cut to the low 32 bits |
| HeapStats.BlockSizeFieldValue | memory.js:133 | the size field reads back as the block size modulo 2^32 |
| HeapStats.MatchAvLine | memory.js:133-135 | definition of the block pattern with a given size field, matched part by part at fixed widths; the result is the address `parseInt64(parsed[1], 16)` |
| HeapStats.ParseAvLine | memory.js:133-135 | definition of the block pattern built from `blockSize` |
| HeapStats.ParseAvLineOf | memory.js:133-135 | every block line laid out as the pattern for `blockSize` describes is matched, with the address read from its first field |
| HeapStats.MatchAvLineOf | memory.js:133-135 | the pattern with any eight-character size field accepts lines laid out so |
| HeapStats.AvHeadOf | memory.js:133 | the fixed 29-character head of the pattern accepts its layout and keeps the address in front |
| HeapStats.MatchAvLineMatches | memory.js:133-149 | every matched line has that layout, and the result is the value of its first field |
| HeapStats.ParseAvLineMatches | memory.js:133-149 | every matched line has that layout with the block size's field, whose value is the block size modulo 2^32 |
| HeapStats.AvScan | memory.js:138-160 | the scan reads at most all lines and matches at most as many blocks as lines |
| HeapStats.AvScanStep | memory.js:140-153 | one line: unmatched, counted; matched and readable, counted and matched; matched and unreadable, the `catch` ends the scan after counting it |
| HeapStats.AvScanReadable | memory.js:138-160 | with every matched block readable, every line is read and exactly the matching lines are counted |
| HeapStats.AvScanStops | memory.js:138-160 | a scan that stops early stops on a matched block whose slot at `+0x20` cannot be read, having counted that line and block |
| HeapStats.ScanAv | memory.js:137-160 | the loop's line count and match count are the scan's |
| HeapStats.CollectAvWith | memory.js:127-178 | for any pattern, returns the scan's line count and logs the match count line and the separator |
| HeapStats.CollectAvHeapAllocationStats | memory.js:127-178 | `av_heap_alloc_stats` with the pattern built from `blockSize` returns the lines read and logs the number of blocks matched |
| FixStack.HexFields | noexcept.js:37 | `count` groups `\s+([0-9A-Fa-f]+)` read exactly `count` fields |
| FixStack.HexFieldsHex | noexcept.js:37 | every field read is a non-empty run of hex digits |
| FixStack.HexFieldHex | noexcept.js:37 | one `\s+([0-9A-Fa-f]+)` field is a non-empty run of hex digits |
| FixStack.HexFieldOf | noexcept.js:37 | a space and a hex run followed by a non-digit are read as that field |
| FixStack.HexFieldsOf | noexcept.js:37 | fields printed one space apart are read back by as many groups |
| FixStack.ParseFrame | noexcept.js:37 | definition of `lineRE`: a 1-4 digit index, five greedy hex fields each after whitespace, and the symbol after the last whitespace |
| FixStack.FrameSymbol | noexcept.js:37 | `\s+(.+)$` captures a non-empty rest of the line without line terminators |
| FixStack.ParseFrameOf | noexcept.js:37 | a line with a 1-4 digit index, five hex fields and a symbol after one space is accepted with these groups |
| FixStack.ParsedFrame | noexcept.js:37 | every accepted line has a 1-4 digit hex index, five non-empty hex fields and a non-empty one-line symbol |
| FixStack.ParseFrameParts | noexcept.js:37 | where each group of an accepted line comes from: the leading hex run, the five fields, the symbol after the whitespace |
| FixStack.ParseFrameText | noexcept.js:37 | reading a frame as the debugger prints it gives the frame back |
| FixStack.NextFramePointer | noexcept.js:128-135 | definition of `ebpRE` on the first `dds` line: its second hex field |
| FixStack.NextSymbol | noexcept.js:172-180 | definition of `symRE` on the second `dds` line: its second hex field and the text after the whitespace that follows |
| FixStack.NextFramePointerOf | noexcept.js:128-135 | `ebpRE` reads the second field of the first `dds` line, the saved frame pointer |
| FixStack.NextSymbolOf | noexcept.js:172-180 | `symRE` reads the return address and the symbol back from the second `dds` line |
| FixStack.NextSymbolParts | noexcept.js:113 | `symRE` on a line whose parts are read so gives that address and the text after the whitespace |
| FixStack.AddCandidate | noexcept.js:82-100 | mode 2 keeps the candidate map valid |
| FixStack.Step | noexcept.js:44-101 | one iteration of the listing loop keeps the candidate map valid |
| FixStack.SegmentListing | noexcept.js:36-102 | the loop over `kb` leaves the mode, `warningFound`, `prevEBP`, the log and a fresh `linesMap` as the fold of the step over the listing |
| FixStack.Segment | noexcept.js:42-102 | definition of the loop variables after the whole listing: the fold of one step per line from mode 0, with an empty map |
| FixStack.PrefixLine | noexcept.js:44-72 | mode 0 on one line: the warning is noted, the marker switches to mode 1 or 2, any other line is logged and sets `prevEBP` when it is a frame line |
| FixStack.CandidateLine | noexcept.js:81-101 | mode 2 on one line: `linesMap` is updated as `AddCandidate` says |
| FixStack.FirstWarning | noexcept.js:46 | the index of the first warning line: no earlier line holds the warning |
| FixStack.MarkerFrom | noexcept.js:51 | the first marker line from a position, skipping the first warning line |
| FixStack.StateStep | noexcept.js:44-101 | one line keeps the loop variables as the positions of the first warning and of the marker predict |
| FixStack.SegmentState | noexcept.js:42-102 | after any number of lines, the variables are those the positions of the first warning and of the marker predict |
| FixStack.SegmentResult | noexcept.js:42-108 | after the pass the log is the trusted prefix, `prevEBP` is the frame pointer of its last frame line, `warningFound` holds exactly when some line holds the warning, and the map holds the candidates after the warning and the marker |
| FixStack.StepLog | noexcept.js:64-70 | a step either leaves the log and `prevEBP` alone or logs the line and takes its frame pointer when `lineRE` accepts it |
| FixStack.LastFramePointerSnoc | noexcept.js:66-70 | logging a frame line moves the last frame pointer to it; another line leaves it |
| FixStack.PrevEbpStep | noexcept.js:64-70 | one step keeps `prevEBP` the frame pointer of the last frame line logged |
| FixStack.PrevEbpTracksLog | noexcept.js:42-102 | `prevEBP` is always the frame pointer of the last frame line logged |
| FixStack.NoFramePointer | noexcept.js:104 | `prevEBP` stays empty exactly when no logged line is a frame line |
| FixStack.ModesMoveForward | noexcept.js:44-80 | modes only move forward, and mode 0 goes straight to mode 2 only once the warning was seen |
| FixStack.AddCandidateKept | noexcept.js:83-99 | mode 2 stores a line only under its own frame pointer, and only when it is an accepted frame with a symbol not skipped |
| FixStack.KeptPointer | noexcept.js:83-99 | definition of the key mode 2 stores a line under: its frame pointer, when `lineRE` accepts it and its symbol is neither unsymbolised nor a dispatcher frame |
| FixStack.Collect | noexcept.js:82-101 | definition of the candidate map built by mode 2 from a range of lines; a valid ordered map |
| FixStack.AddCandidateSetSome | noexcept.js:83-99 | mode 2 on one line is an optional `linesMap.set` under the line's kept pointer |
| FixStack.CollectSetEach | noexcept.js:82-101 | the candidates from a range of lines are the map filled by setting each line under its kept pointer, in order |
| FixStack.CandidatesFilled | noexcept.js:42-102 | the candidate map after the listing is the map filled from the lines after the warning and the marker |
| FixStack.CandidateKey | noexcept.js:82-101 | a frame pointer is a candidate exactly when some line after the warning and the marker is a kept frame line under it |
| FixStack.CandidateValue | noexcept.js:83-99 | every candidate is a line after the warning and the marker, and a kept frame line stored under its own frame pointer; no unsymbolised (`0x`) or dispatcher frame is a candidate |
| FixStack.CandidateLatest | noexcept.js:99 | the candidate under a frame pointer is the last kept line with that pointer: a later line overwrites an earlier one |
| FixStack.CandidateOrder | noexcept.js:82-101 | candidates are iterated in the order their frame pointers first occur among the lines |
| FixStack.IsAllZero | noexcept.js:136-143 | the letter loop reports zero exactly when every letter is `0` |
| FixStack.NotStackBase | noexcept.js:136-146 | a pointer that is not all zeros is not the stack base |
| FixStack.PrintFrom | noexcept.js:152-168 | the entries loop prints exactly the values from the hit key's entry to the last, in insertion order |
| FixStack.PrintEntriesFrom | noexcept.js:155-167 | over the entry list, the loop prints the values from the first entry with the key onwards |
| FixStack.WalkStep | noexcept.js:116-180 | definition of one iteration of the walk: the recovered frame, then a stop on a short dump, an unreadable pointer, an all-zero pointer, a candidate hit or an unreadable symbol, or a continuation to the new pointer |
| FixStack.Run | noexcept.js:114-181 | definition of the walk loop: it stops at `00000000` before dumping, and otherwise does what the body decides, for at most `fuel` iterations |
| FixStack.WalkFrom | noexcept.js:110-181 | definition of the walk from a start pointer with no address or caller yet |
| FixStack.WalkIteration | noexcept.js:116-180 | the loop body: what it logs, and either why the walk stops or the next pointer, address and caller, as `WalkStep` decides |
| FixStack.Walk | noexcept.js:110-181 | the walk loop logs and ends as the walk from the start pointer does, within `fuel` iterations |
| FixStack.RunContinue | noexcept.js:114-181 | an iteration that goes on continues the walk from the new state with its lines logged |
| FixStack.RunLog | noexcept.js:114-181 | the walk appends to the log and never rewrites it |
| FixStack.WalkStepShaped | noexcept.js:116-180 | each iteration logs at most its recovered frame, then the error line or the spliced frames when it stops, and goes on only to a pointer that is not all zeros |
| FixStack.BodyShaped | noexcept.js:116-180 | every iteration of the script's body is shaped so |
| FixStack.SynthRecovered | noexcept.js:116-119 | an iteration prints at most one recovered frame |
| FixStack.RunStepContinue | noexcept.js:114-181 | an iteration that goes on puts its lines in front of the rest of the walk |
| FixStack.RecoveredThenMore | noexcept.js:116-119 | a log of at most n recovered frames then a tail is one of at most n + 1 |
| FixStack.RecoveredCons | noexcept.js:116-119 | one more iteration adds at most one recovered frame in front |
| FixStack.RunRecovered | noexcept.js:114-181 | a walk of shaped iterations logs at most one recovered frame per iteration, then what its end calls for |
| FixStack.StopRecovered | noexcept.js:122-176 | an iteration that stops logs at most its recovered frame and what its end calls for |
| FixStack.ContinueRecovered | noexcept.js:116-180 | an iteration that goes on adds at most one recovered frame in front of the rest |
| FixStack.RunEnds | noexcept.js:114-169 | a walk of shaped iterations splices only at a candidate that is not all zeros, and stops at the stack base exactly when it starts there |
| FixStack.WalkShape | noexcept.js:110-181 | the script's walk logs at most one recovered frame per iteration, then the error line or the candidate frames from the splice point; it splices only at a candidate that is not all zeros; the loop condition stops it only when it starts at `00000000` |
| FixStack.RunSelfLoop | noexcept.js:114-181 | a walk whose dump keeps giving the same pointer back never ends by itself; it logs one line per iteration that has a caller |
| FixStack.RunSelfLoopLines | noexcept.js:116-119 | every line such a walk logs is the same recovered frame |
| FixStack.WalkStepContinues | noexcept.js:121-180 | an iteration at a pointer whose dump gives a new pointer that is neither all zeros nor a candidate, and a symbol, goes on to it |
| FixStack.SelfLoop | noexcept.js:114-181 | with a `dds` dump that gives the same frame pointer back, the walk has no cycle guard: it runs until the fuel ends, logging the same recovered frame |
| FixStack.ReconstructResult | noexcept.js:34-184 | the command logs the trusted prefix, then returns 1 with `Error: nothing to fix` exactly when no line holds the warning or no trusted line is a frame line, and otherwise returns 0 after the walk from the last trusted frame pointer over the candidates |
| FixStack.FixStackCommand | noexcept.js:34-184 | the method's log and return value are those of `Reconstruct` |
| FixStack.Reconstruct | noexcept.js:34-184 | definition of the command: the trusted prefix, then `Error: nothing to fix` and 1, or the walk and 0 |
| GdbHeap.PyMod | gdb/memory.py:43 | Python's `%` takes the sign of the divisor, is smaller than it in magnitude, and leaves a multiple of it: `(a - a % n) % n == 0` |
| GdbHeap.AlignAddress | gdb/memory.py:42-43 | definition of `address + ((align - (address % align)) % align)`, with `ZeroDivisionError` for a zero alignment |
| GdbHeap.AlignAddressAligns | gdb/memory.py:42-43 | for a positive alignment the result is a multiple of it in `[address, address + align)`, the address itself when already aligned |
| GdbHeap.AlignAddressLeast | gdb/memory.py:42-43 | and it is the least multiple of the alignment at or above the address |
| GdbHeap.SizeWordFields | gdb/memory.py:97-127 | the size word is the size, a multiple of eight, plus the A, M and P bits |
| GdbHeap.UserSize | gdb/memory.py:101-108 | definition of `user_size`: zero for a zero size, the size less two words for an mmapped chunk, less one word otherwise |
| GdbHeap.Busy | gdb/memory.py:129-133 | definition of `busy`: the M bit, or else the next chunk's P bit |
| GdbHeap.UserSizeBounds | gdb/memory.py:101-108 | the user size is a multiple of eight and, for a chunk with a size, between sixteen and eight bytes less than the size |
| GdbHeap.ChunkAddrs | gdb/memory.py:135-145 | the walk yields at least the chunk at the heap base, first |
| GdbHeap.GetChunks | gdb/memory.py:135-145 | the loop yields exactly the chunk bases of the walk from the heap base to the arena top |
| GdbHeap.ChunkAddrsStep | gdb/memory.py:141-145 | a chunk with a size whose successor lies below the top is followed by the walk from the successor |
| GdbHeap.ChunkAddrsLast | gdb/memory.py:141-145 | a chunk of size zero, or whose successor reaches the top, is the last one yielded |
| GdbHeap.ChunkWalk | gdb/memory.py:135-145 | the walk starts at the heap base, each step advances by the size of the chunk it leaves to a base below the top, and it ends on a chunk of size zero or whose successor reaches the top |
| GdbHeap.ChunkAddrsIncreasing | gdb/memory.py:135-145 | chunks are yielded at strictly increasing addresses, so none twice |
| GdbHeap.AddItem | gdb/memory.py:148-152 | a key `d.get` does not find starts at one at the end of iteration order; any other gets one more |
| GdbHeap.Twixes | gdb/memory.py:154-157 | definition of `SplitStringIntoTwixes`: for `pos` from the length down by two while above 1, the glyph of the pair ending at `pos` |
| GdbHeap.HexIntToAscii | gdb/memory.py:159-160 | definition of `HexIntToAscii` as the twixes from the end of the key |
| GdbHeap.TwixesRender | gdb/memory.py:154-157 | `SplitStringIntoTwixes` from any position renders the prefix up to it with Python's glyphs |
| GdbHeap.HexIntToAsciiRenders | gdb/memory.py:159-160 | `HexIntToAscii` is the same pair-from-the-end rendering as memory.js's `hex2ascii`, with Python's glyph |
| GdbHeap.RenderingsDiffer | gdb/memory.py:157 | both renderings have one glyph per pair, and differ exactly at the bytes equal to 21 |
| GdbHeap.PairsOfPrefix | gdb/memory.py:155-156 | the pairs of a prefix are its last pair, then the pairs before it |
| GdbHeap.StatLines | gdb/memory.py:166 | one printed line per entry |
| GdbHeap.PrintTopStats | gdb/memory.py:162-169 | the prints are one line per entry of the first eleven of the ranking, `key - 'text': count` |
| GdbHeap.ReadsWords | gdb/memory.py:194-214 | a chunk is skipped exactly when its user size is below 8; otherwise word n is read from the user data exactly when the user size reaches 8(n+1), and stays 0 otherwise |
| GdbHeap.ReadWords | gdb/memory.py:194-214 | the tiered reads return the words of `Reads`, or skip the chunk |
| GdbHeap.Reads | gdb/memory.py:194-214 | definition of the tiered reads: four, three, two or one words as the user size reaches 32, 24, 16 or 8 bytes, none below |
| GdbHeap.IntKeys | gdb/memory.py:215-221 | one key per sample |
| GdbHeap.IntKeysAt | gdb/memory.py:215-221 | the i-th key of a dictionary is the key the i-th sample adds |
| GdbHeap.IntKeysHex | gdb/memory.py:215-221 | every key of the seven dictionaries is a hex numeral |
| GdbHeap.IntKey | gdb/memory.py:215-221 | definition of the key a sample adds to each of the seven dictionaries: a word as `{:016x}`, composites highest word first |
| GdbHeap.IntStats | gdb/memory.py:182-188 | each dictionary is a valid ordered map |
| GdbHeap.BusyCount | gdb/memory.py:191-193 | no more chunks are busy than are walked |
| GdbHeap.Samples | gdb/memory.py:191-214 | no more chunks are sampled than are busy |
| GdbHeap.ChunkStep | gdb/memory.py:191-214 | one more chunk adds one to the busy count when busy, and a sample when busy with room for a word |
| GdbHeap.IntColumnStep | gdb/memory.py:215-221 | one more sample increments each dictionary by its key |
| GdbHeap.SampleKeys | gdb/memory.py:215-221 | the seven keys of one sample: the words formatted, composites highest word first |
| GdbHeap.AddWords | gdb/memory.py:215-218 | the first four `AddItem` calls increment each dictionary by its word's key |
| GdbHeap.AddComposites | gdb/memory.py:219-221 | the last three `AddItem` calls increment each dictionary by its composite key |
| GdbHeap.CountChunks | gdb/memory.py:189-221 | the loop counts the busy chunks, and each dictionary is the tally of its key over the sampled chunks |
| GdbHeap.PrintReport | gdb/memory.py:222-237 | the prints after the loop: the busy count, then each heading and its top entries |
| GdbHeap.PrintSection | gdb/memory.py:224-237 | one heading followed by the top entries of its dictionary |
| GdbHeap.Invoke | gdb/memory.py:177-237 | `invoke` prints only the no-program message when the pid is 0, and otherwise the busy count and the seven sections for the chunks of the walk |
| GdbHeap.HeapAllocStats | gdb/memory.py:177-237 | definition of what `heap_alloc_stats` prints: the no-program message for pid 0, otherwise the report over the chunk walk |
| GdbHeap.IntCount | gdb/memory.py:215-221 | a dictionary's count of a key is the number of sampled chunks with that key, and only such keys are present |
| GdbHeap.IntTotal | gdb/memory.py:191-221 | each dictionary's counts add up to the number of sampled chunks, which is at most the busy count, which is at most the number of chunks |
| GdbHeap.FormatValue | gdb/memory.py:215 | `"{:016x}"` prints a word as sixteen digits that read back as the word |
| GdbHeap.FormatBytes | gdb/memory.py:215 | a formatted word renders its bytes in memory order |
| GdbHeap.WordsValue | gdb/memory.py:219-221 | digits followed by sixteen more read as the first part times 2^64 plus the second |
| GdbHeap.DoubleKeyValue | gdb/memory.py:219-220 | a double key is the higher word times 2^64 plus the lower |
| GdbHeap.DoubleKeyBytes | gdb/memory.py:219-220 | a double key renders the lower word's bytes first, as the words lie in memory |
| GdbHeap.QuadKeyValue | gdb/memory.py:221 | the quad key reads as the four words, highest first |
| GdbHeap.QuadKeyBytes | gdb/memory.py:221 | the quad key renders the 32 bytes of user data in memory order |

## Left out

- **Debugger I/O is not modelled.** `ExecuteCommand`, `debugLog`, `print`, `readMemoryValues`, `ReadMemory_Int`
  and gdb's `parse_and_eval` are replaced by their results, given as parameters.
  - The heap base, the arena top and the pid are inputs.
  - `FindHeapBase`, `FindMainArena`, `GetMainArena`, `Arena`, `LookupType` and `CastULong` are not part of this model.
- `GetDataForProcessing` and its cache file are not modelled. The listing it returns is the input, and the
  write errors it reports are not logged.
- `__CollectAvHeapAllocationStats`, beyond the scan:
  - `readMemoryValues` at `address + 0x20` is modelled only as readable or not. The value it reads is unknown.
  - So the `Int64`-keyed map of stack pointers, its ranking and the `dds` dump printed per stack are not modelled.
  - The log ends after the separator line.
- HeapStats.CollectAvHeapAllocationStats: `blockSize` is a natural number. The script also accepts negative
  or fractional values, whose `toString(16)` has a sign or a point.
- The `catch` around the memory.js loops is modelled only where something can throw:
  - the memory read of the AV scan;
  - the heap scan has no read, so it always reads every line.
- Concurrency, generator laziness and `lru_cache` are not modelled.
  - `GetChunks` yields lazily; the model returns the whole list of chunk bases.
  - Caching does not change what is read, since memory does not change during a command.
- FixStack.Walk: the script's walk has no bound, and with a cycle in the frame-pointer chain it never ends.
  - The model bounds it by a `fuel` number of iterations and ends with `OutOfFuel` when that runs out.
  - FixStack.SelfLoop proves that a cycle keeps the walk going until the fuel ends.
- The `initializeScript` registrations, the gdb `Command` registration and the Python version check are not
  modelled. They only bind the commands to their names.
- Chunk fields: `prev_chunk_size` and the A bit are modelled but used by nothing in the core.
- The sort: JavaScript's `Array.prototype.sort` has been required to be stable since ECMAScript 2019. The model
  uses the same stable ranking for both scripts.
- Hex2Ascii and HexIntToAscii require the key to be hex digits. All their callers pass keys captured by a hex
  pattern or formatted with `{:016x}`. `parseInt` and `int` on other input (NaN, `ValueError`) are not modelled.
- Character encoding: strings are sequences of UTF-16 code units (JavaScript) or code points (Python), modelled as
  `char`. `String.fromCharCode` and `chr` of a byte are that character.
- No cycle guard: the walk stops only at `00000000`, an all-zero saved pointer, a candidate hit or a parse
  error; a repeated frame pointer is not detected. FixStack.SelfLoop proves the consequence.
