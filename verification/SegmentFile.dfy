/** One segment: records appended to a file in any index order, found again by index, and recovered after a crash. */
module SegmentFiles {
  import opened Core
  import opened RecordFormat
  import Views = Segments

  /** Where the record of an index lies in the file. */
  datatype Span = Span(start: int, end: int, term: int)

  datatype LoadStatus = Loaded | Corrupted | DataLost | Hung

  /** The records appended to a segment, the latest outermost. */
  datatype Journal = Empty | Then(before: Journal, r: Record)

  ghost function Size(j: Journal): (n: nat) {
    if j.Empty? then 0 else Size(j.before) + HEADER_SIZE + |j.r.data|
  }

  /** The bytes of the records one after another, for any encoding of a single one. */
  ghost function FileOf(j: Journal, enc: Record -> Bytes): (b: Bytes) {
    if j.Empty? then [] else FileOf(j.before, enc) + enc(j.r)
  }

  /** Later records of an index replace earlier ones. */
  ghost function SpansOf(j: Journal): (m: map<int, Span>) {
    if j.Empty? then map[] else SpansOf(j.before)[j.r.index := Span(Size(j.before), Size(j), j.r.term)]
  }

  ghost function LastOf(first: int, j: Journal): (i: int) {
    if j.Empty? then first - 1 else
      var i := LastOf(first, j.before);
      if j.r.index > i then j.r.index else i
  }

  ghost function LastRecord(j: Journal, index: int): (r: Option<Record>) {
    if j.Empty? then None else if j.r.index == index then Some(j.r) else LastRecord(j.before, index)
  }

  ghost predicate AreRecords(first: int, j: Journal) {
    j.Then? ==> AreRecords(first, j.before) && IsRecord(j.r) && first <= j.r.index < first + CAPACITY
  }

  /** `i` is what the journal was at some time. */
  ghost predicate Within(i: Journal, j: Journal) {
    i == j || (j.Then? && Within(i, j.before))
  }

  /** The record that came after `i`. */
  ghost function NextRecord(i: Journal, j: Journal): (r: Record)
    requires Within(i, j) && i != j
    ensures Within(Then(i, r), j)
  {
    if i == j.before then j.r else NextRecord(i, j.before)
  }

  /** The records that lie wholly within the first `n` bytes. */
  ghost function Complete(j: Journal, n: nat): (i: Journal) {
    if Size(j) <= n || j.Empty? then j else Complete(j.before, n)
  }

  lemma {:induction false} SizeGrows(i: Journal, j: Journal)
    requires Within(i, j)
    ensures Size(i) <= Size(j)
  {
    if i == j {
    } else {
      SizeGrows(i, j.before);
    }
  }

  lemma {:induction false} CompleteIsWithin(j: Journal, n: nat)
    ensures Within(Complete(j, n), j) && Size(Complete(j, n)) <= n
  {
    if Size(j) <= n {
    } else {
      CompleteIsWithin(j.before, n);
    }
  }

  ghost predicate Sized(enc: Record -> Bytes) {
    forall r :: |enc(r)| == HEADER_SIZE + |r.data|
  }

  /** A file begins with what it was before. */
  lemma {:induction false} FilePrefix(i: Journal, j: Journal, enc: Record -> Bytes)
    requires Within(i, j) && Sized(enc)
    ensures Size(i) <= Size(j) && |FileOf(i, enc)| == Size(i) && |FileOf(j, enc)| == Size(j)
    ensures FileOf(j, enc)[..Size(i)] == FileOf(i, enc)
  {
    if i != j {
      FilePrefix(i, j.before, enc);
    } else if j.Then? {
      FilePrefix(j.before, j.before, enc);
    }
  }

  /** A record stands where the sizes of those before it say. */
  lemma RecordAt(i: Journal, r: Record, j: Journal, enc: Record -> Bytes)
    requires Within(Then(i, r), j) && Sized(enc)
    ensures Size(i) <= Size(Then(i, r)) <= |FileOf(j, enc)|
    ensures FileOf(j, enc)[Size(i)..Size(Then(i, r))] == enc(r)
  {
    var next := Then(i, r);
    FilePrefix(next, j, enc);
    FilePrefix(i, next, enc);
    var b := FileOf(j, enc);
    assert b[Size(i)..Size(next)] == b[..Size(next)][Size(i)..];
  }

  /** `file` is what a crash left of the records: their bytes, cut at an arbitrary place. */
  ghost predicate IsCut(file: Bytes, first: int, j: Journal, enc: Record -> Bytes) {
    AreRecords(first, j) && |file| <= |FileOf(j, enc)| && file == FileOf(j, enc)[..|file|]
  }

  /** `file` begins with the records; anything may come after them. */
  ghost predicate Begins(file: Bytes, first: int, j: Journal, enc: Record -> Bytes) {
    AreRecords(first, j) && Size(j) <= |file| && file[..Size(j)] == FileOf(j, enc)
  }

  ghost predicate ReadsAs(p: Parsed, r: Record) {
    p.Parsed? && Describes(p.header, r)
  }

  /** Wherever a record starts, its header can be read as far as the file goes. */
  ghost predicate HeadersIn(file: Bytes, j: Journal, parse: Bytes -> Parsed) {
    j.Then? ==>
      && HeadersIn(file, j.before, parse)
      && (Size(j.before) + HEADER_SIZE <= |file| ==>
            ReadsAs(parse(file[Size(j.before)..Size(j.before) + HEADER_SIZE]), j.r))
  }

  lemma {:induction false} BeginsHasHeaders(file: Bytes, first: int, i: Journal, j: Journal, c: Codec)
    requires Begins(file, first, j, c.encode) && IsCodec(c) && Within(i, j) && AreRecords(first, i)
    ensures HeadersIn(file, i, c.parse)
  {
    if i.Empty? {
    } else {
      WithinBefore(i, j);
      BeginsHasHeaders(file, first, i.before, j, c);
      RecordAt(i.before, i.r, j, c.encode);
      FilePrefix(i, j, c.encode);
      assert ReadsBack(c, i.r);
      SliceOfPrefix(file, FileOf(j, c.encode), Size(i.before), Size(i));
    }
  }

  lemma SliceOfPrefix(file: Bytes, part: Bytes, off: nat, next: nat)
    requires |part| <= |file| && file[..|part|] == part && off + HEADER_SIZE <= next <= |part|
    ensures file[off..off + HEADER_SIZE] == part[off..next][..HEADER_SIZE]
  {
    var a, b := file[off..off + HEADER_SIZE], part[off..next][..HEADER_SIZE];
    forall k | 0 <= k < HEADER_SIZE ensures a[k] == b[k] {
      assert file[off + k] == file[..|part|][off + k];
    }
  }

  /** Another complete record follows at `end`. */
  ghost predicate GoesOn(file: Bytes, end: nat, parse: Bytes -> Parsed) {
    && end + HEADER_SIZE <= |file|
    && var p := parse(file[end..end + HEADER_SIZE]);
    p.Parsed? && end + HEADER_SIZE + p.header.dataLen <= |file|
  }

  /** How a file ends after its last complete record; an incomplete one is no error. */
  ghost function EndsAs(file: Bytes, end: nat, parse: Bytes -> Parsed): (status: LoadStatus) {
    if end + HEADER_SIZE > |file| then Loaded
    else match parse(file[end..end + HEADER_SIZE])
         case Invalidated => Hung
         case Corrupt => Corrupted
         case Parsed(_) => Loaded
  }

  /** With the binary format, what is reported is exactly a whole header, not zeroed, that fails its checksum. */
  lemma CorruptedIff(kind: int, f: Checksum, file: Bytes, end: nat)
    ensures EndsAs(file, end, TheCodec(kind, f).parse) == Corrupted <==>
            end + 40 <= |file| && Unpack(file[end..end + 8]) != 0 && !HeaderSumOk(file[end..end + 40], f)
    ensures EndsAs(file, end, TheCodec(kind, f).parse) == Hung <==>
            end + 40 <= |file| && Unpack(file[end..end + 8]) == 0
  {
    if end + 40 <= |file| {
      var b := file[end..end + 40];
      assert b[0..8] == file[end..end + 8];
      CodecChecks(kind, f, b, EntryHeader(0, 0, 0, 0, 0, 0, 0), []);
    }
  }

  /** A crash leaves the complete records and no error after them. */
  lemma CutBegins(file: Bytes, first: int, j: Journal, c: Codec)
    requires IsCut(file, first, j, c.encode) && IsCodec(c)
    ensures var i := Complete(j, |file|);
            && Begins(file, first, i, c.encode)
            && !GoesOn(file, Size(i), c.parse) && EndsAs(file, Size(i), c.parse) == Loaded
  {
    var i := Complete(j, |file|);
    CutAtRecord(file, first, j, c.encode);
    CompleteIsWithin(j, |file|);
    if i != j && Size(i) + HEADER_SIZE <= |file| {
      var next := NextRecord(i, j);
      RecordsWithin(first, Then(i, next), j);
      RecordAt(i, next, j, c.encode);
      assert ReadsBack(c, next);
      SliceOfCut(file, FileOf(j, c.encode), Size(i), Size(Then(i, next)));
      NextIsIncomplete(i, j, |file|);
    }
  }

  lemma {:induction false} NextIsIncomplete(i: Journal, j: Journal, n: nat)
    requires Within(i, j) && i != j && i == Complete(j, n)
    ensures n < Size(Then(i, NextRecord(i, j)))
  {
    if i == j.before {
    } else {
      NextIsIncomplete(i, j.before, n);
    }
  }

  lemma {:induction false} WithinBefore(i: Journal, j: Journal)
    requires i.Then? && Within(i, j)
    ensures Within(i.before, j)
  {
    if i == j {
      assert Within(j.before, j.before);
    } else {
      WithinBefore(i, j.before);
    }
  }

  lemma SliceOfCut(file: Bytes, whole: Bytes, off: nat, next: nat)
    requires |file| <= |whole| && file == whole[..|file|]
    requires off + HEADER_SIZE <= |file| && off + HEADER_SIZE <= next <= |whole|
    ensures file[off..off + HEADER_SIZE] == whole[off..next][..HEADER_SIZE]
  {
  }

  /** The header after `i`. */
  lemma {:induction false} HeaderAfter(file: Bytes, i: Journal, j: Journal, parse: Bytes -> Parsed)
    requires HeadersIn(file, j, parse) && Within(i, j) && i != j && Size(i) + HEADER_SIZE <= |file|
    ensures ReadsAs(parse(file[Size(i)..Size(i) + HEADER_SIZE]), NextRecord(i, j))
  {
    if i == j.before {
    } else {
      HeaderAfter(file, i, j.before, parse);
    }
  }

  /** What appending just these records leaves in memory. */
  ghost predicate IsImage(spans: map<int, Span>, last: int, end: int, first: int, j: Journal) {
    spans == SpansOf(j) && last == LastOf(first, j) && end == Size(j)
  }

  /** What reading one header leads to: on to the next record, or the end of the loop. */
  datatype Found = Next(header: EntryHeader) | Stop(status: LoadStatus)

  /** `Hung` stands for a loop that meets a zeroed term and never moves on. */
  method ReadOne(file: Bytes, end: nat, parse: Bytes -> Parsed) returns (found: Found)
    requires end < |file|
    ensures found.Next? <==> GoesOn(file, end, parse)
    ensures found.Next? ==> Parsed(found.header) == parse(file[end..end + HEADER_SIZE])
    ensures found.Stop? ==> found.status == EndsAs(file, end, parse)
  {
    if end + HEADER_SIZE > |file| {
      return Stop(Loaded);
    }
    var parsed := parse(file[end..end + HEADER_SIZE]);
    if parsed.Invalidated? {
      return Stop(Hung);
    }
    if parsed.Corrupt? {
      return Stop(Corrupted);
    }
    if end + HEADER_SIZE + parsed.header.dataLen > |file| {
      return Stop(Loaded);
    }
    return Next(parsed.header);
  }

  /** The next of the records is complete and can be read. */
  lemma NextGoesOn(file: Bytes, i: Journal, j: Journal, parse: Bytes -> Parsed)
    requires HeadersIn(file, j, parse) && Size(j) <= |file| && Within(i, j) && i != j
    ensures Size(i) < |file| && GoesOn(file, Size(i), parse)
    ensures Describes(parse(file[Size(i)..Size(i) + HEADER_SIZE]).header, NextRecord(i, j))
  {
    SizeGrows(Then(i, NextRecord(i, j)), j);
    HeaderAfter(file, i, j, parse);
  }

  /** The loop over the headers of a file: the records, wherever they stop and whatever follows them. */
  method ScanFile(file: Bytes, first: int, parse: Bytes -> Parsed, ghost j: Journal)
    returns (status: LoadStatus, spans: map<int, Span>, last: int, end: nat)
    ensures end <= |file|
    ensures HeadersIn(file, j, parse) && Size(j) <= |file| && !GoesOn(file, Size(j), parse) ==>
              status == EndsAs(file, Size(j), parse) && IsImage(spans, last, end, first, j)
  {
    ghost var good := HeadersIn(file, j, parse) && Size(j) <= |file| && !GoesOn(file, Size(j), parse);
    ghost var i := Empty;
    EmptyWithin(j);
    spans, last, end := map[], first - 1, 0;
    while end < |file|
      invariant end <= |file| && (good ==> Within(i, j) && IsImage(spans, last, end, first, i))
      decreases |file| - end
    {
      if good && i != j {
        NextGoesOn(file, i, j, parse);
      }
      var found := ReadOne(file, end, parse);
      if found.Stop? {
        return found.status, spans, last, end;
      }
      var h := found.header;
      if good {
        i := Then(i, NextRecord(i, j));
      }
      spans := spans[h.index := Span(end, end + HEADER_SIZE + h.dataLen, h.term)];
      last := if h.index > last then h.index else last;
      end := end + HEADER_SIZE + h.dataLen;
    }
    status := Loaded;
    if good && i != j {
      NextGoesOn(file, i, j, parse);
    }
  }

  lemma {:induction false} EmptyWithin(j: Journal)
    ensures Within(Empty, j)
  {
    if j.Empty? {
    } else {
      EmptyWithin(j.before);
    }
  }

  /** An index without a span has no record, and no record lies beyond the last index. */
  lemma {:induction false} SpansAreRecords(first: int, j: Journal, index: int)
    requires AreRecords(first, j)
    ensures index in SpansOf(j) <==> LastRecord(j, index).Some?
    ensures index in SpansOf(j) ==> first <= index <= LastOf(first, j) && SpansOf(j)[index].term != 0
    ensures LastRecord(j, index).Some? ==> IsRecord(LastRecord(j, index).value)
    ensures first - 1 <= LastOf(first, j)
  {
    if j.Empty? {
    } else {
      SpansAreRecords(first, j.before, index);
    }
  }

  ghost predicate HoldsRecord(file: Bytes, span: Span, c: Codec, x: Record) {
    && IsCodec(c) && IsRecord(x)
    && 0 <= span.start <= span.end <= |file| && file[span.start..span.end] == c.encode(x)
  }

  lemma SliceOfSlice(file: Bytes, start: nat, end: nat, n: nat)
    requires start + n <= end <= |file|
    ensures file[start..end][..n] == file[start..start + n]
  {
  }

  /** A header and data that fit their checksums stand at `start`. */
  ghost predicate IsReadable(file: Bytes, start: int, c: Codec) {
    && 0 <= start && start + HEADER_SIZE <= |file|
    && var p := c.parse(file[start..start + HEADER_SIZE]);
    && p.Parsed? && start + HEADER_SIZE + p.header.dataLen <= |file|
    && c.dataOk(p.header, file[start + HEADER_SIZE..start + HEADER_SIZE + p.header.dataLen])
  }

  /** With the binary format: the header is not zeroed and fits its checksum, and so do the bytes after it. */
  lemma ReadableIff(kind: int, f: Checksum, file: Bytes, start: int)
    requires 0 <= start && start + 40 <= |file|
    ensures var b := file[start..start + 40];
            var len := Unpack(b[28..32]);
            IsReadable(file, start, TheCodec(kind, f)) <==>
            && Unpack(b[0..8]) != 0 && HeaderSumOk(b, f) && start + 40 + len <= |file|
            && f(b[25] % 256, file[start + 40..start + 40 + len]) == Unpack(b[32..36])
  {
    var b, c := file[start..start + 40], TheCodec(kind, f);
    var p := c.parse(b);
    assert p == Parse(b, f);
    ParseIff(b, f);
    if p.Parsed? && start + 40 + p.header.dataLen <= |file| {
      CodecChecks(kind, f, b, p.header, file[start + 40..start + 40 + p.header.dataLen]);
    }
  }

  /** Reads the record at a span and checks header and data: nothing is returned that does not fit its checksums. */
  method ReadRecord(file: Bytes, span: Span, index: int, c: Codec, ghost x: Record) returns (r: Option<Record>)
    ensures HoldsRecord(file, span, c, x) && x.index == index ==> r == Some(x)
    ensures r.Some? <==>
            span.start + HEADER_SIZE <= span.end <= |file| && IsReadable(file, span.start, c)
    ensures r.Some? ==>
              var h := c.parse(file[span.start..span.start + HEADER_SIZE]).header;
              r.value == Record(h.term, index, h.dependency, h.kind,
                                file[span.start + HEADER_SIZE..span.start + HEADER_SIZE + h.dataLen])
  {
    if !(0 <= span.start <= span.end <= |file|) || span.end - span.start < HEADER_SIZE {
      return None;
    }
    var buf := file[span.start..span.end];
    SliceOfSlice(file, span.start, span.end, HEADER_SIZE);
    var parsed := c.parse(buf[..HEADER_SIZE]);
    assert HoldsRecord(file, span, c, x) ==> ReadsBack(c, x);
    if !parsed.Parsed? {
      return None;
    }
    var h := parsed.header;
    var next := span.start + HEADER_SIZE + h.dataLen;
    if |buf| < HEADER_SIZE + h.dataLen {
      if next > |file| {
        return None;
      }
      buf := file[span.start..next];
    } else {
      assert HoldsRecord(file, span, c, x) ==> buf[..HEADER_SIZE + h.dataLen] == buf;
      SliceOfSlice(file, span.start, span.end, HEADER_SIZE + h.dataLen);
      buf := buf[..HEADER_SIZE + h.dataLen];
    }
    var data := buf[HEADER_SIZE..];
    assert data == file[span.start + HEADER_SIZE..next];
    if !c.dataOk(h, data) {
      return None;
    }
    return Some(Record(h.term, index, h.dependency, h.kind, data));
  }

  /** A file and its image stand for the records appended. */
  ghost predicate SegmentInv(c: Codec, first: int, file: Bytes, spans: map<int, Span>, last: int, end: int,
                             j: Journal) {
    IsCodec(c) && AreRecords(first, j) && file == FileOf(j, c.encode) && IsImage(spans, last, end, first, j)
  }

  /** The live records of a journal: the last one of each index. */
  ghost function LiveOf(j: Journal): (m: map<int, Record>) {
    if j.Empty? then map[] else LiveOf(j.before)[j.r.index := j.r]
  }

  lemma {:induction false} LiveIsLast(j: Journal, index: int)
    ensures LastRecord(j, index) == if index in LiveOf(j) then Some(LiveOf(j)[index]) else None
  {
    if j.Empty? {
    } else {
      LiveIsLast(j.before, index);
    }
  }

  ghost predicate Apart(a: Span, b: Span) {
    a.end <= b.start || b.end <= a.start
  }

  /** A live index has its record in its span; a span without one is struck out, in memory and on disk. */
  ghost predicate SpanOk(c: Codec, first: int, file: Bytes, span: Span, last: int, live: map<int, Record>, i: int) {
    && 0 <= span.start && span.start + HEADER_SIZE <= span.end <= |file|
    && if i in live
       then && first <= i <= last && live[i].index == i && IsRecord(live[i]) && span.term == live[i].term
            && file[span.start..span.end] == c.encode(live[i])
       else span.term == 0 && Unpack(file[span.start..span.start + WIDTH64]) == 0
  }

  /** The file holds the live records, each in a span of its own. */
  ghost predicate LiveInv(c: Codec, first: int, file: Bytes, spans: map<int, Span>, last: int, end: int,
                          live: map<int, Record>)
  {
    && IsCodec(c) && end == |file| && first - 1 <= last && live.Keys <= spans.Keys
    && (forall i :: i in spans ==> SpanOk(c, first, file, spans[i], last, live, i))
    && (forall i, j :: i in spans && j in spans && i != j ==> Apart(spans[i], spans[j]))
  }

  /** A record appended leaves the spans of other indexes alone. */
  lemma SpanStays(c: Codec, first: int, file: Bytes, span: Span, last: int, live: map<int, Record>, i: int, r: Record)
    requires SpanOk(c, first, file, span, last, live, i) && i != r.index
    ensures SpanOk(c, first, file + c.encode(r), span, if r.index > last then r.index else last, live[r.index := r], i)
  {
    var file' := file + c.encode(r);
    assert file'[span.start..span.end] == file[span.start..span.end];
    assert file'[span.start..span.start + WIDTH64] == file[span.start..span.start + WIDTH64];
  }

  lemma AppendedLive(c: Codec, first: int, file: Bytes, spans: map<int, Span>, last: int, end: int,
                     live: map<int, Record>, r: Record)
    requires LiveInv(c, first, file, spans, last, end, live) && IsRecord(r) && first <= r.index
    ensures var end' := end + HEADER_SIZE + |r.data|;
            LiveInv(c, first, file + c.encode(r), spans[r.index := Span(end, end', r.term)],
                    if r.index > last then r.index else last, end', live[r.index := r])
  {
    var file', end' := file + c.encode(r), end + HEADER_SIZE + |r.data|;
    var spans', live', last' := spans[r.index := Span(end, end', r.term)], live[r.index := r],
                                if r.index > last then r.index else last;
    forall i | i in spans' ensures SpanOk(c, first, file', spans'[i], last', live', i) {
      if i != r.index {
        SpanStays(c, first, file, spans[i], last, live, i, r);
      } else {
        assert file'[end..end'] == c.encode(r);
      }
    }
    forall i, j | i in spans' && j in spans' && i != j ensures Apart(spans'[i], spans'[j]) {
      assert i != r.index ==> SpanOk(c, first, file, spans[i], last, live, i);
      assert j != r.index ==> SpanOk(c, first, file, spans[j], last, live, j);
    }
  }

  ghost predicate IsLiveJournal(c: Codec, first: int, j: Journal) {
    LiveInv(c, first, FileOf(j, c.encode), SpansOf(j), LastOf(first, j), Size(j), LiveOf(j))
  }

  /** Whatever was appended and nothing struck out: the live records are those of the journal. */
  lemma {:induction false} JournalIsLive(c: Codec, first: int, j: Journal)
    requires IsCodec(c) && AreRecords(first, j)
    ensures IsLiveJournal(c, first, j)
  {
    if j.Empty? {
    } else {
      JournalIsLive(c, first, j.before);
      var b, r := j.before, j.r;
      AppendedLive(c, first, FileOf(b, c.encode), SpansOf(b), LastOf(first, b), Size(b), LiveOf(b), r);
      assert FileOf(j, c.encode) == FileOf(b, c.encode) + c.encode(r);
      assert SpansOf(j) == SpansOf(b)[r.index := Span(Size(b), Size(b) + HEADER_SIZE + |r.data|, r.term)];
      assert LastOf(first, j) == if r.index > LastOf(first, b) then r.index else LastOf(first, b);
      assert LiveOf(j) == LiveOf(b)[r.index := r];
    }
  }

  /** The term field at an offset overwritten with zeros. */
  function Zeroed(file: Bytes, at: nat): (b: Bytes)
    requires at + WIDTH64 <= |file|
    ensures |b| == |file|
  {
    file[..at] + Pack(0, WIDTH64) + file[at + WIDTH64..]
  }

  /** What was overwritten reads as term 0. */
  lemma ZeroedTerm(file: Bytes, at: nat)
    requires at + WIDTH64 <= |file|
    ensures Unpack(Zeroed(file, at)[at..at + WIDTH64]) == 0
  {
    assert Zeroed(file, at)[at..at + WIDTH64] == Pack(0, WIDTH64);
    UnpackZero(WIDTH64);
  }

  lemma {:induction false} UnpackZero(n: nat)
    ensures Unpack(Pack(0, n)) == 0
  {
    if n == 0 {
    } else {
      UnpackZero(n - 1);
      assert Pack(0, n)[..n - 1] == Pack(0, n - 1);
    }
  }

  lemma ZeroedKeeps(file: Bytes, at: nat, s: nat, e: nat)
    requires at + WIDTH64 <= |file| && s <= e <= |file| && (e <= at || at + WIDTH64 <= s)
    ensures Zeroed(file, at)[s..e] == file[s..e]
  {
    var b := Zeroed(file, at);
    assert forall k :: 0 <= k < |file| && (k < at || at + WIDTH64 <= k) ==> b[k] == file[k];
  }

  /** Striking one index out leaves every other record as it was. */
  lemma StruckLive(c: Codec, first: int, file: Bytes, spans: map<int, Span>, last: int, end: int,
                   live: map<int, Record>, i: int)
    requires LiveInv(c, first, file, spans, last, end, live) && i in live
    ensures 0 <= spans[i].start && spans[i].start + WIDTH64 <= |file|
    ensures LiveInv(c, first, Zeroed(file, spans[i].start), spans[i := spans[i].(term := 0)], last, end, live - {i})
  {
    assert SpanOk(c, first, file, spans[i], last, live, i);
    var file', spans', live' := Zeroed(file, spans[i].start), spans[i := spans[i].(term := 0)], live - {i};
    forall k | k in spans' ensures SpanOk(c, first, file', spans'[k], last, live', k) {
      assert SpanOk(c, first, file, spans[k], last, live, k);
      if k != i {
        assert Apart(spans[i], spans[k]);
        ZeroedKeeps(file, spans[i].start, spans[k].start, spans[k].end);
        ZeroedKeeps(file, spans[i].start, spans[k].start, spans[k].start + WIDTH64);
      } else {
        ZeroedTerm(file, spans[i].start);
      }
    }
    forall k, m | k in spans' && m in spans' && k != m ensures Apart(spans'[k], spans'[m]) {
      assert Apart(spans[k], spans[m]);
    }
  }

  /** Strikes out the records after `kept`, on disk and in memory. */
  method StrikeOut(c: Codec, ghost first: int, file: Bytes, spans: map<int, Span>, last: int, ghost end: int,
                   count: int, kept: int, ghost low: nat, ghost live: map<int, Record>)
    returns (file': Bytes, spans': map<int, Span>, count': int)
    requires LiveInv(c, first, file, spans, last, end, live) && first - 1 <= kept < last
    requires LieFrom(spans, live, kept + 1, low) && low <= |file|
    ensures LiveInv(c, first, file', spans', kept, end, Views.UpToIndex(live, kept))
    ensures count' == count - Views.Live(live, kept + 1, last + 1)
    ensures SamePlaces(file, spans, file', spans', low)
  {
    LiveUpToLast(c, first, file, spans, last, end, live);
    file', spans', count' := StrikeRange(c, first, file, spans, last, end, count, kept + 1, low, live);
    ShorterLive(c, first, file', spans', last, end, kept, live);
  }

  /** The live records from index `lo` on lie at or after byte `low`. */
  ghost predicate LieFrom(spans: map<int, Span>, live: map<int, Record>, lo: int, low: nat) {
    forall k :: k in live && lo <= k ==> k in spans && low <= spans[k].start
  }

  /** Every record lies where it lay, and nothing before byte `low` has changed. */
  ghost predicate SamePlaces(file: Bytes, spans: map<int, Span>, file': Bytes, spans': map<int, Span>, low: nat) {
    && low <= |file| == |file'| && file'[..low] == file[..low]
    && spans'.Keys == spans.Keys && forall k :: k in spans ==> spans'[k].start == spans[k].start
  }

  /** Goes over the indexes from `lo` to the last one. */
  method StrikeRange(c: Codec, ghost first: int, file: Bytes, spans: map<int, Span>, last: int, ghost end: int,
                     count: int, lo: int, ghost low: nat, ghost live: map<int, Record>)
    returns (file': Bytes, spans': map<int, Span>, count': int)
    requires LiveInv(c, first, file, spans, last, end, live) && lo <= last + 1
    requires LieFrom(spans, live, lo, low) && low <= |file|
    ensures LiveInv(c, first, file', spans', last, end, Outside(live, lo, last + 1))
    ensures count' == count - Views.Live(live, lo, last + 1)
    ensures SamePlaces(file, spans, file', spans', low)
  {
    file', spans', count' := file, spans, count;
    OutsideNothing(live, lo);
    for i := lo to last + 1
      invariant LiveInv(c, first, file', spans', last, end, Outside(live, lo, i))
      invariant count' == count - Views.Live(live, lo, i)
      invariant SamePlaces(file, spans, file', spans', low)
    {
      var struck;
      file', spans', struck := StrikeOne(c, first, file', spans', last, end, i, lo, live, file, spans, low);
      count' := count' - if struck then 1 else 0;
    }
  }

  lemma LiveUpToLast(c: Codec, first: int, file: Bytes, spans: map<int, Span>, last: int, end: int,
                     live: map<int, Record>)
    requires LiveInv(c, first, file, spans, last, end, live)
    ensures forall i :: i in live ==> i <= last
  {
    forall i | i in live ensures i <= last {
      assert SpanOk(c, first, file, spans[i], last, live, i);
    }
  }

  /** The records whose index is not from `lo` to before `hi`. */
  ghost function Outside(live: map<int, Record>, lo: int, hi: int): (r: map<int, Record>) {
    map i | i in live && !(lo <= i < hi) :: live[i]
  }

  lemma OutsideNothing(live: map<int, Record>, lo: int)
    ensures Outside(live, lo, lo) == live
  {
  }

  lemma OutsideOneMore(live: map<int, Record>, lo: int, i: int)
    requires lo <= i
    ensures i in Outside(live, lo, i) <==> i in live
    ensures Outside(live, lo, i + 1) == if i in live then Outside(live, lo, i) - {i} else Outside(live, lo, i)
  {
  }

  /** Strikes out the record of an index, if it has one. */
  method StrikeOne(c: Codec, ghost first: int, file: Bytes, spans: map<int, Span>, ghost last: int, ghost end: int,
                   i: int, ghost lo: int, ghost live: map<int, Record>, ghost file0: Bytes,
                   ghost spans0: map<int, Span>, ghost low: nat)
    returns (file': Bytes, spans': map<int, Span>, struck: bool)
    requires LiveInv(c, first, file, spans, last, end, Outside(live, lo, i)) && lo <= i
    requires LieFrom(spans0, live, lo, low) && SamePlaces(file0, spans0, file, spans, low)
    ensures SamePlaces(file0, spans0, file', spans', low)
    ensures struck <==> i in live
    ensures LiveInv(c, first, file', spans', last, end, Outside(live, lo, i + 1))
  {
    OutsideOneMore(live, lo, i);
    ghost var left := Outside(live, lo, i);
    assert i in spans ==> SpanOk(c, first, file, spans[i], last, left, i);
    if i !in spans || spans[i].term == 0 {
      return file, spans, false;
    }
    StruckLive(c, first, file, spans, last, end, left, i);
    ZeroedKeeps(file, spans[i].start, 0, low);
    return Zeroed(file, spans[i].start), spans[i := spans[i].(term := 0)], true;
  }

  lemma ShorterLive(c: Codec, first: int, file: Bytes, spans: map<int, Span>, last: int, end: int, kept: int,
                    live: map<int, Record>)
    requires LiveInv(c, first, file, spans, last, end, Outside(live, kept + 1, last + 1)) && first - 1 <= kept < last
    requires forall i :: i in live ==> i <= last
    ensures LiveInv(c, first, file, spans, kept, end, Views.UpToIndex(live, kept))
  {
    var left, upTo := Outside(live, kept + 1, last + 1), Views.UpToIndex(live, kept);
    assert left == upTo;
    forall i | i in spans ensures SpanOk(c, first, file, spans[i], kept, upTo, i) {
      assert SpanOk(c, first, file, spans[i], last, left, i);
    }
  }

  /** The newest state of a file as its segment knows it, by the journal while nothing has been struck out. */
  ghost predicate Intact(c: Codec, first: int, file: Bytes, spans: map<int, Span>, last: int, end: int,
                         live: map<int, Record>, j: Journal)
  {
    SegmentInv(c, first, file, spans, last, end, j) && live == LiveOf(j)
  }

  method AppendRecord(c: Codec, ghost first: int, file: Bytes, spans: map<int, Span>, last: int, end: int, r: Record,
                      ghost live: map<int, Record>, ghost j: Journal)
    returns (file': Bytes, spans': map<int, Span>, last': int, end': int)
    requires LiveInv(c, first, file, spans, last, end, live)
    requires IsRecord(r) && first <= r.index < first + CAPACITY
    ensures LiveInv(c, first, file', spans', last', end', live[r.index := r])
    ensures last' == (if r.index > last then r.index else last) && end' == end + HEADER_SIZE + |r.data|
    ensures Intact(c, first, file, spans, last, end, live, j) ==>
              Intact(c, first, file', spans', last', end', live[r.index := r], Then(j, r))
  {
    AppendedLive(c, first, file, spans, last, end, live, r);
    file' := file + c.encode(r);
    end' := end + HEADER_SIZE + |r.data|;
    spans' := spans[r.index := Span(end, end', r.term)];
    last' := if r.index > last then r.index else last;
  }

  /** Finds the record of an index. */
  method FindRecord(c: Codec, first: int, file: Bytes, spans: map<int, Span>, last: int, ghost end: int, index: int,
                    ghost live: map<int, Record>)
    returns (r: Option<Record>)
    requires LiveInv(c, first, file, spans, last, end, live)
    ensures r == if index in live then Some(live[index]) else None
  {
    assert index in spans ==> SpanOk(c, first, file, spans[index], last, live, index);
    if index > last || index < first {
      return None;
    }
    if index !in spans || spans[index].term == 0 {
      return None;
    }
    r := ReadRecord(file, spans[index], index, c, live[index]);
  }

  /** After some records comes a header with a zeroed term. */
  ghost predicate IsStruck(c: Codec, first: int, file: Bytes) {
    exists i :: IsStruckAfter(c, first, file, i)
  }

  ghost predicate IsStruckAfter(c: Codec, first: int, file: Bytes, i: Journal) {
    && Begins(file, first, i, c.encode) && Size(i) + HEADER_SIZE <= |file|
    && Unpack(file[Size(i)..Size(i) + WIDTH64]) == 0
  }

  /** With the binary format, loading such a file never gets over it, whatever the records are. */
  lemma StruckHangs(kind: int, f: Checksum, first: int, file: Bytes, i: Journal)
    requires IsStruckAfter(TheCodec(kind, f), first, file, i)
    ensures !GoesOn(file, Size(i), TheCodec(kind, f).parse)
    ensures EndsAs(file, Size(i), TheCodec(kind, f).parse) == Hung
  {
    CorruptedIff(kind, f, file, Size(i));
  }

  /** Of the given indexes, the one whose record comes first in the file, and the records before it. */
  lemma {:induction false} FirstAmong(j: Journal, keys: set<int>) returns (i: Journal)
    requires keys != {} && keys <= SpansOf(j).Keys
    ensures Within(i, j) && i != j && NextRecord(i, j).index in keys
    ensures SpansOf(j)[NextRecord(i, j).index].start == Size(i)
    ensures forall k :: k in keys ==> Size(i) <= SpansOf(j)[k].start
  {
    var others := keys - {j.r.index};
    if others == {} {
      assert Within(j.before, j.before);
      i := j.before;
      forall k | k in keys ensures k == j.r.index {
        assert k !in others;
      }
      var k :| k in keys;
    } else {
      i := FirstAmong(j.before, others);
      SizeGrows(i, j.before);
    }
  }

  /** The records before the first one that is to be struck out. */
  lemma FirstStruck(c: Codec, first: int, j: Journal, kept: int) returns (i: Journal)
    requires AreRecords(first, j) && kept < LastOf(first, j) && first <= kept
    ensures Within(i, j) && i != j && NextRecord(i, j).index > kept && NextRecord(i, j).index in SpansOf(j)
    ensures SpansOf(j)[NextRecord(i, j).index].start == Size(i)
    ensures LieFrom(SpansOf(j), LiveOf(j), kept + 1, Size(i)) && Size(i) <= Size(j)
  {
    LastIsLive(first, j);
    LiveHaveSpans(j);
    var keys := set k | k in LiveOf(j) && kept < k;
    assert LastOf(first, j) in keys;
    i := FirstAmong(j, keys);
    SizeGrows(i, j);
  }

  lemma {:induction false} LastIsLive(first: int, j: Journal)
    requires AreRecords(first, j)
    ensures first <= LastOf(first, j) ==> LastOf(first, j) in LiveOf(j)
  {
    if j.Empty? {
    } else {
      LastIsLive(first, j.before);
    }
  }

  lemma {:induction false} LiveHaveSpans(j: Journal)
    ensures LiveOf(j).Keys == SpansOf(j).Keys
  {
    if j.Empty? {
    } else {
      LiveHaveSpans(j.before);
    }
  }

  lemma StruckAt(c: Codec, first: int, j: Journal, i: Journal, file: Bytes, spans: map<int, Span>, file': Bytes,
                 spans': map<int, Span>, kept: int, live': map<int, Record>)
    requires SegmentInv(c, first, file, spans, LastOf(first, j), Size(j), j) && Within(i, j) && i != j
    requires NextRecord(i, j).index > kept && NextRecord(i, j).index in spans
    requires spans[NextRecord(i, j).index].start == Size(i) && SamePlaces(file, spans, file', spans', Size(i))
    requires LiveInv(c, first, file', spans', kept, Size(j), live')
    ensures IsStruck(c, first, file')
  {
    var k := NextRecord(i, j).index;
    assert SpanOk(c, first, file', spans'[k], kept, live', k);
    FilePrefix(i, j, c.encode);
    RecordsWithin(first, i, j);
    assert IsStruckAfter(c, first, file', i);
  }

  method CutFile(c: Codec, ghost first: int, file: Bytes, spans: map<int, Span>, last: int, ghost end: int, count: int,
                 kept: int, ghost live: map<int, Record>, ghost j: Journal)
    returns (file': Bytes, spans': map<int, Span>, count': int)
    requires LiveInv(c, first, file, spans, last, end, live) && first <= kept < last
    ensures LiveInv(c, first, file', spans', kept, end, Views.UpToIndex(live, kept))
    ensures count' == count - Views.Live(live, kept + 1, last + 1) && |file'| == |file|
    ensures Intact(c, first, file, spans, last, end, live, j) ==> IsStruck(c, first, file')
  {
    ghost var whole, at := Intact(c, first, file, spans, last, end, live, j), Empty;
    if whole {
      at := FirstStruck(c, first, j, kept);
      FilePrefix(at, j, c.encode);
    } else {
      LiesSomewhere(c, first, file, spans, last, end, live, kept + 1);
    }
    file', spans', count' :=
      StrikeOut(c, first, file, spans, last, end, count, kept, if whole then Size(at) else 0, live);
    if whole {
      StruckAt(c, first, j, at, file, spans, file', spans', kept, Views.UpToIndex(live, kept));
    }
  }

  lemma LiesSomewhere(c: Codec, first: int, file: Bytes, spans: map<int, Span>, last: int, end: int,
                      live: map<int, Record>, lo: int)
    requires LiveInv(c, first, file, spans, last, end, live)
    ensures LieFrom(spans, live, lo, 0)
  {
    forall k | k in live && lo <= k ensures k in spans && 0 <= spans[k].start {
      assert SpanOk(c, first, file, spans[k], last, live, k);
    }
  }

  class Segment {
    const firstIndex: int
    const codec: Codec
    var file: Bytes
    var bytes: int
    var isOpen: bool
    var pendingForClosing: bool
    var lastIndex: int
    var validEntriesCounter: int
    var spans: map<int, Span>
    ghost var live: map<int, Record>
    ghost var journal: Journal

    ghost predicate Valid()
      reads this
    {
      LiveInv(codec, firstIndex, file, spans, lastIndex, bytes, live)
    }

    /** Nothing has been struck out: the file is that of the journal. */
    ghost predicate Whole()
      reads this
    {
      Intact(codec, firstIndex, file, spans, lastIndex, bytes, live, journal)
    }

    /** The segment as the storage sees it. */
    ghost function View(): (s: Views.SegmentState)
      reads this
    {
      Views.SegmentState(firstIndex, lastIndex, validEntriesCounter, bytes, isOpen, pendingForClosing, live)
    }

    constructor (firstIndex: int, codec: Codec)
      requires IsCodec(codec)
      ensures Valid() && Whole() && journal == Empty && View() == Views.NewSegment(firstIndex)
      ensures this.firstIndex == firstIndex && this.codec == codec
    {
      this.firstIndex, this.codec := firstIndex, codec;
      file, bytes, lastIndex, validEntriesCounter, spans, journal := [], 0, firstIndex - 1, 0, map[], Empty;
      isOpen, pendingForClosing, live := true, false, map[];
    }

    /** An open segment takes one more record; a segment about to be closed closes when that makes it look full. */
    method Append(r: Record) returns (ok: bool)
      requires Valid() && IsRecord(r) && firstIndex <= r.index < firstIndex + CAPACITY
      modifies this
      ensures Valid() && ok == old(isOpen)
      ensures View() == if ok then Views.Received(old(View()), r) else old(View())
      ensures old(Whole()) ==> Whole() && journal == if ok then Then(old(journal), r) else old(journal)
    {
      if !isOpen {
        return false;
      }
      WriteRecord(r);
      if pendingForClosing && lastIndex - firstIndex + 1 - validEntriesCounter == 0 {
        isOpen, pendingForClosing := false, false;
      }
      return true;
    }

    /** The record goes to the end of the file, and is counted. */
    method WriteRecord(r: Record)
      requires Valid() && IsRecord(r) && firstIndex <= r.index < firstIndex + CAPACITY
      modifies this
      ensures Valid() && View() == Views.Appended(old(View()), r)
      ensures old(Whole()) ==> Whole() && journal == Then(old(journal), r)
    {
      ghost var live', journal' := live[r.index := r], Then(journal, r);
      file, spans, lastIndex, bytes := AppendRecord(codec, firstIndex, file, spans, lastIndex, bytes, r, live, journal);
      validEntriesCounter := validEntriesCounter + 1;
      live, journal := live', journal';
    }

    /**
     * Invalidates the records after `kept` in the file and forgets them; a closed segment opens again. A file from
     * which anything was taken this way has a zeroed term after some of its records.
     */
    method Truncate(kept: int)
      requires Valid() && firstIndex <= kept
      modifies this
      ensures Valid() && View() == Views.Truncated(old(View()), kept) && |file| == |old(file)|
      ensures kept >= old(lastIndex) ==> file == old(file)
      ensures old(Whole()) && kept < old(lastIndex) ==> IsStruck(codec, firstIndex, file)
    {
      if kept >= lastIndex {
        return;
      }
      StrikeAfter(kept);
      isOpen := true;
    }

    /** The records after `kept` are struck out one by one. */
    method StrikeAfter(kept: int)
      requires Valid() && firstIndex <= kept < lastIndex
      modifies this`file, this`spans, this`validEntriesCounter, this`lastIndex, this`live
      ensures Valid() && |file| == |old(file)| && lastIndex == kept && live == Views.UpToIndex(old(live), kept)
      ensures validEntriesCounter == old(validEntriesCounter) - Views.Live(old(live), kept + 1, old(lastIndex) + 1)
      ensures old(Whole()) ==> IsStruck(codec, firstIndex, file)
    {
      ghost var upTo := Views.UpToIndex(live, kept);
      file, spans, validEntriesCounter :=
        CutFile(codec, firstIndex, file, spans, lastIndex, bytes, validEntriesCounter, kept, live, journal);
      lastIndex, live := kept, upTo;
    }

    /**
     * Whatever was appended before a crash and wherever the crash cut the file, loading recovers the complete
     * records: same offsets, terms, last index and size as if only those had been appended. Whatever else follows the
     * complete records, loading tells: a header that fails its check is reported, a zeroed term is never got over, an
     * incomplete record is dropped. A closed segment that ends before its last index has lost data. The counter of
     * valid entries is not recovered.
     */
    method Load(disk: Bytes, ghost j: Journal) returns (status: LoadStatus)
      requires IsCodec(codec)
      modifies this
      ensures isOpen == old(isOpen) && validEntriesCounter == old(validEntriesCounter)
      ensures !old(isOpen) ==> lastIndex == old(lastIndex)
      ensures Begins(disk, firstIndex, j, codec.encode) && !GoesOn(disk, Size(j), codec.parse) ==>
                && status == (if EndsAs(disk, Size(j), codec.parse) == Loaded && !old(isOpen) &&
                                 LastOf(firstIndex, j) < old(lastIndex)
                              then DataLost else EndsAs(disk, Size(j), codec.parse))
                && (status == Loaded && (isOpen || lastIndex == LastOf(firstIndex, j)) ==>
                      Valid() && Whole() && journal == j && file == disk[..Size(j)])
      ensures IsCut(disk, firstIndex, j, codec.encode) ==>
                var i := Complete(j, |disk|);
                && status == (if !old(isOpen) && LastOf(firstIndex, i) < old(lastIndex) then DataLost else Loaded)
                && (status == Loaded && (isOpen || lastIndex == LastOf(firstIndex, i)) ==>
                      Valid() && Whole() && journal == i)
    {
      ghost var i := if IsCut(disk, firstIndex, j, codec.encode) then Complete(j, |disk|) else j;
      if IsCut(disk, firstIndex, j, codec.encode) {
        CutBegins(disk, firstIndex, j, codec);
        CutIsComplete(disk, firstIndex, j, codec.encode);
      }
      if Begins(disk, firstIndex, i, codec.encode) {
        BeginsHasHeaders(disk, firstIndex, i, i, codec);
        JournalIsLive(codec, firstIndex, i);
      }
      var last, end;
      status, spans, last, end := ScanFile(disk, firstIndex, codec.parse, i);
      if status == Loaded && !isOpen && last < lastIndex {
        status := DataLost;
      }
      if isOpen {
        lastIndex := last;
      }
      file := if status == Loaded then disk[..end] else disk;
      bytes := end;
      journal, live := i, LiveOf(i);
    }

    /** The last record written for an index and not struck out. */
    method Get(index: int) returns (r: Option<Record>)
      requires Valid()
      ensures r == if index in live then Some(live[index]) else None
      ensures Whole() ==> r == LastRecord(journal, index)
    {
      LiveIsLast(journal, index);
      r := FindRecord(codec, firstIndex, file, spans, lastIndex, bytes, index, live);
    }
  }

  /** A loaded segment has its counter at zero, so it looks full only when it holds nothing. */
  lemma LoadedIsNotFull(c: Codec, first: int, file: Bytes, spans: map<int, Span>, last: int, end: int, j: Journal)
    requires SegmentInv(c, first, file, spans, last, end, j)
    ensures Views.IsFullfilled(Views.SegmentState(first, last, 0, end, true, false, LiveOf(j))) <==> j.Empty?
  {
    if j.Then? {
      SpansAreRecords(first, j, j.r.index);
    }
  }

  /** A file cut at its very end, or not at all, keeps all its records. */
  lemma CutIsComplete(file: Bytes, first: int, j: Journal, enc: Record -> Bytes)
    requires IsCut(file, first, j, enc) && Sized(enc)
    ensures Size(j) <= |file| ==> Complete(j, |file|) == j
  {
  }

  lemma CutAtRecord(file: Bytes, first: int, j: Journal, enc: Record -> Bytes)
    requires IsCut(file, first, j, enc) && Sized(enc)
    ensures |file| <= Size(j)
    ensures var i := Complete(j, |file|); Size(i) <= |file| && file[..Size(i)] == FileOf(i, enc) && AreRecords(first, i)
  {
    var i := Complete(j, |file|);
    CompleteIsWithin(j, |file|);
    FilePrefix(i, j, enc);
    RecordsWithin(first, i, j);
  }

  lemma {:induction false} RecordsWithin(first: int, i: Journal, j: Journal)
    requires AreRecords(first, j) && Within(i, j)
    ensures AreRecords(first, i)
  {
    if i == j {
    } else {
      RecordsWithin(first, i, j.before);
    }
  }
}
