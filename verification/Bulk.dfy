/** The bulk endpoint: NDJSON lines are paired into events, sent to the WAL, and answered in order. */
module BulkIngest {
  import opened Bytes
  import opened Codec
  import opened Utf8
  import opened Options
  import A = WalAppending

  const NEWLINE: byte := 10
  const RETURN: byte := 13

  /** The bytes of "default". */
  const DEFAULT_INDEX: seq<byte> := [100, 101, 102, 97, 117, 108, 116]

  /** Position of the first newline, or the length if there is none. */
  function LineEnd(s: seq<byte>): (k: nat)
    ensures k <= |s| && NEWLINE !in s[..k]
    ensures k < |s| ==> s[k] == NEWLINE
  {
    if s == [] || s[0] == NEWLINE then 0
    else
      assert forall k :: 0 <= k < |s| ==> s[..k + 1] == [s[0]] + s[1..][..k];
      1 + LineEnd(s[1..])
  }

  function StripReturn(line: seq<byte>): seq<byte> {
    if line != [] && line[|line| - 1] == RETURN then line[..|line| - 1] else line
  }

  /** `str::lines`: a line ends at `\n` or `\r\n`; the last may be unterminated, and then keeps a trailing `\r`. */
  function Lines(s: seq<byte>): seq<seq<byte>>
    decreases |s|
  {
    if s == [] then []
    else
      var k := LineEnd(s);
      if k == |s| then [s] else [StripReturn(s[..k])] + Lines(s[k + 1..])
  }

  function NonBlank(lines: seq<seq<byte>>): seq<seq<byte>> {
    if lines == [] then []
    else (if Blank(lines[0]) then [] else [lines[0]]) + NonBlank(lines[1..])
  }

  /** The lines the handler looks at. */
  function BodyLines(body: seq<byte>): seq<seq<byte>> {
    NonBlank(Lines(body))
  }

  /** `metaIndex` is what JSON parsing makes of a line: the string at `index._index`, if there is one. */
  type MetaReader = seq<byte> -> Option<seq<byte>>

  function IndexName(metaIndex: MetaReader, line: seq<byte>): seq<byte> {
    match metaIndex(line)
    case Some(name) => name
    case None => DEFAULT_INDEX
  }

  /** Each metadata line with the document line after it; a metadata line without a document is dropped. */
  function PairUp(lines: seq<seq<byte>>, metaIndex: MetaReader): (es: seq<IngestEvent>)
    ensures |es| == |lines| / 2
    decreases |lines|
  {
    if |lines| < 2 then []
    else [IngestEvent(IndexName(metaIndex, lines[0]), lines[1])] + PairUp(lines[2..], metaIndex)
  }

  function BulkEvents(body: seq<byte>, metaIndex: MetaReader): seq<IngestEvent> {
    PairUp(BodyLines(body), metaIndex)
  }

  // ---------------------------------------------------------------- the handler

  datatype Item = Item(index: seq<byte>, status: nat)

  datatype Reply = Items(errors: bool, items: seq<Item>) | ChannelClosed

  function Status(r: A.Response): nat {
    if r == A.Ok then 201 else 500
  }

  /**
   `room` is how many sends the WAL channel accepts before it closes, and `answer(i)` what the responder of the i-th
   request receives. The handler sends exactly the paired events, in order. Unless the channel closes, it reports one
   item per pair, half the non-blank lines rounded down, with the status of its own request, and an error flag that is
   set iff some request was not answered `Ok`.
   */
  method BulkHandler(body: seq<byte>, metaIndex: MetaReader, room: Option<nat>, answer: nat -> A.Response)
    returns (sent: seq<IngestEvent>, reply: Reply)
    ensures var events := BulkEvents(body, metaIndex);
            if room.Some? && room.value < |events| then sent == events[..room.value] && reply == ChannelClosed
            else
              && sent == events && reply.Items?
              && |reply.items| == |sent| == |BodyLines(body)| / 2
              && (forall i :: 0 <= i < |sent| ==>
                    && sent[i].payload == BodyLines(body)[2 * i + 1]
                    && sent[i].index == (match metaIndex(BodyLines(body)[2 * i])
                                         case Some(name) => name
                                         case None => [100, 101, 102, 97, 117, 108, 116]))
              && (forall i :: 0 <= i < |reply.items| ==>
                    reply.items[i].index == sent[i].index &&
                    reply.items[i].status == if answer(i).Ok? then 201 else 500)
              && (forall i :: 0 <= i < |events| ==> reply.items[i] == Item(events[i].index, Status(answer(i))))
              && (reply.errors <==> exists i :: 0 <= i < |events| && answer(i) != A.Ok)
  {
    hide PairUp, BodyLines;
    var lines := BodyLines(body);
    forall i | 0 <= i < |PairUp(lines, metaIndex)|
      ensures PairUp(lines, metaIndex)[i] == IngestEvent(IndexName(metaIndex, lines[2 * i]), lines[2 * i + 1])
    {
      PairAt(lines, metaIndex, i);
    }
    var closed;
    sent, closed := SendPairs(lines, metaIndex, room);
    if closed {
      return sent, ChannelClosed;
    }
    var errors, items := AwaitAll(sent, answer);
    return sent, Items(errors, items);
  }

  /** The pairing loop, up to a closed channel. */
  method SendPairs(lines: seq<seq<byte>>, metaIndex: MetaReader, room: Option<nat>)
    returns (sent: seq<IngestEvent>, closed: bool)
    ensures var events := PairUp(lines, metaIndex);
            && closed == (room.Some? && room.value < |events|)
            && sent == if closed then events[..room.value] else events
  {
    hide PairUp;
    ghost var events := PairUp(lines, metaIndex);
    sent := [];
    var next := 0;
    assert lines[0..] == lines;
    while next < |lines|
      invariant next <= |lines| && next == 2 * |sent|
      invariant events == sent + PairUp(lines[next..], metaIndex)
      invariant room.Some? ==> |sent| <= room.value
    {
      PairStep(lines, next, metaIndex);
      var index := IndexName(metaIndex, lines[next]);
      if next + 1 == |lines| {
        break;
      }
      var docLine := lines[next + 1];
      if room.Some? && room.value == |sent| {
        return sent, true;
      }
      sent := sent + [IngestEvent(index, docLine)];
      next := next + 2;
    }
    NoPairs(lines[next..], metaIndex);
    assert sent == events;
    closed := false;
  }

  /** The loop that awaits the responders. */
  method AwaitAll(sent: seq<IngestEvent>, answer: nat -> A.Response) returns (hasErrors: bool, items: seq<Item>)
    ensures |items| == |sent|
    ensures forall i :: 0 <= i < |sent| ==> items[i] == Item(sent[i].index, Status(answer(i)))
    ensures hasErrors <==> exists i :: 0 <= i < |sent| && answer(i) != A.Ok
  {
    items, hasErrors := [], false;
    for i := 0 to |sent|
      invariant |items| == i
      invariant forall j :: 0 <= j < i ==> items[j] == Item(sent[j].index, Status(answer(j)))
      invariant hasErrors <==> exists j :: 0 <= j < i && answer(j) != A.Ok
    {
      var status := 201;
      if answer(i) != A.Ok {
        hasErrors := true;
        status := 500;
      }
      items := items + [Item(sent[i].index, status)];
    }
  }

  lemma PairStep(lines: seq<seq<byte>>, next: nat, metaIndex: MetaReader)
    requires next < |lines|
    ensures next + 1 < |lines| ==>
              PairUp(lines[next..], metaIndex) ==
              [IngestEvent(IndexName(metaIndex, lines[next]), lines[next + 1])] + PairUp(lines[next + 2..], metaIndex)
  {
    if next + 1 < |lines| {
      assert lines[next..][2..] == lines[next + 2..];
    }
  }

  lemma NoPairs(lines: seq<seq<byte>>, metaIndex: MetaReader)
    ensures |lines| < 2 ==> PairUp(lines, metaIndex) == []
  {
  }

  lemma {:induction false} PairAt(lines: seq<seq<byte>>, metaIndex: MetaReader, i: nat)
    requires i < |lines| / 2
    ensures PairUp(lines, metaIndex)[i] == IngestEvent(IndexName(metaIndex, lines[2 * i]), lines[2 * i + 1])
    decreases i
  {
    if i > 0 {
      PairAt(lines[2..], metaIndex, i - 1);
    }
  }

  // ---------------------------------------------------------------- round trip

  /** A line that survives `lines()` and the blank filter unchanged. */
  predicate OneLine(l: seq<byte>) {
    NEWLINE !in l && !Blank(l) && StripReturn(l) == l
  }

  /** How a line is terminated: `\n` or `\r\n`. */
  function Ending(crlf: bool): seq<byte> {
    if crlf then [RETURN, NEWLINE] else [NEWLINE]
  }

  /** NDJSON: a metadata line and a document line for each event. */
  function Print(es: seq<IngestEvent>, printMeta: seq<byte> -> seq<byte>, crlf: bool): seq<byte> {
    if es == [] then []
    else printMeta(es[0].index) + Ending(crlf) + (es[0].payload + Ending(crlf) + Print(es[1..], printMeta, crlf))
  }

  predicate Printable(e: IngestEvent, printMeta: seq<byte> -> seq<byte>, metaIndex: MetaReader) {
    && OneLine(printMeta(e.index)) && OneLine(e.payload)
    && metaIndex(printMeta(e.index)) == Some(e.index)
  }

  /** The bytes up to the first newline are split off as a line, without a carriage return; a blank one is skipped. */
  lemma SplitLine(line: seq<byte>, rest: seq<byte>)
    requires 10 !in line
    ensures var stripped := if line != [] && line[|line| - 1] == 13 then line[..|line| - 1] else line;
            BodyLines(line + [10] + rest) == (if Blank(stripped) then [] else [stripped]) + BodyLines(rest)
  {
    hide Blank;
    var s := line + [NEWLINE] + rest;
    var k := LineEnd(s);
    assert s[|line|] == NEWLINE && forall i :: 0 <= i < |line| ==> s[i] == line[i];
    assert s[..k] == line && s[k + 1..] == rest;
    assert Lines(s) == [StripReturn(line)] + Lines(rest);
  }

  /** An unterminated last line is kept as it is. */
  lemma LastLine(line: seq<byte>)
    requires 10 !in line && line != []
    ensures BodyLines(line) == if Blank(line) then [] else [line]
  {
    hide Blank;
    assert LineEnd(line) == |line|;
    assert Lines(line) == [line];
    assert [line][1..] == [] && NonBlank([]) == [];
  }

  lemma FirstLine(line: seq<byte>, crlf: bool, rest: seq<byte>)
    requires OneLine(line)
    ensures BodyLines(line + Ending(crlf) + rest) == [line] + BodyLines(rest)
  {
    hide Blank, BodyLines;
    if crlf {
      assert line + Ending(crlf) + rest == line + [RETURN] + [NEWLINE] + rest;
      assert StripReturn(line + [RETURN]) == line;
      SplitLine(line + [RETURN], rest);
    } else {
      SplitLine(line, rest);
    }
  }

  /** Pairing undoes printing, for every list of printable events and either line ending. */
  lemma {:induction false} BulkRoundTrip(es: seq<IngestEvent>, printMeta: seq<byte> -> seq<byte>, metaIndex: MetaReader,
                                         crlf: bool)
    requires forall e <- es :: Printable(e, printMeta, metaIndex)
    ensures BulkEvents(Print(es, printMeta, crlf), metaIndex) == es
  {
    hide Print, PairUp, OneLine, BodyLines, Ending;
    NoLines();
    NoPairs([], metaIndex);
    PrintNone(printMeta, crlf);
    if es != [] {
      var e, rest := es[0], Print(es[1..], printMeta, crlf);
      assert Printable(e, printMeta, metaIndex);
      BulkRoundTrip(es[1..], printMeta, metaIndex, crlf);
      FirstLine(e.payload, crlf, rest);
      FirstLine(printMeta(e.index), crlf, e.payload + Ending(crlf) + rest);
      var lines := BodyLines(Print(es, printMeta, crlf));
      PrintFirst(es, printMeta, crlf);
      assert lines == [printMeta(e.index)] + ([e.payload] + BodyLines(rest));
      PairFirst(lines, metaIndex);
      assert lines[2..] == BodyLines(rest);
    }
  }

  lemma PrintNone(printMeta: seq<byte> -> seq<byte>, crlf: bool)
    ensures Print([], printMeta, crlf) == []
  {
  }

  lemma PrintFirst(es: seq<IngestEvent>, printMeta: seq<byte> -> seq<byte>, crlf: bool)
    requires es != []
    ensures Print(es, printMeta, crlf) ==
            printMeta(es[0].index) + Ending(crlf) + (es[0].payload + Ending(crlf) + Print(es[1..], printMeta, crlf))
  {
  }

  lemma PairFirst(lines: seq<seq<byte>>, metaIndex: MetaReader)
    requires |lines| >= 2
    ensures PairUp(lines, metaIndex) ==
            [IngestEvent(IndexName(metaIndex, lines[0]), lines[1])] + PairUp(lines[2..], metaIndex)
  {
  }

  lemma NoLines()
    ensures BodyLines([]) == []
  {
  }
}

/** From the bulk body to disk and back. */
module BulkDurability {
  import opened Bytes
  import opened Codec
  import opened Segments
  import opened WalLog
  import opened WalAppending
  import opened BulkIngest

  /** What reading all files in order returns. */
  function ReadLog(fs: seq<File>): seq<IngestEvent> {
    if fs == [] then []
    else ReadLog(fs[..|fs| - 1]) + Events(ParseAll(fs[|fs| - 1].data, fs[|fs| - 1].start).entries)
  }

  predicate Succeed(log: Log, batches: seq<Batch>)
    requires AllValid(batches)
    decreases |batches|
  {
    batches != [] ==>
      var r := ProcessBatch(log, batches[0].events, batches[0].faults);
      r.success && Succeed(r.log, batches[1..])
  }

  function AllEvents(batches: seq<Batch>): seq<IngestEvent>
    decreases |batches|
  {
    if batches == [] then [] else batches[0].events + AllEvents(batches[1..])
  }

  /** A log with nothing stray and an empty buffer. */
  predicate Settled(log: Log) {
    Inv(log) && AllStray(log.Files()) == 0 && log.buffer == []
  }

  lemma BatchSettles(log: Log, batch: seq<IngestEvent>, faults: BatchFaults)
    requires Settled(log) && batch != [] && |batch| <= |faults.writes|
    requires ProcessBatch(log, batch, faults).success
    ensures var r := ProcessBatch(log, batch, faults);
            Settled(r.log) && AllFrames(r.log.Files()) == AllFrames(log.Files()) + batch
  {
    hide Inv, WriteBatch, Grows, Entries, EncodeFrame, AllFrames;
    BatchEffect(log, batch, faults);
    BatchTearsIff(log, batch, faults);
    assert batch[..|batch|] == batch;
  }

  lemma {:induction false} BatchesSettle(log: Log, batches: seq<Batch>)
    requires Settled(log) && AllValid(batches) && Succeed(log, batches)
    ensures Settled(Serve(log, batches))
    ensures AllFrames(Serve(log, batches).Files()) == AllFrames(log.Files()) + AllEvents(batches)
    decreases |batches|
  {
    hide Settled, ProcessBatch, AllFrames;
    if batches != [] {
      var b := batches[0];
      var r := ProcessBatch(log, b.events, b.faults);
      BatchSettles(log, b.events, b.faults);
      BatchesSettle(r.log, batches[1..]);
    }
  }

  lemma {:induction false} FilesReadBack(fs: seq<File>)
    requires forall f <- fs :: Holds(f, f.data)
    requires AllStray(fs) == 0 && AllFramable(AllFrames(fs))
    ensures ReadLog(fs) == AllFrames(fs)
  {
    hide ParseAll, Entries, Framable, Holds, TotalLen;
    if fs != [] {
      var init, last := fs[..|fs| - 1], fs[|fs| - 1];
      assert AllFrames(fs) == AllFrames(init) + last.Frames();
      FramableParts(AllFrames(init), last.Frames());
      FilesReadBack(init);
      ReadsBackIff(last);
      EventsOfEntries(last.start, last.Frames());
    }
  }

  lemma FramableParts(a: seq<IngestEvent>, b: seq<IngestEvent>)
    requires AllFramable(a + b)
    ensures AllFramable(a) && AllFramable(b)
  {
    hide Framable;
    forall e <- a
      ensures Framable(e)
    {
      assert e in a + b;
    }
    forall e <- b
      ensures Framable(e)
    {
      assert e in a + b;
    }
  }

  lemma SettledReadsBack(log: Log)
    requires Settled(log) && AllFramable(AllFrames(log.Files()))
    ensures ReadLog(log.Files()) == AllFrames(log.Files())
  {
    hide ReadLog, AllFrames, AllStray, AllFramable, BytesOf, FramesOf, StrayLen, TotalLen, Tiled;
    assert log.active.data + log.buffer == log.active.data;
    forall f <- log.Files()
      ensures Holds(f, f.data)
    {
      if f in log.closed {
        assert ClosedOk(f);
      }
    }
    FilesReadBack(log.Files());
  }

  lemma FreshIsSettled()
    ensures Settled(Open(0, [])) && AllFrames(Open(0, []).Files()) == []
  {
    hide Inv, FramesOf, StrayLen;
    OpenKeepsInv(0, []);
    OpenFile(0, []);
    assert Open(0, []).Files()[..0] == [];
  }

  /**
   Bulk round trip through disk. A list of printable, framable events, printed as one bulk body, paired by the handler,
   framed in any division into batches that all succeed, and read back from the files, is the same list in order.
   */
  lemma BulkRoundTripThroughDisk(es: seq<IngestEvent>, printMeta: seq<byte> -> seq<byte>, metaIndex: MetaReader,
                                 crlf: bool, batches: seq<Batch>)
    requires AllFramable(es) && forall e <- es :: Printable(e, printMeta, metaIndex)
    requires AllValid(batches) && AllEvents(batches) == BulkEvents(Print(es, printMeta, crlf), metaIndex)
    requires Succeed(Open(0, []), batches)
    ensures ReadLog(Serve(Open(0, []), batches).Files()) == es
  {
    hide Serve, ReadLog, Succeed, Print, BulkEvents, AllFramable, AllFrames, Settled, Printable, AllValid;
    BulkRoundTrip(es, printMeta, metaIndex, crlf);
    FreshIsSettled();
    BatchesSettle(Open(0, []), batches);
    assert [] + es == es;
    SettledReadsBack(Serve(Open(0, []), batches));
  }
}
