/**
 The write-ahead log as the appender leaves it on disk, and the single steps that change it. A log has three layers:
 bytes in the `BufWriter`, bytes the operating system has (`data`), and bytes that survive a power loss (`synced`).
 Every step takes the outcome of its I/O as an argument.
 */
module WalLog {
  import opened Bytes
  import opened Codec
  import opened Reading
  import opened Segments

  const ROTATE_BYTES := 32 * 1024 * 1024

  /**
   One `<start>.wal` file. `segments` records everything it has accepted, in order: the frames the appender completed
   and the bytes that belong to none of them, which are contents it already had when it was opened and what failed
   writes left behind. `linked` is false once the retention worker has deleted the directory entry.
   */
  datatype File = File(start: nat, data: seq<byte>, synced: nat, segments: seq<Segment>, linked: bool) {
    function Frames(): seq<IngestEvent> {
      FramesOf(segments)
    }

    function StrayBytes(): nat {
      StrayLen(segments)
    }

    function End(): nat {
      start + TotalLen(Frames())
    }

    function Written(): seq<Entry> {
      Entries(start, Frames())
    }

    /** Where segment `j` really ends, stray bytes before it included. */
    function Position(j: nat): nat
      requires j < |segments|
    {
      start + |BytesOf(segments[..j + 1])|
    }

    /** Where the first segment begins that the reader does not get through. */
    function SoundEnd(): nat {
      start + |BytesOf(segments[..SoundCount(segments)])|
    }

    /** The reader gets through everything before segment `j`. */
    predicate LegibleUpTo(j: nat)
      requires j < |segments|
    {
      Legible(BytesOf(segments[..j]))
    }
  }

  /** `offset` is `current_offset` and `size` is `current_file_size`. */
  datatype Log = Log(closed: seq<File>, active: File, buffer: seq<byte>, offset: nat, size: nat) {
    function Files(): (fs: seq<File>)
      ensures |fs| == |closed| + 1
    {
      closed + [active]
    }
  }

  /** The log when the appender thread starts and the file it opens already holds `existing`. */
  function Open(origin: nat, existing: seq<byte>): Log {
    Log([], File(origin, existing, 0, [Stray(existing)], true), [], origin, |existing|)
  }

  // ---------------------------------------------------------------- steps

  /** How writing one frame went: fully accepted, or refused after `accepted` bytes. `spill` bytes reach the file. */
  datatype WriteOutcome = Accepted(spill: nat) | Refused(accepted: nat, spill: nat)

  datatype FlushOutcome = Flushed | FlushFailed(moved: nat)

  /** The first `k` buffered bytes move to the file. */
  function Spill(log: Log, k: nat): Log {
    var n := if k <= |log.buffer| then k else |log.buffer|;
    log.(active := log.active.(data := log.active.data + log.buffer[..n]), buffer := log.buffer[n..])
  }

  /** What a refused write of `e` leaves in the stream: never the whole frame. */
  function Torn(e: IngestEvent, accepted: nat): (r: seq<byte>)
    ensures |r| < FrameLen(e) && |r| <= accepted
  {
    EncodeFrame(e)[..if accepted < FrameLen(e) then accepted else FrameLen(e) - 1]
  }

  /** The buffer takes one more segment; the offset and the size count frames only. */
  function Push(log: Log, seg: Segment): Log {
    var n := if seg.Frame? then FrameLen(seg.event) else 0;
    log.(active := log.active.(segments := log.active.segments + [seg]),
         buffer := log.buffer + seg.Bytes(),
         offset := log.offset + n,
         size := log.size + n)
  }

  /** A frame write: the whole frame, or what a refused write leaves of it. */
  function WriteFrame(log: Log, e: IngestEvent, w: WriteOutcome): Log {
    Spill(Push(log, if w.Accepted? then Frame(e) else Stray(Torn(e, w.accepted))), w.spill)
  }

  function Flush(log: Log, o: FlushOutcome): Log {
    Spill(log, match o case Flushed => |log.buffer| case FlushFailed(moved) => moved)
  }

  function Sync(log: Log): Log {
    log.(active := log.active.(synced := |log.active.data|))
  }

  /** Runs after a successful flush and sync. If the new file cannot be opened the old one stays in use. */
  function Rotate(log: Log, opens: bool): Log {
    if log.size >= ROTATE_BYTES && opens then
      Log(log.Files(), File(log.offset, [], 0, [], true), [], log.offset, 0)
    else
      log
  }

  // ---------------------------------------------------------------- invariant

  /** `bytes` is everything the file has accepted, on disk or still buffered. */
  predicate Holds(f: File, bytes: seq<byte>) {
    bytes == BytesOf(f.segments)
  }

  predicate ClosedOk(f: File) {
    Holds(f, f.data) && f.synced == |f.data| >= ROTATE_BYTES && f.Frames() != []
  }

  /** Each file starts at the offset where the frames of the one before it end. */
  predicate Tiled(fs: seq<File>) {
    forall i :: 0 < i < |fs| ==> fs[i].start == fs[i - 1].End()
  }

  predicate Inv(log: Log) {
    && (forall f <- log.closed :: ClosedOk(f))
    && Holds(log.active, log.active.data + log.buffer)
    && log.active.synced <= |log.active.data|
    && Tiled(log.Files())
    && log.offset == log.active.End()
    && TotalLen(log.active.Frames()) <= log.size <= TotalLen(log.active.Frames()) + log.active.StrayBytes()
  }

  predicate AllSynced(log: Log) {
    log.buffer == [] && log.active.synced == |log.active.data|
  }

  /** `f` later became `f'`: nothing written or synced was lost, and no directory entry came or went. */
  predicate Extends(f: File, f': File) {
    && f'.start == f.start
    && f.segments <= f'.segments
    && f.synced <= f'.synced
    && f'.linked == f.linked
  }

  predicate Grows(log: Log, log': Log) {
    && |log.Files()| <= |log'.Files()|
    && forall i :: 0 <= i < |log.Files()| ==> Extends(log.Files()[i], log'.Files()[i])
  }

  /** What the first file holds when it is opened. */
  lemma OpenFile(origin: nat, existing: seq<byte>)
    ensures var f := Open(origin, existing).active;
            f.Frames() == [] && f.StrayBytes() == |existing| && BytesOf(f.segments) == existing
  {
    NoSegments();
    AppendSegment([], Stray(existing));
    assert [] + [Stray(existing)] == [Stray(existing)];
  }

  lemma OpenKeepsInv(origin: nat, existing: seq<byte>)
    ensures Inv(Open(origin, existing))
  {
    OpenFile(origin, existing);
    NoFrames(origin);
  }

  lemma ActiveExtended(log: Log, log': Log)
    requires Tiled(log.Files()) && log'.closed == log.closed && Extends(log.active, log'.active)
    ensures Tiled(log'.Files()) && Grows(log, log')
  {
    hide BytesOf, FramesOf, StrayLen, TotalLen;
    var fs, fs' := log.Files(), log'.Files();
    forall i | 0 <= i < |fs'|
      ensures Extends(fs[i], fs'[i])
      ensures i < |fs| - 1 ==> fs'[i] == fs[i]
    {
    }
  }

  lemma SpillKeepsInv(log: Log, k: nat)
    requires Inv(log)
    ensures Inv(Spill(log, k)) && Grows(log, Spill(log, k))
  {
    hide BytesOf, FramesOf, StrayLen, TotalLen, Tiled, Grows;
    ActiveExtended(log, Spill(log, k));
    var log' := Spill(log, k);
    assert log'.active.data + log'.buffer == log.active.data + log.buffer;
  }

  lemma PushKeepsInv(log: Log, seg: Segment)
    requires Inv(log)
    ensures Inv(Push(log, seg)) && Grows(log, Push(log, seg))
  {
    hide EncodeFrame, TotalLen, Tiled, Grows, BytesOf, FramesOf, StrayLen;
    var a, log' := log.active, Push(log, seg);
    AppendSegment(a.segments, seg);
    if seg.Frame? {
      AppendFrame(a.start, a.Frames(), seg.event);
    } else {
      assert a.Frames() + [] == a.Frames();
    }
    assert log'.active.data + log'.buffer == log.active.data + log.buffer + seg.Bytes();
    ActiveExtended(log, log');
  }

  /** A frame write, accepted or refused at any byte, adds one segment to what the file has accepted. */
  lemma WriteFrameKeepsInv(log: Log, e: IngestEvent, w: WriteOutcome)
    requires Inv(log)
    ensures var log' := WriteFrame(log, e, w);
            && Inv(log') && Grows(log, log')
            && log'.active.segments ==
               log.active.segments + [if w.Accepted? then Frame(e) else Stray(Torn(e, w.accepted))]
            && (w.Refused? && w.accepted < FrameLen(e) ==> Torn(e, w.accepted) == EncodeFrame(e)[..w.accepted])
  {
    hide Inv, EncodeFrame, Grows;
    var seg := if w.Accepted? then Frame(e) else Stray(Torn(e, w.accepted));
    PushKeepsInv(log, seg);
    SpillKeepsInv(Push(log, seg), w.spill);
    GrowsTransitive(log, Push(log, seg), Spill(Push(log, seg), w.spill));
  }

  /** What a frame write adds to the file, and what it leaves alone. */
  lemma WriteFrameAdds(log: Log, e: IngestEvent, w: WriteOutcome)
    ensures var log' := WriteFrame(log, e, w);
            && log'.closed == log.closed
            && log'.active.start == log.active.start && log'.active.linked == log.active.linked
            && log'.active.segments ==
               log.active.segments + [if w.Accepted? then Frame(e) else Stray(Torn(e, w.accepted))]
            && log'.active.Frames() == log.active.Frames() + (if w.Accepted? then [e] else [])
            && log'.active.StrayBytes() == log.active.StrayBytes() + (if w.Accepted? then 0 else |Torn(e, w.accepted)|)
            && log'.offset == log.offset + (if w.Accepted? then FrameLen(e) else 0)
            && log'.size == log.size + (if w.Accepted? then FrameLen(e) else 0)
            && (w.Refused? ==> (|Torn(e, w.accepted)| == 0 <==> w.accepted == 0))
  {
    hide EncodeFrame, FramesOf, StrayLen;
    AppendSegment(log.active.segments, if w.Accepted? then Frame(e) else Stray(Torn(e, w.accepted)));
  }

  lemma GrowsReflexive(log: Log)
    ensures Grows(log, log)
  {
  }

  lemma GrowsTransitive(a: Log, b: Log, c: Log)
    requires Grows(a, b) && Grows(b, c)
    ensures Grows(a, c)
  {
  }

  lemma FlushKeepsInv(log: Log, o: FlushOutcome)
    requires Inv(log)
    ensures Inv(Flush(log, o)) && Grows(log, Flush(log, o))
    ensures o == Flushed ==> Flush(log, o).buffer == []
    ensures var log', k := Flush(log, o), if o.FlushFailed? && o.moved <= |log.buffer| then o.moved else |log.buffer|;
            log'.active.data == log.active.data + log.buffer[..k] && log'.buffer == log.buffer[k..]
  {
    hide Inv, Grows;
    SpillKeepsInv(log, match o case Flushed => |log.buffer| case FlushFailed(moved) => moved);
  }

  lemma SyncKeepsInv(log: Log)
    requires Inv(log)
    ensures Inv(Sync(log)) && Grows(log, Sync(log))
    ensures log.buffer == [] ==> AllSynced(Sync(log))
  {
    hide BytesOf, FramesOf, StrayLen, TotalLen, Tiled, Grows;
    ActiveExtended(log, Sync(log));
  }

  lemma RotateKeepsInv(log: Log, opens: bool)
    requires Inv(log) && AllSynced(log) && log.active.Frames() != []
    ensures Inv(Rotate(log, opens)) && Grows(log, Rotate(log, opens))
    ensures if log.size >= 33_554_432 && opens
            then Rotate(log, opens) ==
                 Log(log.closed + [log.active], File(log.offset, [], 0, [], true), [], log.offset, 0)
            else Rotate(log, opens) == log
    ensures forall f <- log.closed :: f.synced == |f.data| >= 33_554_432
  {
    hide EncodeFrame, BytesOf, FramesOf, StrayLen, TotalLen;
    NoSegments();
    NoFrames(0);
    BytesAreFrames(log.active.segments);
    assert log.active.data + log.buffer == log.active.data;
    var log' := Rotate(log, opens);
    assert forall i :: 0 <= i < |log.Files()| ==> log'.Files()[i] == log.Files()[i];
  }

  predicate DistinctStarts(fs: seq<File>) {
    forall i, j :: 0 <= i < j < |fs| ==> fs[i].start < fs[j].start
  }

  /** Rotation never reuses a file name: every file starts above all earlier ones. */
  lemma StartsIncrease(log: Log)
    requires Inv(log)
    ensures DistinctStarts(log.Files())
  {
    hide EncodeAll, EncodeFrame;
    var fs := log.Files();
    forall i | 0 < i < |fs|
      ensures fs[i - 1].start < fs[i].start
    {
      assert fs[i - 1] == log.closed[i - 1];
      assert ClosedOk(log.closed[i - 1]);
    }
    StepwiseIncreasing(fs);
  }

  lemma {:induction false} StepwiseIncreasing(fs: seq<File>)
    requires forall i :: 0 < i < |fs| ==> fs[i - 1].start < fs[i].start
    ensures DistinctStarts(fs)
  {
    if fs != [] {
      var init := fs[..|fs| - 1];
      StepwiseIncreasing(init);
      forall i, j | 0 <= i < j < |fs|
        ensures fs[i].start < fs[j].start
      {
        if j == |fs| - 1 && i < j - 1 {
          assert init[i].start < init[j - 1].start;
        }
      }
    }
  }

  // ---------------------------------------------------------------- what the files say

  /** The segments of the whole log in order, its frames, and its bytes. */
  function AllSegments(fs: seq<File>): seq<Segment> {
    if fs == [] then [] else AllSegments(fs[..|fs| - 1]) + fs[|fs| - 1].segments
  }

  function AllFrames(fs: seq<File>): seq<IngestEvent> {
    if fs == [] then [] else AllFrames(fs[..|fs| - 1]) + fs[|fs| - 1].Frames()
  }

  function AllData(fs: seq<File>): seq<byte> {
    if fs == [] then [] else AllData(fs[..|fs| - 1]) + fs[|fs| - 1].data
  }

  function AllStray(fs: seq<File>): nat {
    if fs == [] then 0 else AllStray(fs[..|fs| - 1]) + fs[|fs| - 1].StrayBytes()
  }

  function Stream(log: Log): seq<byte> {
    AllData(log.Files()) + log.buffer
  }

  lemma {:induction false} SegmentsOfFiles(fs: seq<File>)
    ensures FramesOf(AllSegments(fs)) == AllFrames(fs)
    ensures StrayLen(AllSegments(fs)) == AllStray(fs)
  {
    hide EncodeFrame;
    if fs != [] {
      SegmentsOfFiles(fs[..|fs| - 1]);
      SegmentsConcat(AllSegments(fs[..|fs| - 1]), fs[|fs| - 1].segments);
    }
  }

  lemma {:induction false} ClosedStream(fs: seq<File>)
    requires forall f <- fs :: ClosedOk(f)
    ensures AllData(fs) == BytesOf(AllSegments(fs))
  {
    hide FramesOf, EncodeFrame;
    if fs != [] {
      var init, last := fs[..|fs| - 1], fs[|fs| - 1];
      ClosedStream(init);
      assert ClosedOk(last);
      SegmentsConcat(AllSegments(init), last.segments);
    }
  }

  /**
   The log refines a list of events: file bytes followed by buffered bytes are the segments written so far end to end.
   Their frames are the frames written, and without stray bytes the stream is exactly those frames.
   */
  lemma StreamIsFrames(log: Log)
    requires Inv(log)
    ensures Stream(log) == BytesOf(AllSegments(log.Files()))
    ensures FramesOf(AllSegments(log.Files())) == AllFrames(log.Files())
    ensures |Stream(log)| == TotalLen(AllFrames(log.Files())) + AllStray(log.Files())
    ensures AllStray(log.Files()) == 0 ==> Stream(log) == EncodeAll(AllFrames(log.Files()))
  {
    hide EncodeFrame, EncodeAll, TotalLen, BytesOf, FramesOf, StrayLen;
    ClosedStream(log.closed);
    var fs := log.Files();
    assert fs[..|fs| - 1] == log.closed;
    SegmentsConcat(AllSegments(log.closed), log.active.segments);
    SegmentsOfFiles(fs);
    BytesAreFrames(AllSegments(fs));
    assert Stream(log) == AllData(log.closed) + (log.active.data + log.buffer);
  }

  lemma {:induction false} TiledEnd(fs: seq<File>)
    requires Tiled(fs) && fs != []
    ensures fs[|fs| - 1].End() == fs[0].start + TotalLen(AllFrames(fs))
  {
    hide EncodeFrame, FramesOf;
    var init, last := fs[..|fs| - 1], fs[|fs| - 1];
    TotalLenConcat(AllFrames(init), last.Frames());
    if init != [] {
      TiledEnd(init);
      assert init[|init| - 1] == fs[|fs| - 2];
    }
  }

  /**
   `current_offset` is the end of the byte stream iff nothing stray is in it, that is, iff the first file was empty when
   it was opened and no frame write failed after its first byte.
   */
  lemma OffsetIsStreamEndIff(log: Log)
    requires Inv(log)
    ensures log.offset == log.Files()[0].start + |Stream(log)| <==> AllStray(log.Files()) == 0
  {
    hide EncodeFrame, EncodeAll, TotalLen, AllData, BytesOf, FramesOf, StrayLen;
    StreamIsFrames(log);
    TiledEnd(log.Files());
    assert log.Files()[|log.closed|] == log.active;
  }

  /**
   A file reads back as exactly the frames written to it, at the recorded offsets and with a clean end, iff it holds
   nothing stray and both length casts were harmless for each of its events.
   */
  lemma ReadsBackIff(f: File)
    requires Holds(f, f.data)
    ensures ParseAll(f.data, f.start) == Replay(f.Written(), f.End(), true)
            <==> f.StrayBytes() == 0 && AllFramable(f.Frames())
  {
    hide Parse, EncodeFrame, Framable, ParseAll, EncodeAll, TotalLen, Entries, BytesOf, FramesOf, StrayLen;
    BytesAreFrames(f.segments);
    if f.StrayBytes() == 0 && AllFramable(f.Frames()) {
      ReadBack(f.Frames(), f.start);
    }
    if ParseAll(f.data, f.start) == Replay(f.Written(), f.End(), true) {
      ParsedEntries(f.data, f.start);
      EventsOfEntries(f.start, f.Frames());
    }
  }

  // ---------------------------------------------------------------- durability

  /** `x` is segment `j` of the file, and has been synced where it really lies. */
  predicate SyncedAt(f: File, x: Entry, j: nat) {
    Recorded(f.start, f.segments, x, j) && |BytesOf(f.segments[..j + 1])| <= f.synced
  }

  predicate Synced(f: File, x: Entry) {
    exists j :: 0 <= j < |f.segments| && SyncedAt(f, x, j)
  }

  predicate Stored(log: Log, x: Entry) {
    exists f <- log.Files() :: Synced(f, x)
  }

  /** Stored in a file that still has its directory entry. */
  predicate Durable(log: Log, x: Entry) {
    exists f <- log.Files() :: Synced(f, x) && f.linked
  }

  /** A synced event was written to the file, and its recorded offset is no further than its bytes. */
  lemma SyncedIsWritten(f: File, x: Entry)
    requires Synced(f, x)
    ensures x in f.Written() && x.offset <= f.start + f.synced
  {
    hide BytesOf, FramesOf, TotalLen, Entries;
    var j :| 0 <= j < |f.segments| && SyncedAt(f, x, j);
    EntryIsRecorded(f.start, f.segments, x);
    FirstSegments(f.segments, j + 1);
  }

  /** All frames of a file with nothing left to sync are synced. */
  lemma WrittenIsSynced(f: File, x: Entry)
    requires Holds(f, f.data) && f.synced == |f.data| && x in f.Written()
    ensures Synced(f, x)
  {
    hide BytesOf, FramesOf, TotalLen, Entries;
    EntryIsRecorded(f.start, f.segments, x);
    var j: nat :| Recorded(f.start, f.segments, x, j);
    FirstSegments(f.segments, j + 1);
    assert SyncedAt(f, x, j);
  }

  /** The synced bytes of a file contain the frame of each synced event, whole and in its place. */
  lemma SyncedBytes(f: File, x: Entry, j: nat)
    requires f.data <= BytesOf(f.segments) && f.synced <= |f.data| && SyncedAt(f, x, j)
    ensures var from, to := |BytesOf(f.segments[..j])|, |BytesOf(f.segments[..j + 1])|;
            from <= to <= f.synced && f.data[from..to] == EncodeFrame(x.event)
  {
    hide BytesOf, FramesOf, EncodeFrame;
    FrameInPlace(f.segments, j);
    SliceOfPrefix(BytesOf(f.segments), |f.data|, |BytesOf(f.segments[..j])|, |BytesOf(f.segments[..j + 1])|);
  }

  lemma ExtendsSynced(f: File, f': File, x: Entry)
    requires Extends(f, f') && Synced(f, x)
    ensures Synced(f', x)
  {
    hide BytesOf, FramesOf, TotalLen;
    var j :| 0 <= j < |f.segments| && SyncedAt(f, x, j);
    assert f'.segments[..j + 1] == f.segments[..j + 1];
    assert SyncedAt(f', x, j);
  }

  lemma GrowsStored(log: Log, log': Log, x: Entry)
    requires Grows(log, log')
    ensures Stored(log, x) ==> Stored(log', x)
    ensures Durable(log, x) ==> Durable(log', x)
  {
    hide Synced;
    forall f | f in log.Files() && Synced(f, x)
      ensures exists f' <- log'.Files() :: Synced(f', x) && f'.linked == f.linked
    {
      var i :| 0 <= i < |log.Files()| && log.Files()[i] == f;
      ExtendsSynced(f, log'.Files()[i], x);
    }
  }

  /** What is left of a file after a power loss: the synced bytes and some of the unsynced ones. */
  predicate Survives(f: File, bytes: seq<byte>) {
    bytes <= f.data && f.synced <= |bytes|
  }

  /** Nothing but frames of events that fit the format. */
  predicate Pristine(f: File) {
    f.StrayBytes() == 0 && AllFramable(f.Frames())
  }

  /** What a file has on disk is the beginning of what it has accepted. */
  lemma DataIsPrefix(log: Log, f: File)
    requires Inv(log) && f in log.Files()
    ensures f.data <= BytesOf(f.segments) && f.synced <= |f.data|
  {
    hide BytesOf, FramesOf, StrayLen, TotalLen;
    if f !in log.closed {
      assert f == log.active;
    } else {
      assert ClosedOk(f);
    }
  }

  /**
   Crash safety of one file, exactly, whatever the power loss leaves of it: a synced frame is returned, at its position,
   iff its event fits the format and everything the file had accepted before it is legible.
   */
  lemma SurvivingFrames(f: File, bytes: seq<byte>, x: Entry, j: nat)
    requires f.data <= BytesOf(f.segments) && Survives(f, bytes) && SyncedAt(f, x, j)
    ensures Entry(x.event, f.Position(j)) in ParseAll(bytes, f.start).entries <==>
            Framable(x.event) && f.LegibleUpTo(j)
    ensures x.offset <= f.Position(j) <= f.start + |bytes|
  {
    hide ParseAll, BytesOf, FramesOf, StrayLen, Legible, Framable;
    SegmentReadIff(f.start, f.segments, j, bytes);
    PositionOfRecorded(f.start, f.segments, x, j);
  }

  /**
   The reader invents nothing: whatever it returns before the first damage is a frame written there, at its position, or
   was in the stray bytes there, such as what the file held at the start. Of a pristine file it returns a prefix of what
   was written, at the recorded offsets.
   */
  lemma ReadOnlyWritten(f: File, bytes: seq<byte>, y: Entry)
    requires f.data <= BytesOf(f.segments) && Survives(f, bytes) && y in ParseAll(bytes, f.start).entries
    ensures y.offset <= f.SoundEnd() ==> exists j :: 0 <= j < |f.segments| && ComesFrom(f.start, f.segments, y, j)
    ensures Pristine(f) ==> ParseAll(bytes, f.start).entries <= f.Written()
  {
    hide ParseAll, EncodeAll, Entries, BytesOf, FramesOf, StrayLen, Framable, ComesFrom;
    var all := BytesOf(f.segments);
    PrefixReads(bytes, all[|bytes|..], f.start);
    assert bytes + all[|bytes|..] == all;
    if y.offset <= f.SoundEnd() {
      var j := ReadComesFrom(f.start, f.segments, y);
    }
    if Pristine(f) {
      BytesAreFrames(f.segments);
      ReadBack(f.Frames(), f.start);
    }
  }

  /** A file made of sound segments is legible up to each of them, and all its frames fit the format. */
  predicate SoundFile(f: File) {
    forall s <- f.segments :: Sound(s)
  }

  lemma SoundFileReads(f: File, x: Entry, j: nat)
    requires SoundFile(f) && SyncedAt(f, x, j)
    ensures Framable(x.event) && f.LegibleUpTo(j)
  {
    hide BytesOf, FramesOf, TotalLen, Legible, Framable;
    assert f.segments[j] in f.segments && Sound(f.segments[j]);
    forall s <- f.segments[..j]
      ensures Sound(s)
    {
      assert s in f.segments;
    }
    SoundIsLegible(f.segments[..j]);
  }
}
