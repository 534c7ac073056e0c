/** The appender thread: batches of requests, written, synced, acknowledged and forwarded as a unit. */
module WalAppending {
  import opened Bytes
  import opened Codec
  import opened Segments
  import opened WalLog

  const MAX_BATCH := 5000

  /** What a request's `oneshot` responder sees; `Dropped` when the sender was dropped without a message. */
  datatype Response = Ok | Err | Dropped

  /**
   The outcomes of a batch's I/O: one per frame write, then the flush and the sync, and for a rotation the repeated
   flush and sync, whose results the code ignores, and the opening of the new file.
   */
  datatype BatchFaults = BatchFaults(
    writes: seq<WriteOutcome>,
    flush: FlushOutcome,
    syncs: bool,
    reflush: FlushOutcome,
    resyncs: bool,
    opens: bool)

  /** `toIndex` holds the events whose frames were written; `success` is `batch_success`. */
  datatype BatchResult = BatchResult(log: Log, toIndex: seq<Entry>, success: bool)

  /** Writes frames until one is refused. */
  function WriteBatch(log: Log, batch: seq<IngestEvent>, writes: seq<WriteOutcome>): (r: (Log, seq<Entry>))
    requires |batch| <= |writes|
    ensures |r.1| <= |batch|
    decreases |batch|
  {
    if batch == [] then (log, [])
    else
      var log' := WriteFrame(log, batch[0], writes[0]);
      if writes[0].Refused? then (log', [])
      else
        var rest := WriteBatch(log', batch[1..], writes[1..]);
        (rest.0, [Entry(batch[0], log'.offset)] + rest.1)
  }

  function ProcessBatch(log: Log, batch: seq<IngestEvent>, faults: BatchFaults): BatchResult
    requires |batch| <= |faults.writes|
  {
    var (written, toIndex) := WriteBatch(log, batch, faults.writes);
    if |toIndex| < |batch| then BatchResult(written, toIndex, false)
    else
      var flushed := Flush(written, faults.flush);
      if faults.flush != Flushed || !faults.syncs then BatchResult(flushed, toIndex, false)
      else BatchResult(Rotate(Sync(flushed), faults.opens), toIndex, true)
  }

  /** The responses to a batch of `n` requests, in order. */
  function Responses(r: BatchResult, n: nat): (rs: seq<Response>)
    requires |r.toIndex| <= n
    ensures |rs| == n
  {
    seq(n, i => if i >= |r.toIndex| then Dropped else if r.success then Ok else Err)
  }

  function Forwarded(r: BatchResult): seq<Entry> {
    if r.success then r.toIndex else []
  }

  lemma {:induction false} WriteBatchEffect(log: Log, batch: seq<IngestEvent>, writes: seq<WriteOutcome>)
    requires Inv(log) && |batch| <= |writes|
    ensures var (log', toIndex) := WriteBatch(log, batch, writes);
            var done := batch[..|toIndex|];
            && Inv(log') && Grows(log, log')
            && toIndex == Entries(log.offset, done)
            && log'.closed == log.closed
            && log'.active.start == log.active.start
            && log'.active.linked == log.active.linked
            && log'.active.Frames() == log.active.Frames() + done
    decreases |batch|
  {
    hide Inv, Grows, WriteFrame, EncodeFrame, TotalLen, FramesOf, StrayLen;
    GrowsReflexive(log);
    if batch != [] {
      var log1 := WriteFrame(log, batch[0], writes[0]);
      WriteFrameKeepsInv(log, batch[0], writes[0]);
      WriteFrameAdds(log, batch[0], writes[0]);
      if writes[0].Accepted? {
        var (log', rest) := WriteBatch(log1, batch[1..], writes[1..]);
        WriteBatchEffect(log1, batch[1..], writes[1..]);
        GrowsTransitive(log, log1, log');
        assert batch[..1 + |rest|] == [batch[0]] + batch[1..][..|rest|];
      }
    }
  }

  lemma {:induction false} WriteBatchSize(log: Log, batch: seq<IngestEvent>, writes: seq<WriteOutcome>)
    requires |batch| <= |writes|
    ensures var (log', toIndex) := WriteBatch(log, batch, writes);
            log'.size == log.size + TotalLen(batch[..|toIndex|])
    decreases |batch|
  {
    hide WriteFrame;
    if batch != [] {
      WriteFrameAdds(log, batch[0], writes[0]);
      if writes[0].Accepted? {
        var log1 := WriteFrame(log, batch[0], writes[0]);
        WriteBatchSize(log1, batch[1..], writes[1..]);
        var n := |WriteBatch(log1, batch[1..], writes[1..]).1|;
        assert batch[..1 + n][1..] == batch[1..][..n];
      }
    }
  }

  lemma RotateFrames(log: Log, opens: bool)
    ensures AllFrames(Rotate(log, opens).Files()) == AllFrames(log.Files())
  {
    var fs := Rotate(log, opens).Files();
    assert fs[..|fs| - 1] == if log.size >= ROTATE_BYTES && opens then log.Files() else log.closed;
    assert log.Files()[..|log.closed|] == log.closed;
  }

  /** What every batch keeps and adds, whichever of its I/O operations failed. */
  lemma BatchEffect(log: Log, batch: seq<IngestEvent>, faults: BatchFaults)
    requires Inv(log) && |batch| <= |faults.writes| && batch != []
    ensures var r := ProcessBatch(log, batch, faults);
            && |r.toIndex| <= |batch|
            && Inv(r.log) && Grows(log, r.log)
            && r.toIndex == Entries(log.offset, batch[..|r.toIndex|])
            && AllFrames(r.log.Files()) == AllFrames(log.Files()) + batch[..|r.toIndex|]
            && (if r.success && faults.opens && log.size + TotalLen(batch) >= 33_554_432
                then |r.log.closed| == |log.closed| + 1 && r.log.size == 0
                else |r.log.closed| == |log.closed| && r.log.size == log.size + TotalLen(batch[..|r.toIndex|]))
  {
    hide Inv, Grows, EncodeFrame, EncodeAll, TotalLen, Entries, WriteBatch, Rotate, Sync, Flush, AllFrames;
    var (written, toIndex) := WriteBatch(log, batch, faults.writes);
    WriteBatchEffect(log, batch, faults.writes);
    WriteBatchSize(log, batch, faults.writes);
    LastFile(log);
    LastFile(written);
    if |toIndex| == |batch| {
      MakeDurableEffect(written, faults);
      assert batch[..|batch|] == batch;
      GrowsTransitive(log, written, ProcessBatch(log, batch, faults).log);
    }
  }

  /** The part of a batch after its frames are written. */
  lemma MakeDurableEffect(log: Log, faults: BatchFaults)
    requires Inv(log) && log.active.Frames() != []
    ensures var flushed := Flush(log, faults.flush);
            var final := if faults.flush != Flushed || !faults.syncs then flushed
                         else Rotate(Sync(flushed), faults.opens);
            && Inv(final) && Grows(log, final)
            && AllFrames(final.Files()) == AllFrames(log.Files())
            && (if faults.flush == Flushed && faults.syncs && faults.opens && log.size >= 33_554_432
                then |final.closed| == |log.closed| + 1 && final.size == 0
                else |final.closed| == |log.closed| && final.size == log.size)
  {
    hide Inv, Grows, Rotate, AllSynced;
    GrowsReflexive(log);
    var flushed := Flush(log, faults.flush);
    FlushKeepsInv(log, faults.flush);
    LastFile(log);
    LastFile(flushed);
    if faults.flush == Flushed {
      var synced := Sync(flushed);
      SyncKeepsInv(flushed);
      LastFile(synced);
      RotateKeepsInv(synced, faults.opens);
      RotateFrames(synced, faults.opens);
      GrowsTransitive(log, flushed, synced);
      GrowsTransitive(log, synced, Rotate(synced, faults.opens));
    }
  }

  lemma LastFile(log: Log)
    ensures AllFrames(log.Files()) == AllFrames(log.closed) + log.active.Frames()
  {
    assert log.Files()[..|log.closed|] == log.closed;
  }

  /**
   The acknowledgement discipline. Every request gets exactly one response; `Ok` is never mixed with `Err` or a dropped
   responder; all are `Ok` iff every frame was written, flushed and synced, and then every frame is in the synced part
   of a file and the indexer is sent exactly the batch, with strictly increasing offsets that are the frame ends.
   Otherwise nothing is forwarded, and the dropped responders are those from the first refused write on.
   */
  lemma AckDiscipline(log: Log, batch: seq<IngestEvent>, faults: BatchFaults)
    requires Inv(log) && |batch| <= |faults.writes| && batch != []
    ensures var r := ProcessBatch(log, batch, faults);
            && |r.toIndex| <= |batch|
            && var rs := Responses(r, |batch|);
            && (Ok in rs <==> r.success) && (Ok in rs ==> Err !in rs && Dropped !in rs)
            && (forall i :: 0 <= i < |batch| ==>
                  (rs[i] == Dropped <==> exists j :: 0 <= j <= i && faults.writes[j].Refused?))
            && (r.success <==> (forall i :: 0 <= i < |batch| ==> faults.writes[i].Accepted?) &&
                               faults.flush == Flushed && faults.syncs)
            && Forwarded(r) == (if r.success then Entries(log.offset, batch) else [])
            && Increasing(Forwarded(r))
            && (log.active.linked ==> forall x <- Forwarded(r) :: Durable(r.log, x))
  {
    hide Inv, Grows, EncodeFrame, EncodeAll, TotalLen, Entries, Rotate, Sync, WriteBatch, Durable;
    var r := ProcessBatch(log, batch, faults);
    BatchEffect(log, batch, faults);
    var rs := Responses(r, |batch|);
    WrittenAreAccepted(log, batch, faults.writes);
    assert rs[0] == if 0 >= |r.toIndex| then Dropped else if r.success then Ok else Err;
    if r.success {
      assert batch[..|batch|] == batch;
      EntriesAreFrameEnds(log.offset, batch);
      if log.active.linked {
        forall x <- Forwarded(r)
          ensures Durable(r.log, x)
        {
          SyncedBatch(log, batch, faults, x);
        }
      }
    }
  }

  /** A batch adds stray bytes to the log iff it ends in a frame write that failed after its first byte. */
  lemma BatchTearsIff(log: Log, batch: seq<IngestEvent>, faults: BatchFaults)
    requires Inv(log) && |batch| <= |faults.writes| && batch != []
    ensures var r := ProcessBatch(log, batch, faults);
            AllStray(r.log.Files()) == AllStray(log.Files()) <==>
            |r.toIndex| >= |batch| || (faults.writes[|r.toIndex|].Refused? && faults.writes[|r.toIndex|].accepted == 0)
  {
    hide WriteFrame, EncodeFrame;
    var (written, toIndex) := WriteBatch(log, batch, faults.writes);
    WriteBatchStray(log, batch, faults.writes);
    StrayOfFiles(log);
    StrayOfFiles(written);
    var flushed := Flush(written, faults.flush);
    StrayOfFiles(flushed);
    StrayOfFiles(Sync(flushed));
    StrayOfFiles(Rotate(Sync(flushed), faults.opens));
  }

  lemma StrayOfFiles(log: Log)
    ensures AllStray(log.Files()) == AllStray(log.closed) + log.active.StrayBytes()
  {
    assert log.Files()[..|log.closed|] == log.closed;
  }

  lemma {:induction false} WriteBatchStray(log: Log, batch: seq<IngestEvent>, writes: seq<WriteOutcome>)
    requires |batch| <= |writes|
    ensures var (log', toIndex) := WriteBatch(log, batch, writes);
            && log'.closed == log.closed
            && (|toIndex| < |batch| ==> writes[|toIndex|].Refused?)
            && (log'.active.StrayBytes() == log.active.StrayBytes() <==>
                |toIndex| >= |batch| || writes[|toIndex|].accepted == 0)
            && log'.active.StrayBytes() >= log.active.StrayBytes()
    decreases |batch|
  {
    hide WriteFrame, FramesOf, StrayLen;
    if batch != [] {
      var log1 := WriteFrame(log, batch[0], writes[0]);
      WriteFrameAdds(log, batch[0], writes[0]);
      if writes[0].Accepted? {
        WriteBatchStray(log1, batch[1..], writes[1..]);
        var rest := WriteBatch(log1, batch[1..], writes[1..]).1;
        assert |rest| < |batch[1..]| ==> writes[1..][|rest|] == writes[1 + |rest|];
      }
    }
  }

  lemma {:induction false} WrittenAreAccepted(log: Log, batch: seq<IngestEvent>, writes: seq<WriteOutcome>)
    requires |batch| <= |writes|
    ensures var k := |WriteBatch(log, batch, writes).1|;
            && k <= |batch| && (k < |batch| ==> writes[k].Refused?)
            && forall i :: 0 <= i < k ==> writes[i].Accepted?
    decreases |batch|
  {
    hide WriteFrame;
    if batch != [] && writes[0].Accepted? {
      WrittenAreAccepted(WriteFrame(log, batch[0], writes[0]), batch[1..], writes[1..]);
      assert forall i :: 0 < i < |writes| ==> writes[i] == writes[1..][i - 1];
    }
  }

  lemma SyncedBatch(log: Log, batch: seq<IngestEvent>, faults: BatchFaults, x: Entry)
    requires Inv(log) && log.active.linked && |batch| <= |faults.writes|
    requires ProcessBatch(log, batch, faults).success && x in ProcessBatch(log, batch, faults).toIndex
    ensures Durable(ProcessBatch(log, batch, faults).log, x)
  {
    hide EncodeFrame, EncodeAll, TotalLen, Entries, WriteBatch, Inv, Grows;
    var (written, toIndex) := WriteBatch(log, batch, faults.writes);
    WriteBatchEffect(log, batch, faults.writes);
    FlushKeepsInv(written, Flushed);
    var synced := Sync(Flush(written, Flushed));
    SyncKeepsInv(Flush(written, Flushed));
    BatchEndsInFile(log, batch[..|toIndex|], synced, x);
    RotateKeepsInv(synced, faults.opens);
    GrowsStored(synced, Rotate(synced, faults.opens), x);
  }

  /** After a sync, the frames appended to the active file since `log` are durable. */
  lemma BatchEndsInFile(log: Log, done: seq<IngestEvent>, synced: Log, x: Entry)
    requires Inv(log) && Inv(synced) && AllSynced(synced)
    requires synced.active.start == log.active.start && synced.active.linked
    requires synced.active.Frames() == log.active.Frames() + done
    requires x in Entries(log.offset, done)
    ensures Durable(synced, x)
  {
    hide TotalLen, Entries, Tiled, BytesOf, FramesOf, StrayLen, Synced;
    var a := synced.active;
    EntriesConcat(a.start, log.active.Frames(), done);
    assert a.data + synced.buffer == a.data;
    assert x in a.Written();
    WrittenIsSynced(a, x);
    assert synced.Files()[|synced.closed|] == a;
  }

  // ---------------------------------------------------------------- runs of batches

  datatype Batch = Batch(events: seq<IngestEvent>, faults: BatchFaults) {
    predicate Valid() {
      0 < |events| <= MAX_BATCH && |events| <= |faults.writes|
    }
  }

  predicate AllValid(batches: seq<Batch>) {
    forall i :: 0 <= i < |batches| ==> batches[i].Valid()
  }

  /** The log after a sequence of batches. */
  function Serve(log: Log, batches: seq<Batch>): Log
    requires AllValid(batches)
    decreases |batches|
  {
    if batches == [] then log
    else Serve(ProcessBatch(log, batches[0].events, batches[0].faults).log, batches[1..])
  }

  /** The events whose frames a sequence of batches wrote, acknowledged or not. */
  function ServedFrames(log: Log, batches: seq<Batch>): seq<IngestEvent>
    requires AllValid(batches)
    decreases |batches|
  {
    if batches == [] then []
    else
      var r := ProcessBatch(log, batches[0].events, batches[0].faults);
      batches[0].events[..if |r.toIndex| <= |batches[0].events| then |r.toIndex| else 0] +
      ServedFrames(r.log, batches[1..])
  }

  /**
   Over every sequence of batches, whatever fails in them, the invariant holds and the log lists exactly the frames
   written, in order, after those it already had.
   */
  lemma {:induction false} ServeRefinesEventList(log: Log, batches: seq<Batch>)
    requires Inv(log) && AllValid(batches)
    ensures Inv(Serve(log, batches)) && Grows(log, Serve(log, batches))
    ensures AllFrames(Serve(log, batches).Files()) == AllFrames(log.Files()) + ServedFrames(log, batches)
    decreases |batches|
  {
    hide Inv, Grows, ProcessBatch, Entries;
    GrowsReflexive(log);
    if batches != [] {
      var b := batches[0];
      var r := ProcessBatch(log, b.events, b.faults);
      BatchEffect(log, b.events, b.faults);
      ServeRefinesEventList(r.log, batches[1..]);
      GrowsTransitive(log, r.log, Serve(log, batches));
    }
  }

  // ---------------------------------------------------------------- the appender

  class WalAppender {
    var closed: seq<File>      // earlier files of the directory
    var file: File             // the file the writer holds open
    var buffer: seq<byte>      // the writer's buffer
    var currentOffset: nat
    var currentFileSize: nat

    function State(): Log
      reads this
    {
      Log(closed, file, buffer, currentOffset, currentFileSize)
    }

    constructor (currentOffset: nat, existing: seq<byte>)
      ensures State() == Open(currentOffset, existing)
      ensures closed == [] && file.start == currentOffset && file.data == existing && file.linked && file.synced == 0
      ensures buffer == [] && this.currentOffset == currentOffset && currentFileSize == |existing|
    {
      closed := [];
      file := File(currentOffset, existing, 0, [Stray(existing)], true);
      buffer := [];
      this.currentOffset := currentOffset;
      currentFileSize := |existing|;
    }

    /**
     `writer.write_all(bytes)`, when the writer accepts `room` more bytes before it fails. Since the frame `f` was begun
     on the buffer contents `was`, its first `k` bytes have been written; `bytes` are the next ones.
     */
    method WriteAll(bytes: seq<byte>, room: nat, ghost was: seq<byte>, ghost f: seq<byte>, ghost k: nat)
      returns (ok: bool, left: nat)
      requires k + |bytes| <= |f| && bytes == f[k..k + |bytes|] && buffer == was + f[..k]
      modifies this`buffer
      ensures ok == (|bytes| <= room)
      ensures left == if ok then room - |bytes| else 0
      ensures buffer == was + f[..if ok then k + |bytes| else k + room]
    {
      ok := |bytes| <= room;
      var n := if ok then |bytes| else room;
      assert f[..k] + bytes[..n] == f[..k + n];
      buffer := buffer + bytes[..n];
      left := room - n;
    }

    /** The five writes of one frame; the first that fails ends the frame. */
    method AppendFrame(e: IngestEvent, w: WriteOutcome) returns (ok: bool)
      modifies this
      ensures State() == WriteFrame(old(State()), e, w)
      ensures ok == w.Accepted?
    {
      hide EncodeFrame, Spill, Torn;
      ok := WriteOrTear(e, w);
      Account(e, w);
    }

    /** The bytes of the frame, or those accepted before the failure. */
    method WriteOrTear(e: IngestEvent, w: WriteOutcome) returns (ok: bool)
      modifies this`buffer
      ensures buffer == old(buffer) + if w.Accepted? then EncodeFrame(e) else Torn(e, w.accepted)
      ensures ok == w.Accepted?
    {
      hide EncodeFrame, Checksum.Crc32;
      var room := if w.Accepted? then FrameLen(e)
                  else if w.accepted < FrameLen(e) then w.accepted else FrameLen(e) - 1;
      assert EncodeFrame(e)[..FrameLen(e)] == EncodeFrame(e);
      ok := WriteFields(e, room);
    }

    /** What follows the writes: the counters move if the frame is complete, and the writer may pass bytes on. */
    method Account(e: IngestEvent, w: WriteOutcome)
      modifies this
      ensures var seg := if w.Accepted? then Frame(e) else Stray(Torn(e, w.accepted));
              var n, log := if w.Accepted? then FrameLen(e) else 0, old(State());
              State() == Spill(log.(active := log.active.(segments := log.active.segments + [seg]),
                                    offset := log.offset + n, size := log.size + n), w.spill)
    {
      hide EncodeFrame, Spill;
      if w.Accepted? {
        file := file.(segments := file.segments + [Frame(e)]);
        currentOffset := currentOffset + FrameLen(e);
        currentFileSize := currentFileSize + FrameLen(e);
      } else {
        file := file.(segments := file.segments + [Stray(Torn(e, w.accepted))]);
      }
      MoveToFile(w.spill);
    }

    /** The frame as bytes: lengths with the low byte first, name, payload, checksum; or what was accepted of it. */
    method WriteFields(e: IngestEvent, room: nat) returns (ok: bool)
      requires room <= FrameLen(e)
      modifies this`buffer
      ensures ok == (room == FrameLen(e))
      ensures buffer == old(buffer) + EncodeFrame(e)[..room]
      ensures ok ==>
                var k, n, m, crc := |old(buffer)|, |e.index|, |e.payload|, Checksum.Crc32(e.index + e.payload);
                && |buffer| == k + 10 + n + m && buffer[..k] == old(buffer)
                && buffer[k] == n % 256 && buffer[k + 1] == n / 256 % 256
                && buffer[k + 2..k + 2 + n] == e.index
                && buffer[k + 2 + n] == m % 256 && buffer[k + 3 + n] == m / 256 % 256
                && buffer[k + 4 + n] == m / 0x1_0000 % 256 && buffer[k + 5 + n] == m / 0x100_0000 % 256
                && buffer[k + 6 + n..k + 6 + n + m] == e.payload
                && buffer[k + 6 + n + m] == crc % 256 && buffer[k + 7 + n + m] == crc / 256 % 256
                && buffer[k + 8 + n + m] == crc / 0x1_0000 % 256 && buffer[k + 9 + n + m] == crc / 0x100_0000 % 256
    {
      hide EncodeFrame, Checksum.Crc32;
      ok := WriteEach(e, room);
      if ok {
        assert EncodeFrame(e)[..room] == EncodeFrame(e);
        FrameInBuffer(buffer, old(buffer), e);
      }
    }

    method WriteEach(e: IngestEvent, room: nat) returns (ok: bool)
      requires room <= FrameLen(e)
      modifies this`buffer
      ensures ok == (room == FrameLen(e))
      ensures buffer == old(buffer) + EncodeFrame(e)[..room]
    {
      hide Le16, Le32, FromLe16, FromLe32, Checksum.Crc32, EncodeFrame;
      var left := room;
      ghost var was, f, n, m := buffer, EncodeFrame(e), |e.index|, |e.payload|;
      FrameFields(e, []);
      assert f + [] == f;
      ok, left := WriteAll(Le16(|e.index| % TWO16), left, was, f, 0);
      if ok {
        ok, left := WriteAll(e.index, left, was, f, 2);
      }
      if ok {
        ok, left := WriteAll(Le32(|e.payload| % TWO32), left, was, f, 2 + n);
      }
      if ok {
        ok, left := WriteAll(e.payload, left, was, f, 6 + n);
      }
      if ok {
        ok, left := WriteAll(Le32(Checksum.Crc32(e.index + e.payload)), left, was, f, 6 + n + m);
      }
    }

    /** The writer passes the first `k` buffered bytes on to the file. */
    method MoveToFile(k: nat)
      modifies this`file, this`buffer
      ensures State() == Spill(old(State()), k)
    {
      var n := if k <= |buffer| then k else |buffer|;
      file := file.(data := file.data + buffer[..n]);
      buffer := buffer[n..];
    }

    method FlushWriter(o: FlushOutcome) returns (ok: bool)
      modifies this`file, this`buffer
      ensures State() == Flush(old(State()), o)
      ensures ok == (o == Flushed)
    {
      MoveToFile(match o case Flushed => |buffer| case FlushFailed(moved) => moved);
      ok := o == Flushed;
    }

    method SyncData(succeeds: bool) returns (ok: bool)
      modifies this`file
      ensures State() == if succeeds then Sync(old(State())) else old(State())
      ensures ok == succeeds
    {
      if succeeds {
        file := file.(synced := |file.data|);
      }
      ok := succeeds;
    }

    /** Rotation. The repeated flush and sync change nothing, whatever becomes of them. */
    method RotateIfLarge(faults: BatchFaults)
      requires buffer == [] && file.synced == |file.data|
      modifies this
      ensures State() == Rotate(old(State()), faults.opens)
    {
      if currentFileSize >= ROTATE_BYTES {
        var _ := FlushWriter(faults.reflush);
        assert file.data == old(file).data && buffer == [];
        var _ := SyncData(faults.resyncs);
        assert file == old(file);
        if faults.opens {
          closed := closed + [file];
          file := File(currentOffset, [], 0, [], true);
          buffer := [];
          currentFileSize := 0;
        }
      }
    }

    /** Takes one request, then whatever else is waiting, up to the batch limit. */
    static method DrainChannel(channel: seq<IngestEvent>) returns (batch: seq<IngestEvent>, rest: seq<IngestEvent>)
      requires channel != []
      ensures batch + rest == channel
      ensures |batch| == if |channel| <= 5000 then |channel| else 5000
    {
      batch, rest := [channel[0]], channel[1..];
      while rest != []
        invariant batch + rest == channel
        invariant 0 < |batch| < MAX_BATCH
        decreases |rest|
      {
        batch, rest := batch + [rest[0]], rest[1..];
        if |batch| >= MAX_BATCH {
          break;
        }
      }
    }

    /** Writes the frames of a batch until one fails. */
    method AppendBatch(batch: seq<IngestEvent>, writes: seq<WriteOutcome>)
      returns (toIndex: seq<Entry>, success: bool)
      requires |batch| <= |writes|
      modifies this
      ensures var r := WriteBatch(old(State()), batch, writes); State() == r.0 && toIndex == r.1
      ensures success == (|toIndex| == |batch|)
    {
      hide WriteFrame;
      toIndex, success := [], true;
      var i := 0;
      ghost var all := WriteBatch(State(), batch, writes);
      assert batch[0..] == batch && writes[0..] == writes;
      while i < |batch|
        invariant 0 <= i <= |batch| && |toIndex| == i && success
        invariant var r := WriteBatch(State(), batch[i..], writes[i..]);
                  all.0 == r.0 && all.1 == toIndex + r.1
      {
        var ok := AppendFrame(batch[i], writes[i]);
        assert batch[i..][1..] == batch[i + 1..] && writes[i..][1..] == writes[i + 1..];
        if !ok {
          success := false;
          break;
        }
        toIndex := toIndex + [Entry(batch[i], currentOffset)];
        i := i + 1;
      }
    }

    /** One turn of the appender's loop, with `channel` waiting to be received. */
    method RunBatch(channel: seq<IngestEvent>, faults: BatchFaults)
      returns (batch: seq<IngestEvent>, rest: seq<IngestEvent>, responses: seq<Response>, forwarded: seq<Entry>)
      requires channel != [] && |faults.writes| >= 5000
      modifies this
      ensures batch + rest == channel && 0 < |batch| <= 5000 && (rest == [] || |batch| == 5000)
      ensures var r := ProcessBatch(old(State()), batch, faults);
              && State() == r.log
              && |r.toIndex| <= |batch|
              && responses == Responses(r, |batch|)
              && forwarded == Forwarded(r)
      ensures Inv(old(State())) ==> Inv(State())
    {
      hide WriteBatch, Rotate, Flush, Sync, Inv, Grows;
      batch, rest := DrainChannel(channel);
      if Inv(State()) {
        BatchEffect(State(), batch, faults);
      }
      var toIndex, success := AppendBatch(batch, faults.writes);
      FlushedIsSynced(State());
      if success {
        success := FlushWriter(faults.flush);
      }
      if success {
        success := SyncData(faults.syncs);
      }
      if success {
        RotateIfLarge(faults);
      }
      responses := seq(|batch|, i => if i >= |toIndex| then Dropped else if success then Ok else Err);
      forwarded := if success then toIndex else [];
    }
  }

  /** `FrameOnDisk` for a frame appended to other bytes. */
  lemma FrameInBuffer(buffer: seq<byte>, was: seq<byte>, e: IngestEvent)
    requires buffer == was + EncodeFrame(e)
    ensures var k, n, m, crc := |was|, |e.index|, |e.payload|, Checksum.Crc32(e.index + e.payload);
            && |buffer| == k + 10 + n + m && buffer[..k] == was
            && buffer[k] == n % 256 && buffer[k + 1] == n / 256 % 256
            && buffer[k + 2..k + 2 + n] == e.index
            && buffer[k + 2 + n] == m % 256 && buffer[k + 3 + n] == m / 256 % 256
            && buffer[k + 4 + n] == m / 0x1_0000 % 256 && buffer[k + 5 + n] == m / 0x100_0000 % 256
            && buffer[k + 6 + n..k + 6 + n + m] == e.payload
            && buffer[k + 6 + n + m] == crc % 256 && buffer[k + 7 + n + m] == crc / 256 % 256
            && buffer[k + 8 + n + m] == crc / 0x1_0000 % 256 && buffer[k + 9 + n + m] == crc / 0x100_0000 % 256
  {
    hide EncodeFrame, Checksum.Crc32;
    var n, m := |e.index|, |e.payload|;
    FrameOnDisk(e);
    SliceAfter(was, EncodeFrame(e), 2, 2 + n);
    SliceAfter(was, EncodeFrame(e), 6 + n, 6 + n + m);
  }

  lemma SliceAfter(a: seq<byte>, b: seq<byte>, from: nat, to: nat)
    requires from <= to <= |b|
    ensures (a + b)[|a| + from..|a| + to] == b[from..to]
  {
  }

  lemma FlushedIsSynced(log: Log)
    ensures AllSynced(Sync(Flush(log, Flushed)))
  {
  }
}
