/** The promises of the pipeline, over all runs. */
module PipelineTheorems {
  import opened Bytes
  import opened Codec
  import opened Reading
  import opened Segments
  import opened WalLog
  import opened Pipeline
  import opened PipelineSafety
  import opened SafePruning
  import A = WalAppending
  import Idx = Indexing
  import Runs = IndexingRuns

  // ---------------------------------------------------------------- crash safety

  /** What a power loss leaves of the log's files, file by file. */
  predicate AfterPowerLoss(log: Log, contents: seq<seq<byte>>) {
    && |contents| == |log.Files()|
    && forall i :: 0 <= i < |contents| ==> Survives(log.Files()[i], contents[i])
  }

  /** An event read back, with the file it was found in. */
  datatype Found = Found(start: nat, entry: Entry)

  /** The entries of index `n` beyond an offset. */
  function Beyond(start: nat, xs: seq<Entry>, n: Idx.Name, offset: nat): seq<Found> {
    if xs == [] then []
    else (if xs[0].event.index == n && xs[0].offset > offset then [Found(start, xs[0])] else []) +
         Beyond(start, xs[1..], n, offset)
  }

  /** Replay for index `n`: every file still in the directory is read, and what lies beyond `offset` is kept. */
  function Replayed(fs: seq<File>, contents: seq<seq<byte>>, n: Idx.Name, offset: nat): seq<Found>
    requires |contents| == |fs|
    decreases |fs|
  {
    if fs == [] then []
    else (if fs[0].linked then Beyond(fs[0].start, ParseAll(contents[0], fs[0].start).entries, n, offset) else []) +
         Replayed(fs[1..], contents[1..], n, offset)
  }

  lemma {:induction false} BeyondMembers(start: nat, xs: seq<Entry>, n: Idx.Name, offset: nat, y: Found)
    ensures y in Beyond(start, xs, n, offset) <==>
            y.start == start && y.entry in xs && y.entry.event.index == n && y.entry.offset > offset
  {
    if xs != [] {
      BeyondMembers(start, xs[1..], n, offset, y);
      assert xs == [xs[0]] + xs[1..];
    }
  }

  /** File `i` is in the directory and the reader returns `y` from it. */
  predicate FoundIn(fs: seq<File>, contents: seq<seq<byte>>, y: Found, i: nat)
    requires |contents| == |fs| && i < |fs|
  {
    fs[i].linked && fs[i].start == y.start && y.entry in ParseAll(contents[i], fs[i].start).entries
  }

  lemma {:induction false} ReplayedMembers(fs: seq<File>, contents: seq<seq<byte>>, n: Idx.Name, offset: nat, y: Found)
    requires |contents| == |fs|
    ensures y in Replayed(fs, contents, n, offset) <==>
            && y.entry.event.index == n && y.entry.offset > offset
            && exists i :: 0 <= i < |fs| && FoundIn(fs, contents, y, i)
    decreases |fs|
  {
    hide ParseAll, Beyond;
    if fs != [] {
      ReplayedMembers(fs[1..], contents[1..], n, offset, y);
      BeyondMembers(fs[0].start, ParseAll(contents[0], fs[0].start).entries, n, offset, y);
      assert forall i :: 0 < i < |fs| ==>
          FoundIn(fs, contents, y, i) == FoundIn(fs[1..], contents[1..], y, i - 1);
      assert FoundIn(fs, contents, y, 0) && y.entry.event.index == n && y.entry.offset > offset <==>
             fs[0].linked && y in Beyond(fs[0].start, ParseAll(contents[0], fs[0].start).entries, n, offset);
      if i :| 0 <= i < |fs| - 1 && FoundIn(fs[1..], contents[1..], y, i) {
        assert FoundIn(fs, contents, y, i + 1);
      }
      if i :| 0 < i < |fs| && FoundIn(fs, contents, y, i) {
        assert FoundIn(fs[1..], contents[1..], y, i - 1);
      }
    }
  }

  /** The committed payload is a safe watermark: acknowledged events at or below it are settled. */
  lemma SafeWatermark(s: State, x: Entry)
    requires Pipeline.Inv(s) && x in s.acked && x.offset <= PayloadOf(s.indexer, x.event.index)
    ensures Settled(s.indexer, x)
  {
    hide WalLog.Inv, PhaseOk, Stored;
    var ix, n := s.indexer, x.event.index;
    var ps, all := ix.processed, s.acked + Pending(s.phase);
    var i :| 0 <= i < |s.acked| && s.acked[i] == x;
    assert all[i] == x;
    assert n in ix.writers && ix.writers[n].payload.Some?;
    assert Idx.WriterOk(ix.writers[n], ps, n);
    assert ps != [] ==> ps[|ps| - 1].entry == all[|ps| - 1];
    assert ps[i].entry == x;
    if ps[i].accepted {
      AcceptedMember(ps, i);
    }
  }

  lemma {:induction false} AcceptedMember(ps: seq<Idx.Processed>, i: nat)
    requires i < |ps| && ps[i].accepted
    ensures ps[i].entry in Idx.AcceptedOf(ps, ps[i].entry.event.index)
    decreases |ps|
  {
    if i < |ps| - 1 {
      AcceptedMember(ps[..|ps| - 1], i);
    }
  }

  /** The frame of `x`, segment `j` of its file, read back from its own position. */
  function FrameOf(f: File, x: Entry, j: nat): Found
    requires j < |f.segments|
  {
    Found(f.start, Entry(x.event, f.Position(j)))
  }

  /** This process has not committed the index yet, and a commit of an earlier one claims what lies at `position`. */
  predicate Superseded(s: State, n: Idx.Name, position: nat) {
    OwnPayload(s.indexer, n).None? && n in s.prior && position <= s.prior[n]
  }

  /**
   What it takes for the frame of an event that is not settled to be replayed: its file is in the directory, the event
   fits the frame format, all the file had accepted before it is legible, and no payload of an earlier process covers
   it.
   */
  predicate Recoverable(s: State, f: File, x: Entry, j: nat)
    requires j < |f.segments|
  {
    && f.linked
    && Framable(x.event)
    && f.LegibleUpTo(j)
    && !Superseded(s, x.event.index, f.Position(j))
  }

  /**
   Crash safety, end to end and exactly. In every run of appender, indexer and retention steps, whatever I/O fails,
   whatever is pruned and whatever an earlier process left behind, and after every power loss: each event that was
   answered `Ok` has its whole frame in the synced bytes of a file. If it is not in its index's committed operations,
   and was not rejected by the indexer, that frame is replayed iff it is recoverable.
   */
  lemma CrashSafety(origin: nat, existing: seq<byte>, prior: map<Idx.Name, nat>, steps: seq<Step>, interval: nat,
                    contents: seq<seq<byte>>, x: Entry) returns (f: File, j: nat)
    requires var s := Run(Initial(origin, existing, prior), steps, interval);
             AfterPowerLoss(s.log, contents) && x in s.acked
    ensures var s := Run(Initial(origin, existing, prior), steps, interval);
            var n := x.event.index;
            && f in s.log.Files() && SyncedAt(f, x, j)
            && (|| x in CommittedAdds(s.indexer, n)
                || Idx.Processed(x, false) in s.indexer.processed
                || (FrameOf(f, x, j) in Replayed(s.log.Files(), contents, n, ReplayFrom(s, n)) <==>
                    Recoverable(s, f, x, j)))
  {
    hide Pipeline.Inv, Run, Replayed, SyncedAt, Recoverable, ReplayFrom;
    InitialInv(origin, existing, prior);
    RunKeepsInv(Initial(origin, existing, prior), steps, interval);
    var s := Run(Initial(origin, existing, prior), steps, interval);
    f := FileOf(s, x);
    j :| 0 <= j < |f.segments| && SyncedAt(f, x, j);
    if !Settled(s.indexer, x) {
      SurvivesIff(s, contents, f, x, j);
    }
  }

  /** The file an acknowledged event is stored in. */
  lemma FileOf(s: State, x: Entry) returns (f: File)
    requires Pipeline.Inv(s) && x in s.acked
    ensures f in s.log.Files() && Synced(f, x)
  {
    hide WalLog.Inv, Idx.Inv, PhaseOk, Delivered, Ordered, Synced;
    assert x in Owed(s);
    f :| f in s.log.Files() && Synced(f, x);
  }

  /**
   In every run, an event is answered `Ok` only when its whole frame is in the synced bytes of a file, in its place:
   after the segments, stray bytes included, that the file had accepted before it.
   */
  lemma AckedIsSynced(origin: nat, existing: seq<byte>, prior: map<Idx.Name, nat>, steps: seq<Step>, interval: nat,
                      x: Entry) returns (f: File, j: nat)
    requires x in Run(Initial(origin, existing, prior), steps, interval).acked
    ensures f in Run(Initial(origin, existing, prior), steps, interval).log.Files()
    ensures Recorded(f.start, f.segments, x, j)
    ensures var from, to := |BytesOf(f.segments[..j])|, |BytesOf(f.segments[..j + 1])|;
            from <= to <= f.synced <= |f.data| && f.data[from..to] == EncodeFrame(x.event)
  {
    hide Pipeline.Inv, Run, BytesOf, Recorded, EncodeFrame;
    InitialInv(origin, existing, prior);
    RunKeepsInv(Initial(origin, existing, prior), steps, interval);
    var s := Run(Initial(origin, existing, prior), steps, interval);
    f := FileOf(s, x);
    j :| 0 <= j < |f.segments| && SyncedAt(f, x, j);
    FilePrefix(s, f);
    SyncedBytes(f, x, j);
  }

  lemma FilePrefix(s: State, f: File)
    requires Pipeline.Inv(s) && f in s.log.Files()
    ensures f.data <= BytesOf(f.segments) && f.synced <= |f.data|
  {
    hide WalLog.Inv, Idx.Inv, PhaseOk, Delivered, Ordered, Stored;
    DataIsPrefix(s.log, f);
  }

  /**
   What replay from an offset brings back of the stored frames, exactly: those of framable events, in files of the
   directory, behind nothing illegible, at positions beyond the offset. Positions are recorded offsets plus stray
   bytes, so a committed event comes back iff the payload of its index lies below its position.
   */
  lemma ReplayedIff(s: State, contents: seq<seq<byte>>, f: File, x: Entry, j: nat, offset: nat)
    requires Pipeline.Inv(s) && AfterPowerLoss(s.log, contents) && f in s.log.Files() && SyncedAt(f, x, j)
    ensures FrameOf(f, x, j) in Replayed(s.log.Files(), contents, x.event.index, offset) <==>
            f.linked && Framable(x.event) && f.LegibleUpTo(j) && f.Position(j) > offset
    ensures f.Position(j) == x.offset + StrayLen(f.segments[..j + 1])
  {
    hide Pipeline.Inv, ParseAll, Replayed, BytesOf, StrayLen, FramesOf, TotalLen, Legible, Framable, Survives,
         DistinctStarts;
    var fs := s.log.Files();
    var i :| 0 <= i < |fs| && fs[i] == f;
    FilePrefix(s, f);
    SurvivingFrames(f, contents[i], x, j);
    PositionOfRecorded(f.start, f.segments, x, j);
    ReplayedMembers(fs, contents, x.event.index, offset, FrameOf(f, x, j));
    FileByStart(s, i);
    assert f.linked && Framable(x.event) && f.LegibleUpTo(j) ==> FoundIn(fs, contents, FrameOf(f, x, j), i);
  }

  /** No two files start at the same offset. */
  lemma FileByStart(s: State, i: nat)
    requires Pipeline.Inv(s) && i < |s.log.Files()|
    ensures forall k :: 0 <= k < |s.log.Files()| && s.log.Files()[k].start == s.log.Files()[i].start ==> k == i
  {
    hide WalLog.Inv, Idx.Inv, PhaseOk, Delivered, Ordered, Stored;
    StartsIncrease(s.log);
  }

  /**
   Replay invents nothing: whatever comes back was written to a file still there, or was in its stray bytes, such as
   what it held at the start, or lies beyond the first damage in it.
   */
  lemma ReplayOnlyWritten(s: State, contents: seq<seq<byte>>, n: Idx.Name, offset: nat, y: Found) returns (f: File)
    requires Pipeline.Inv(s) && AfterPowerLoss(s.log, contents)
    requires y in Replayed(s.log.Files(), contents, n, offset)
    ensures f in s.log.Files() && f.linked && f.start == y.start
    ensures y.entry.offset <= f.SoundEnd() ==>
              exists j :: 0 <= j < |f.segments| && ComesFrom(f.start, f.segments, y.entry, j)
  {
    hide Pipeline.Inv, ParseAll, Replayed, BytesOf, ComesFrom;
    var fs := s.log.Files();
    ReplayedMembers(fs, contents, n, offset, y);
    var i :| 0 <= i < |fs| && FoundIn(fs, contents, y, i);
    f := fs[i];
    FilePrefix(s, f);
    ReadOnlyWritten(f, contents[i], y.entry);
  }

  /**
   What survives a power loss, exactly: the frame of an acknowledged unsettled event is replayed iff it is
   recoverable.
   */
  lemma SurvivesIff(s: State, contents: seq<seq<byte>>, f: File, x: Entry, j: nat)
    requires Pipeline.Inv(s) && AfterPowerLoss(s.log, contents)
    requires x in s.acked && !Settled(s.indexer, x) && f in s.log.Files() && SyncedAt(f, x, j)
    ensures FrameOf(f, x, j) in Replayed(s.log.Files(), contents, x.event.index, ReplayFrom(s, x.event.index)) <==>
            Recoverable(s, f, x, j)
  {
    hide Pipeline.Inv, Replayed, Settled, BytesOf, FramesOf, StrayLen, TotalLen, Framable, Legible;
    ReplayedIff(s, contents, f, x, j, ReplayFrom(s, x.event.index));
    if x.offset <= PayloadOf(s.indexer, x.event.index) {
      SafeWatermark(s, x);
    }
  }

  /** A step that damages nothing: its events fit the frame format and no frame write fails after its first byte. */
  predicate Harmless(step: Step) {
    match step
    case Receive(batch) => AllFramable(batch)
    case Write(Refused(accepted, _)) => accepted == 0
    case _ => true
  }

  predicate SoundLog(log: Log) {
    forall f <- log.Files() :: SoundFile(f)
  }

  predicate Undamaged(s: State) {
    && SoundLog(s.log)
    && (s.phase.Writing? ==> AllFramable(s.phase.batch))
  }

  lemma NextDamagesNothing(s: State, step: Step, interval: nat)
    requires Undamaged(s) && Harmless(step)
    ensures Undamaged(Next(s, step, interval))
  {
    hide AllFramable, Idx.Next, PruneLog, WriteFrame, Rotate, SoundLog;
    var log := s.log;
    match step
    case Prune(committed, maxBytes, stuck) => PruneDamagesNothing(log, committed, maxBytes, stuck);
    case Write(w) =>
      if s.phase.Writing? && s.phase.batch != [] {
        WriteDamagesNothing(log, s.phase.batch, w);
      }
    case FlushBuffer(o) => SameSegments(log, Flush(log, o));
    case SyncFile(_) => SameSegments(log, Sync(log));
    case RotateFile(opens) => RotateDamagesNothing(log, opens);
    case _ =>
  }

  lemma SameSegments(log: Log, log': Log)
    requires SoundLog(log) && log'.closed == log.closed
    requires SoundFile(log'.active) || log'.active.segments == log.active.segments
    ensures SoundLog(log')
  {
    hide Sound;
    assert log.Files()[|log.closed|] == log.active;
    assert log.active in log.Files();
    forall f <- log'.Files()
      ensures SoundFile(f)
    {
      assert f in log.closed || f == log'.active;
      assert f in log.closed ==> f in log.Files();
    }
  }

  lemma WriteDamagesNothing(log: Log, batch: seq<IngestEvent>, w: WriteOutcome)
    requires SoundLog(log) && AllFramable(batch) && batch != [] && (w.Refused? ==> w.accepted == 0)
    ensures SoundLog(WriteFrame(log, batch[0], w)) && AllFramable(batch[1..])
  {
    hide Framable, EncodeFrame, Legible;
    assert batch[0] in batch;
    assert log.Files()[|log.closed|] == log.active;
    assert SoundFile(log.active);
    NoBytesLegible();
    SameSegments(log, WriteFrame(log, batch[0], w));
  }

  lemma RotateDamagesNothing(log: Log, opens: bool)
    requires SoundLog(log)
    ensures SoundLog(Rotate(log, opens))
  {
    hide Sound;
    var log' := Rotate(log, opens);
    forall f <- log'.Files()
      ensures SoundFile(f)
    {
      assert f in log.Files() || f == log'.active;
    }
  }

  lemma PruneDamagesNothing(log: Log, committed: nat, maxBytes: nat, stuck: set<string>)
    requires SoundLog(log)
    ensures SoundLog(PruneLog(log, committed, maxBytes, stuck))
  {
    hide Sound, PruneLog;
    var log' := PruneLog(log, committed, maxBytes, stuck);
    PruneShape(log, committed, maxBytes, stuck);
    forall f <- log'.Files()
      ensures SoundFile(f)
    {
      var i :| 0 <= i < |log'.Files()| && log'.Files()[i] == f;
      PruneFile(log, committed, maxBytes, stuck, i);
      assert log.Files()[i] in log.Files();
    }
  }

  lemma {:induction false} RunDamagesNothing(s: State, steps: seq<Step>, interval: nat)
    requires Undamaged(s) && forall i :: 0 <= i < |steps| ==> Harmless(steps[i])
    ensures Undamaged(Run(s, steps, interval)) && Run(s, steps, interval).prior == s.prior
    decreases |steps|
  {
    hide Undamaged, Harmless, WriteFrame, PruneLog, Idx.Next;
    if steps != [] {
      NextDamagesNothing(s, steps[0], interval);
      RunDamagesNothing(Next(s, steps[0], interval), steps[1..], interval);
    }
  }

  /** The first file still begins with what it held at the start. */
  predicate BeginsWith(log: Log, origin: nat, existing: seq<byte>) {
    var f := log.Files()[0];
    f.start == origin && f.segments != [] && f.segments[0] == Stray(existing)
  }

  lemma NextBeginsWith(s: State, step: Step, interval: nat, origin: nat, existing: seq<byte>)
    requires BeginsWith(s.log, origin, existing)
    ensures BeginsWith(Next(s, step, interval).log, origin, existing)
  {
    hide PruneLog, Idx.Next, EncodeFrame;
    if step.Prune? {
      PruneFile(s.log, step.committed, step.maxBytes, step.stuck, 0);
    }
  }

  lemma {:induction false} RunBeginsWith(s: State, steps: seq<Step>, interval: nat, origin: nat, existing: seq<byte>)
    requires BeginsWith(s.log, origin, existing)
    ensures BeginsWith(Run(s, steps, interval).log, origin, existing)
    decreases |steps|
  {
    hide Next, BeginsWith;
    if steps != [] {
      NextBeginsWith(s, steps[0], interval, origin, existing);
      RunBeginsWith(Next(s, steps[0], interval), steps[1..], interval, origin, existing);
    }
  }

  /** The frames written to the first file lie behind what it held at the start. */
  lemma BehindExisting(f: File, x: Entry, j: nat, existing: seq<byte>)
    requires f.segments != [] && f.segments[0] == Stray(existing) && SyncedAt(f, x, j)
    ensures f.Position(j) > f.start + |existing|
  {
    hide BytesOf, FramesOf, StrayLen, TotalLen, EncodeFrame;
    var ss := f.segments;
    assert ss[..1] == [] + [ss[0]] && ss[..0] == [];
    NoSegments();
    AppendSegment([], ss[0]);
    assert ss[..j + 1] == ss[..j] + [ss[j]];
    AppendSegment(ss[..j], ss[j]);
    FirstSegments(ss[..j], 1);
    assert ss[..j][..1] == ss[..1];
  }

  /**
   With harmless steps and safe prunes only, on a first file that is legible, such as a list of whole frames, crash
   safety has one exception left: payloads of an earlier process. There is none of those if no such payload exceeds
   the offset the process starts at, nor, for events in the first file, if none exceeds the end of what that file
   held.
   */
  lemma SafeRunCrashSafety(origin: nat, existing: seq<byte>, prior: map<Idx.Name, nat>, steps: seq<Step>, interval: nat,
                           contents: seq<seq<byte>>, x: Entry) returns (f: File, j: nat)
    requires Legible(existing)
    requires SafeRun(Initial(origin, existing, prior), steps, interval)
    requires forall i :: 0 <= i < |steps| ==> Harmless(steps[i])
    requires var s := Run(Initial(origin, existing, prior), steps, interval);
             AfterPowerLoss(s.log, contents) && x in s.acked
    ensures var s := Run(Initial(origin, existing, prior), steps, interval);
            var n := x.event.index;
            && f in s.log.Files() && SyncedAt(f, x, j)
            && (|| x in CommittedAdds(s.indexer, n)
                || Idx.Processed(x, false) in s.indexer.processed
                || (FrameOf(f, x, j) in Replayed(s.log.Files(), contents, n, ReplayFrom(s, n)) <==>
                    !Superseded(s, n, f.Position(j))))
            && (n in prior && prior[n] > origin + (if f == s.log.Files()[0] then |existing| else 0)
                <== Superseded(s, n, f.Position(j)))
  {
    hide Pipeline.Inv, Run, SafeRun, Replayed, Harmless, SyncedAt, Undamaged, NeededLinked, ReplayFrom, BeginsWith,
         Legible, WalLog.Inv;
    var s0 := Initial(origin, existing, prior);
    var s := Run(s0, steps, interval);
    f, j := CrashSafety(origin, existing, prior, steps, interval, contents, x);
    InitialSafe(origin, existing, prior);
    RunDamagesNothing(s0, steps, interval);
    RunKeepsInv(s0, steps, interval);
    RunKeepsNeeded(s0, steps, interval);
    RunBeginsWith(s0, steps, interval, origin, existing);
    NothingElseLost(s, f, x, j);
    PositionBeyondStart(s, f, x, j, origin, existing);
  }

  lemma InitialSafe(origin: nat, existing: seq<byte>, prior: map<Idx.Name, nat>)
    ensures var s := Initial(origin, existing, prior);
            && Pipeline.Inv(s) && NeededLinked(s) && BeginsWith(s.log, origin, existing)
            && (Legible(existing) ==> Undamaged(s))
  {
    InitialInv(origin, existing, prior);
  }

  lemma NothingElseLost(s: State, f: File, x: Entry, j: nat)
    requires Undamaged(s) && NeededLinked(s) && x in s.acked && f in s.log.Files() && SyncedAt(f, x, j)
    ensures Settled(s.indexer, x) || (f.linked && Framable(x.event) && f.LegibleUpTo(j))
  {
    hide BytesOf, FramesOf, TotalLen, Entries, Legible, Framable, Settled, Sound;
    SoundFileReads(f, x, j);
    SyncedIsWritten(f, x);
  }

  lemma PositionBeyondStart(s: State, f: File, x: Entry, j: nat, origin: nat, existing: seq<byte>)
    requires Pipeline.Inv(s) && BeginsWith(s.log, origin, existing) && f in s.log.Files() && SyncedAt(f, x, j)
    ensures f.Position(j) > origin + if f == s.log.Files()[0] then |existing| else 0
  {
    hide Idx.Inv, PhaseOk, Delivered, Ordered, Stored, BytesOf, FramesOf, StrayLen, TotalLen, WalLog.Inv;
    var fs := s.log.Files();
    if f == fs[0] {
      BehindExisting(f, x, j, existing);
    } else {
      var i :| 0 <= i < |fs| && fs[i] == f;
      StartsIncrease(s.log);
      PositionAfterStart(f, x, j);
    }
  }

  lemma PositionAfterStart(f: File, x: Entry, j: nat)
    requires SyncedAt(f, x, j)
    ensures f.Position(j) > f.start
  {
    hide BytesOf, FramesOf, EncodeFrame;
    assert f.segments[..j + 1] == f.segments[..j] + [f.segments[j]];
    AppendSegment(f.segments[..j], f.segments[j]);
  }

  // ---------------------------------------------------------------- exactly once

  /**
   Exactly once. In every run, failing commits included, the indexer has taken or will find in its channel exactly the
   acknowledged events in order, and each index's operations add exactly the accepted events of that index, once each
   and in log order.
   */
  lemma ExactlyOnce(origin: nat, existing: seq<byte>, prior: map<Idx.Name, nat>, steps: seq<Step>, interval: nat,
                    n: Idx.Name)
    ensures var s := Run(Initial(origin, existing, prior), steps, interval);
            && Delivered(s) && Increasing(s.acked)
            && Idx.Adds(Runs.OpsOf(s.indexer, n)) == Idx.AcceptedOf(s.indexer.processed, n)
            && Increasing(Idx.AcceptedOf(s.indexer.processed, n))
  {
    hide Run, WalLog.Inv, PhaseOk, Stored, Idx.Adds;
    InitialInv(origin, existing, prior);
    RunKeepsInv(Initial(origin, existing, prior), steps, interval);
    var s := Run(Initial(origin, existing, prior), steps, interval);
    var all := s.acked + Pending(s.phase);
    assert forall i :: 0 <= i < |s.acked| ==> all[i] == s.acked[i];
    AcceptedIncreasing(s.indexer.processed, n);
    if n in s.indexer.writers {
      assert Idx.WriterOk(s.indexer.writers[n], s.indexer.processed, n);
    } else {
      NoAdds();
    }
  }

  lemma NoAdds()
    ensures Idx.Adds([]) == []
  {
  }

  lemma {:induction false} AcceptedIncreasing(ps: seq<Idx.Processed>, n: Idx.Name)
    requires Idx.InOrder(ps)
    ensures Increasing(Idx.AcceptedOf(ps, n))
    ensures forall x <- Idx.AcceptedOf(ps, n) :: x.offset <= Idx.LastOffset(ps)
  {
    if ps != [] {
      var init := ps[..|ps| - 1];
      AcceptedIncreasing(init, n);
    }
  }

  predicate CommitsSucceed(steps: seq<Step>) {
    forall i :: 0 <= i < |steps| ==> (steps[i].CommitIndex? ==> steps[i].commits)
  }

  lemma NextKeepsBooks(s: State, step: Step, interval: nat)
    requires interval > 0 && Pipeline.Inv(s) && Runs.Bookkept(s.indexer, interval)
    requires step.CommitIndex? ==> step.commits
    ensures Runs.Bookkept(Next(s, step, interval).indexer, interval)
  {
    hide WalLog.Inv, Idx.Inv, PhaseOk, Stored, Runs.Bookkept, Idx.Next, AppenderStep, PruneLog;
    match step
    case IndexNext(env) =>
      if s.queue != [] && s.indexer.draining == map[] {
        QueueIsFresh(s);
        Runs.NextKeepsBooks(s.indexer, Idx.Event(s.queue[0], env), interval);
      }
    case PurgeDocs(name, cutoff, env) => Runs.NextKeepsBooks(s.indexer, Idx.Purge(name, cutoff, env), interval);
    case Timer => Runs.NextKeepsBooks(s.indexer, Idx.Tick, interval);
    case CommitIndex(n, ok) => Runs.NextKeepsBooks(s.indexer, Idx.Commit(n, ok), interval);
    case Prune(_, _, _) =>
    case _ => AppenderLeavesIndexer(s, step);
  }

  lemma AppenderLeavesIndexer(s: State, step: Step)
    ensures AppenderStep(s, step).indexer == s.indexer
  {
    hide WriteFrame, Flush, Sync, Rotate;
  }

  lemma {:induction false} RunKeepsBooks(s: State, steps: seq<Step>, interval: nat)
    requires interval > 0 && Pipeline.Inv(s) && Runs.Bookkept(s.indexer, interval)
    requires CommitsSucceed(steps)
    ensures Runs.Bookkept(Run(s, steps, interval).indexer, interval)
    decreases |steps|
  {
    hide Pipeline.Inv, Next, Runs.Bookkept;
    if steps != [] {
      NextKeepsInv(s, steps[0], interval);
      NextKeepsBooks(s, steps[0], interval);
      RunKeepsBooks(Next(s, steps[0], interval), steps[1..], interval);
    }
  }

  lemma InitialBooks(origin: nat, existing: seq<byte>, prior: map<Idx.Name, nat>, interval: nat)
    requires interval > 0
    ensures Runs.Bookkept(Initial(origin, existing, prior).indexer, interval)
  {
    Runs.NothingStaged(Idx.Idle);
  }

  // ---------------------------------------------------------------- batches

  function WriteSteps(batch: seq<IngestEvent>, writes: seq<WriteOutcome>): seq<Step>
    requires |batch| <= |writes|
    decreases |batch|
  {
    if batch == [] then []
    else [Write(writes[0])] + if writes[0].Refused? then [] else WriteSteps(batch[1..], writes[1..])
  }

  function AckSteps(todo: seq<Entry>): seq<Step>
    decreases |todo|
  {
    if todo == [] then [] else [Ack, Forward] + AckSteps(todo[1..])
  }

  /** The steps of one batch, taken without interruption. */
  function BatchSteps(log: Log, batch: seq<IngestEvent>, faults: A.BatchFaults): seq<Step>
    requires |batch| <= |faults.writes|
  {
    var r := A.ProcessBatch(log, batch, faults);
    [Receive(batch)] + WriteSteps(batch, faults.writes) +
    if |r.toIndex| < |batch| then [Reject]
    else if faults.flush != Flushed then [FlushBuffer(faults.flush), Reject]
    else if !faults.syncs then [FlushBuffer(Flushed), SyncFile(false), Reject]
    else [FlushBuffer(Flushed), SyncFile(true), RotateFile(faults.opens)] + AckSteps(r.toIndex)
  }

  lemma {:induction false} RunConcat(s: State, a: seq<Step>, b: seq<Step>, interval: nat)
    ensures Run(s, a + b, interval) == Run(Run(s, a, interval), b, interval)
    decreases |a|
  {
    hide Next;
    if a == [] {
      assert a + b == b;
    } else {
      assert (a + b)[1..] == a[1..] + b;
      RunConcat(Next(s, a[0], interval), a[1..], b, interval);
    }
  }

  lemma RunOne(s: State, step: Step, interval: nat)
    ensures Run(s, [step], interval) == Next(s, step, interval)
  {
    hide Next;
    assert [step][1..] == [];
  }

  lemma {:induction false} WriteStepsRun(s: State, batch: seq<IngestEvent>, writes: seq<WriteOutcome>,
                                         toIndex: seq<Entry>, interval: nat)
    requires |batch| <= |writes| && s.phase == Writing(batch, toIndex)
    ensures var (log, written) := A.WriteBatch(s.log, batch, writes);
            Run(s, WriteSteps(batch, writes), interval) ==
            s.(log := log, phase := if |written| < |batch| then Rejecting else Writing([], toIndex + written))
    decreases |batch|
  {
    hide WriteFrame, Run, Next;
    RunNone(s, interval);
    assert toIndex + [] == toIndex;
    if batch != [] {
      var s1 := Next(s, Write(writes[0]), interval);
      var more := if writes[0].Refused? then [] else WriteSteps(batch[1..], writes[1..]);
      RunCons(s, Write(writes[0]), more, interval);
      WriteEffect(s, writes[0], interval);
      RunNone(s1, interval);
      if writes[0].Accepted? {
        var x := Entry(batch[0], s1.log.offset);
        var rest := A.WriteBatch(s1.log, batch[1..], writes[1..]).1;
        WriteStepsRun(s1, batch[1..], writes[1..], toIndex + [x], interval);
        assert toIndex + [x] + rest == toIndex + ([x] + rest);
      }
    }
  }

  lemma WriteEffect(s: State, w: WriteOutcome, interval: nat)
    requires s.phase.Writing? && s.phase.batch != []
    ensures var e, log := s.phase.batch[0], WriteFrame(s.log, s.phase.batch[0], w);
            Next(s, Write(w), interval) ==
            s.(log := log, phase := if w.Refused? then Rejecting
                                    else Writing(s.phase.batch[1..], s.phase.toIndex + [Entry(e, log.offset)]))
  {
    hide WriteFrame;
  }

  lemma RunNone(s: State, interval: nat)
    ensures Run(s, [], interval) == s
  {
  }

  lemma RunCons(s: State, step: Step, steps: seq<Step>, interval: nat)
    ensures Run(s, [step] + steps, interval) == Run(Next(s, step, interval), steps, interval)
  {
    hide Next;
    assert ([step] + steps)[1..] == steps;
  }

  lemma {:induction false} AckStepsRun(s: State, todo: seq<Entry>, interval: nat)
    requires todo != [] && s.phase == Responding(todo, false)
    ensures Run(s, AckSteps(todo), interval) == s.(phase := Waiting, acked := s.acked + todo, queue := s.queue + todo)
    decreases |todo|
  {
    hide Run, Next;
    var s2 := Next(Next(s, Ack, interval), Forward, interval);
    RunNone(s2, interval);
    RunTwo(s, Ack, Forward, interval);
    AckEffect(s, todo, interval);
    RunConcat(s, [Ack, Forward], AckSteps(todo[1..]), interval);
    if |todo| > 1 {
      AckStepsRun(s2, todo[1..], interval);
      assert s.acked + [todo[0]] + todo[1..] == s.acked + todo;
      assert s.queue + [todo[0]] + todo[1..] == s.queue + todo;
    }
  }

  lemma AckEffect(s: State, todo: seq<Entry>, interval: nat)
    requires todo != [] && s.phase == Responding(todo, false)
    ensures Next(Next(s, Ack, interval), Forward, interval) ==
            s.(phase := if |todo| == 1 then Waiting else Responding(todo[1..], false),
               acked := s.acked + [todo[0]], queue := s.queue + [todo[0]])
    ensures |todo| == 1 ==> AckSteps(todo[1..]) == [] && todo == [todo[0]]
  {
  }

  lemma RunTwo(s: State, a: Step, b: Step, interval: nat)
    ensures Run(s, [a, b], interval) == Next(Next(s, a, interval), b, interval)
  {
    RunConcat(s, [a], [b], interval);
    RunOne(s, a, interval);
    RunOne(Next(s, a, interval), b, interval);
    assert [a] + [b] == [a, b];
  }

  /**
   The appender's batch is a run of the machine: with no other actor in between, the small steps of a batch leave the
   log that `ProcessBatch` computes and acknowledge and forward exactly what it forwards, whichever of its I/O fails.
   */
  lemma BatchIsARun(s: State, batch: seq<IngestEvent>, faults: A.BatchFaults, interval: nat)
    requires s.phase == Waiting && batch != [] && |batch| <= |faults.writes|
    ensures var r := A.ProcessBatch(s.log, batch, faults);
            Run(s, BatchSteps(s.log, batch, faults), interval) ==
            s.(log := r.log, acked := s.acked + A.Forwarded(r), queue := s.queue + A.Forwarded(r))
  {
    hide Run, Next, A.WriteBatch, Flush, Sync, Rotate, WriteSteps, AckSteps;
    var r := A.ProcessBatch(s.log, batch, faults);
    var (log1, toIndex) := A.WriteBatch(s.log, batch, faults.writes);
    var s0, s1 := s.(phase := Writing(batch, [])), s.(log := log1, phase := Writing([], toIndex));
    RunOne(s, Receive(batch), interval);
    ReceiveEffect(s, batch, interval);
    WriteStepsRun(s0, batch, faults.writes, [], interval);
    assert [] + toIndex == toIndex;
    var first := [Receive(batch)] + WriteSteps(batch, faults.writes);
    RunConcat(s, [Receive(batch)], WriteSteps(batch, faults.writes), interval);
    var rest := BatchSteps(s.log, batch, faults)[|first|..];
    assert BatchSteps(s.log, batch, faults) == first + rest;
    RunConcat(s, first, rest, interval);
    assert s.acked + [] == s.acked && s.queue + [] == s.queue;
    if |toIndex| < |batch| {
      assert rest == [Reject];
      RejectEffect(s.(log := log1, phase := Rejecting), interval);
    } else {
      assert rest == if faults.flush != Flushed then [FlushBuffer(faults.flush), Reject]
                     else if !faults.syncs then [FlushBuffer(Flushed), SyncFile(false), Reject]
                     else [FlushBuffer(Flushed), SyncFile(true), RotateFile(faults.opens)] + AckSteps(toIndex);
      FinishBatch(s1, toIndex, faults, interval);
    }
  }

  lemma ReceiveEffect(s: State, batch: seq<IngestEvent>, interval: nat)
    requires s.phase == Waiting && batch != []
    ensures Next(s, Receive(batch), interval) == s.(phase := Writing(batch, []))
  {
  }

  lemma RejectEffect(s: State, interval: nat)
    requires s.phase == Rejecting
    ensures Run(s, [Reject], interval) == s.(phase := Waiting)
  {
    RunOne(s, Reject, interval);
  }

  /** The part of a batch after its last frame was written. */
  lemma FinishBatch(s: State, toIndex: seq<Entry>, faults: A.BatchFaults, interval: nat)
    requires s.phase == Writing([], toIndex) && toIndex != []
    ensures var flushed := Flush(s.log, faults.flush);
            if faults.flush != Flushed then
              Run(s, [FlushBuffer(faults.flush), Reject], interval) == s.(log := flushed, phase := Waiting)
            else if !faults.syncs then
              Run(s, [FlushBuffer(Flushed), SyncFile(false), Reject], interval) == s.(log := flushed, phase := Waiting)
            else
              Run(s, [FlushBuffer(Flushed), SyncFile(true), RotateFile(faults.opens)] + AckSteps(toIndex), interval) ==
              s.(log := Rotate(Sync(flushed), faults.opens), phase := Waiting,
                 acked := s.acked + toIndex, queue := s.queue + toIndex)
  {
    hide Flush, Sync, Rotate, AckSteps, Run;
    var s1 := Next(s, FlushBuffer(faults.flush), interval);
    var s2 := Next(s1, SyncFile(faults.syncs), interval);
    RunTwo(s, FlushBuffer(faults.flush), Reject, interval);
    RunTwo(s, FlushBuffer(faults.flush), SyncFile(faults.syncs), interval);
    var head := [FlushBuffer(faults.flush), SyncFile(faults.syncs)];
    assert head + [Reject] == [FlushBuffer(faults.flush), SyncFile(faults.syncs), Reject];
    RunConcat(s, head, [Reject], interval);
    RunOne(s2, Reject, interval);
    if faults.flush == Flushed && faults.syncs {
      var rotate := RotateFile(faults.opens);
      assert [FlushBuffer(Flushed), SyncFile(true), rotate] == head + [rotate];
      RunConcat(s, head, [rotate], interval);
      RunOne(s2, rotate, interval);
      RunConcat(s, head + [rotate], AckSteps(toIndex), interval);
      AckStepsRun(Next(s2, rotate, interval), toIndex, interval);
    }
  }
}
