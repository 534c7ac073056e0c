/** Every step of the pipeline keeps its invariant; what the invariant means for a power loss. */
module PipelineSafety {
  import opened Codec
  import opened Segments
  import opened WalLog
  import opened Pipeline
  import Idx = Indexing
  import R = Retention

  // ---------------------------------------------------------------- the appender

  /** A step that only touches the log and the phase, and acknowledges nothing. */
  lemma LogStep(s: State, s': State)
    requires Pipeline.Inv(s)
    requires s'.acked == s.acked && s'.queue == s.queue && s'.indexer == s.indexer
    requires WalLog.Inv(s'.log) && Grows(s.log, s'.log)
    requires PhaseOk(s'.log, s'.phase) && InFlight(s.phase) == InFlight(s'.phase) == []
    requires Ordered(s')
    requires forall x <- Owed(s') :: x in Owed(s) || Stored(s'.log, x)
    ensures Pipeline.Inv(s')
  {
    hide WalLog.Inv, Idx.Inv, Grows, PhaseOk, Ordered, Stored, Owed;
    forall x <- Owed(s')
      ensures Stored(s'.log, x)
    {
      GrowsStored(s.log, s'.log, x);
    }
  }

  lemma TailPush<T>(t: seq<T>, s: seq<T>, x: T)
    requires TailOf(t, s)
    ensures TailOf(t + [x], s + [x])
  {
  }

  lemma IncreasingPush(xs: seq<Entry>, x: Entry, top: nat)
    requires Increasing(xs) && (forall y <- xs :: 0 < y.offset <= top) && top < x.offset
    ensures Increasing(xs + [x]) && forall y <- xs + [x] :: 0 < y.offset <= x.offset
  {
  }

  lemma WriteFrameEffect(log: Log, e: IngestEvent, w: WriteOutcome)
    requires WalLog.Inv(log)
    ensures var log' := WriteFrame(log, e, w);
            && WalLog.Inv(log') && Grows(log, log')
            && log'.offset == log.offset + (if w.Accepted? then FrameLen(e) else 0)
            && (w.Accepted? ==> log'.active.Written() == log.active.Written() + [Entry(e, log'.offset)])
  {
    hide WriteFrame, TotalLen, Entries, FramesOf, StrayLen, Tiled, Holds, Grows;
    WriteFrameKeepsInv(log, e, w);
    WriteFrameAdds(log, e, w);
    AppendFrame(log.active.start, log.active.Frames(), e);
  }

  lemma WriteStep(s: State, w: WriteOutcome)
    requires Pipeline.Inv(s) && s.phase.Writing? && s.phase.batch != []
    ensures Pipeline.Inv(AppenderStep(s, Write(w)))
  {
    hide WalLog.Inv, Idx.Inv, Grows, WriteFrame, Framable, Stored, Entries;
    var e, t := s.phase.batch[0], s.phase.toIndex;
    var s' := AppenderStep(s, Write(w));
    WriteFrameEffect(s.log, e, w);
    if w.Accepted? {
      var x := Entry(e, s'.log.offset);
      TailPush(t, s.log.active.Written(), x);
      assert s'.acked + Pending(s'.phase) == s.acked + Pending(s.phase) + [x];
      IncreasingPush(s.acked + Pending(s.phase), x, s.log.offset);
    } else {
      OrderedPrefix(s, s');
    }
    LogStep(s, s');
  }

  /** Dropping the pending entries keeps the order. */
  lemma OrderedPrefix(s: State, s': State)
    requires Ordered(s) && s'.acked == s.acked && Pending(s'.phase) == [] && s'.log.offset == s.log.offset
    ensures Ordered(s')
  {
    assert s'.acked + Pending(s'.phase) == s.acked;
    assert forall i :: 0 <= i < |s.acked| ==> (s.acked + Pending(s.phase))[i] == s.acked[i];
  }

  lemma FlushStep(s: State, o: FlushOutcome)
    requires Pipeline.Inv(s) && s.phase.Writing? && s.phase.batch == []
    ensures Pipeline.Inv(AppenderStep(s, FlushBuffer(o)))
  {
    hide WalLog.Inv, Idx.Inv, Grows, Framable, Stored, Entries;
    var s' := AppenderStep(s, FlushBuffer(o));
    FlushKeepsInv(s.log, o);
    if o != Flushed {
      OrderedPrefix(s, s');
    }
    LogStep(s, s');
  }

  lemma SyncStep(s: State, succeeds: bool)
    requires Pipeline.Inv(s) && s.phase.Syncing?
    ensures Pipeline.Inv(AppenderStep(s, SyncFile(succeeds)))
  {
    hide WalLog.Inv, Idx.Inv, Grows, Framable, Stored, Entries;
    var s' := AppenderStep(s, SyncFile(succeeds));
    SyncKeepsInv(s.log);
    GrowsReflexive(s.log);
    if !succeeds {
      OrderedPrefix(s, s');
    }
    LogStep(s, s');
  }

  lemma RotateStep(s: State, opens: bool)
    requires Pipeline.Inv(s) && s.phase.Rotating?
    ensures Pipeline.Inv(AppenderStep(s, RotateFile(opens)))
  {
    hide WalLog.Inv, Idx.Inv, Grows, Framable, Stored, Entries, AllSynced, Rotate;
    var s' := AppenderStep(s, RotateFile(opens));
    var t := s.phase.toIndex;
    GrowsReflexive(s.log);
    SyncedTail(s.log, t);
    RotateKeepsInv(s.log, opens);
    RotateOffset(s.log, opens);
    forall x <- Owed(s')
      ensures x in Owed(s) || Stored(s'.log, x)
    {
      if x in t {
        GrowsStored(s.log, s'.log, x);
      }
    }
    LogStep(s, s');
  }

  lemma RotateOffset(log: Log, opens: bool)
    ensures Rotate(log, opens).offset == log.offset
  {
  }

  /** The last entries of a synced file are stored. */
  lemma SyncedTail(log: Log, t: seq<Entry>)
    requires WalLog.Inv(log) && AllSynced(log) && TailOf(t, log.active.Written()) && t != []
    ensures log.active.Frames() != []
    ensures forall x <- t :: Stored(log, x)
  {
    hide TotalLen, Entries, BytesOf, FramesOf, StrayLen, Tiled, Synced;
    var a := log.active;
    assert log.Files()[|log.closed|] == a;
    assert a.data + log.buffer == a.data;
    forall x <- t
      ensures Stored(log, x)
    {
      assert x in a.Written();
      WrittenIsSynced(a, x);
    }
  }

  lemma AckStep(s: State)
    requires Pipeline.Inv(s) && s.phase.Responding? && !s.phase.sent
    ensures Pipeline.Inv(AppenderStep(s, Ack))
  {
    hide WalLog.Inv, Idx.Inv, Stored;
    var s', todo := AppenderStep(s, Ack), s.phase.todo;
    if todo != [] {
      assert s.acked + todo == s'.acked + todo[1..];
      assert s'.acked == ProcessedEntries(s.indexer.processed) + s.queue + [todo[0]];
    }
    assert forall x <- Owed(s') :: x in Owed(s);
  }

  lemma ForwardStep(s: State)
    requires Pipeline.Inv(s) && s.phase.Responding? && s.phase.sent
    ensures Pipeline.Inv(AppenderStep(s, Forward))
  {
    hide WalLog.Inv, Idx.Inv, Stored;
    var s', todo := AppenderStep(s, Forward), s.phase.todo;
    assert Pending(s'.phase) == todo[1..];
    assert Owed(s') == Owed(s);
    assert ProcessedEntries(s.indexer.processed) + s.queue + [todo[0]] ==
           ProcessedEntries(s.indexer.processed) + (s.queue + [todo[0]]);
  }

  lemma ReceiveStep(s: State, batch: seq<IngestEvent>)
    requires Pipeline.Inv(s) && s.phase.Waiting? && batch != []
    ensures Pipeline.Inv(AppenderStep(s, Receive(batch)))
  {
    hide WalLog.Inv, Idx.Inv, Grows, Framable, Stored, Entries;
    var s' := AppenderStep(s, Receive(batch));
    GrowsReflexive(s.log);
    OrderedPrefix(s, s');
    LogStep(s, s');
  }

  lemma AppenderKeepsInv(s: State, step: Step)
    requires Pipeline.Inv(s)
    ensures Pipeline.Inv(AppenderStep(s, step))
  {
    hide Pipeline.Inv, WriteFrame, Flush, Sync, Rotate;
    match (s.phase, step)
    case (Waiting, Receive(batch)) =>
      if batch != [] {
        ReceiveStep(s, batch);
      }
    case (Writing(batch, _), Write(w)) =>
      if batch != [] {
        WriteStep(s, w);
      }
    case (Writing(batch, _), FlushBuffer(o)) =>
      if batch == [] {
        FlushStep(s, o);
      }
    case (Syncing(_), SyncFile(succeeds)) => SyncStep(s, succeeds);
    case (Rotating(_), RotateFile(opens)) => RotateStep(s, opens);
    case (Responding(_, false), Ack) => AckStep(s);
    case (Responding(_, true), Forward) =>
      if s.phase.todo != [] {
        ForwardStep(s);
      }
    case (Rejecting, Reject) => RejectStep(s);
    case _ =>
  }

  lemma RejectStep(s: State)
    requires Pipeline.Inv(s) && s.phase.Rejecting?
    ensures Pipeline.Inv(s.(phase := Waiting))
  {
    hide WalLog.Inv, Idx.Inv, Grows, Stored, Entries;
    GrowsReflexive(s.log);
    LogStep(s, s.(phase := Waiting));
  }

  // ---------------------------------------------------------------- the indexer

  lemma IndexerMoves(s: State, s': State, step: Idx.Step, interval: nat)
    requires Pipeline.Inv(s) && Idx.Fresh(s.indexer, step)
    requires s' == s.(queue := s'.queue, indexer := Idx.Next(s.indexer, step, interval))
    requires ProcessedEntries(s'.indexer.processed) + s'.queue == ProcessedEntries(s.indexer.processed) + s.queue
    ensures Pipeline.Inv(s')
  {
    hide WalLog.Inv, Idx.Inv, Stored, PhaseOk, Idx.Next, Idx.Fresh;
    Idx.NextKeepsInv(s.indexer, step, interval);
    assert Owed(s') == Owed(s);
  }

  lemma IndexNextStep(s: State, env: Idx.EventEnv, interval: nat)
    requires Pipeline.Inv(s) && s.queue != [] && s.indexer.draining == map[]
    ensures Pipeline.Inv(IndexerStep(s, IndexNext(env), interval))
  {
    hide WalLog.Inv, Idx.Inv, Stored, PhaseOk, Idx.ProcessEvent;
    var s' := IndexerStep(s, IndexNext(env), interval);
    var x, ps := s.queue[0], ProcessedEntries(s.indexer.processed);
    QueueIsFresh(s);
    assert ProcessedEntries(s'.indexer.processed) == ps + [x];
    assert s.queue == [x] + s.queue[1..];
    IndexerMoves(s, s', Idx.Event(x, env), interval);
  }

  lemma QueueIsFresh(s: State)
    requires Delivered(s) && Ordered(s) && s.queue != []
    ensures Idx.LastOffset(s.indexer.processed) < s.queue[0].offset
  {
    var all, k := s.acked + Pending(s.phase), |s.indexer.processed|;
    assert s.queue[0] == s.acked[k] == all[k];
    if k > 0 {
      assert s.indexer.processed[k - 1].entry == s.acked[k - 1] == all[k - 1];
    }
  }

  lemma IndexerKeepsInv(s: State, step: Step, interval: nat)
    requires Pipeline.Inv(s)
    ensures Pipeline.Inv(IndexerStep(s, step, interval))
  {
    hide Pipeline.Inv;
    var s' := IndexerStep(s, step, interval);
    match step
    case IndexNext(env) =>
      if s.queue != [] && s.indexer.draining == map[] {
        IndexNextStep(s, env, interval);
      }
    case PurgeDocs(name, cutoff, env) => IndexerMoves(s, s', Idx.Purge(name, cutoff, env), interval);
    case Timer => IndexerMoves(s, s', Idx.Tick, interval);
    case CommitIndex(n, ok) => IndexerMoves(s, s', Idx.Commit(n, ok), interval);
    case _ =>
  }

  // ---------------------------------------------------------------- pruning

  lemma PruneFile(log: Log, committed: nat, maxBytes: nat, stuck: set<string>, i: nat)
    requires i < |log.Files()|
    ensures var log' := PruneLog(log, committed, maxBytes, stuck);
            && |log'.Files()| == |log.Files()|
            && log'.Files()[i] == log.Files()[i].(linked := log'.Files()[i].linked)
            && log'.Files()[i] == Unlink(log.Files()[i], R.Survivors(Listing(log.Files()), committed, maxBytes, stuck))
  {
    hide Listing, R.Survivors, Unlink;
    var log' := PruneLog(log, committed, maxBytes, stuck);
    if i < |log.closed| {
      assert log'.Files()[i] == log'.closed[i];
    }
    UnlinkOnlyUnlinks(log.Files()[i], R.Survivors(Listing(log.Files()), committed, maxBytes, stuck));
  }

  lemma UnlinkOnlyUnlinks(f: File, survivors: (seq<R.WalFile>, seq<R.WalFile>))
    ensures Unlink(f, survivors) == f.(linked := Unlink(f, survivors).linked)
  {
  }

  lemma PruneKeepsLogInv(log: Log, committed: nat, maxBytes: nat, stuck: set<string>)
    requires WalLog.Inv(log)
    ensures WalLog.Inv(PruneLog(log, committed, maxBytes, stuck))
  {
    hide TotalLen, BytesOf, FramesOf, StrayLen, PruneLog;
    var log' := PruneLog(log, committed, maxBytes, stuck);
    forall i | 0 <= i < |log.Files()|
      ensures |log'.Files()| == |log.Files()| && log'.Files()[i] == log.Files()[i].(linked := log'.Files()[i].linked)
    {
      PruneFile(log, committed, maxBytes, stuck, i);
    }
    PruneShape(log, committed, maxBytes, stuck);
    forall f <- log'.closed
      ensures ClosedOk(f)
    {
      var i :| 0 <= i < |log'.closed| && log'.closed[i] == f;
      assert log'.Files()[i] == f && log.Files()[i] == log.closed[i];
      assert ClosedOk(log.closed[i]);
    }
    assert log'.Files()[|log.closed|] == log'.active;
  }

  lemma PruneShape(log: Log, committed: nat, maxBytes: nat, stuck: set<string>)
    ensures var log' := PruneLog(log, committed, maxBytes, stuck);
            && |log'.closed| == |log.closed|
            && log'.active == log.active.(linked := log'.active.linked)
            && log' == log.(closed := log'.closed, active := log'.active)
  {
    hide R.Survivors, Listing;
  }

  lemma PruneStep(s: State, committed: nat, maxBytes: nat, stuck: set<string>)
    requires Pipeline.Inv(s)
    ensures Pipeline.Inv(s.(log := PruneLog(s.log, committed, maxBytes, stuck)))
  {
    hide WalLog.Inv, Idx.Inv, Entries, PruneLog, Stored;
    var s' := s.(log := PruneLog(s.log, committed, maxBytes, stuck));
    PruneKeepsLogInv(s.log, committed, maxBytes, stuck);
    PruneShape(s.log, committed, maxBytes, stuck);
    forall x <- Owed(s')
      ensures Stored(s'.log, x)
    {
      PruneKeepsStored(s.log, committed, maxBytes, stuck, x);
    }
  }

  /** Pruning removes directory entries, not the history of what was stored. */
  lemma PruneKeepsStored(log: Log, committed: nat, maxBytes: nat, stuck: set<string>, x: Entry)
    requires Stored(log, x)
    ensures Stored(PruneLog(log, committed, maxBytes, stuck), x)
  {
    hide PruneLog, Synced;
    var log' := PruneLog(log, committed, maxBytes, stuck);
    var f :| f in log.Files() && Synced(f, x);
    var i :| 0 <= i < |log.Files()| && log.Files()[i] == f;
    PruneFile(log, committed, maxBytes, stuck, i);
    SyncedUnlinked(f, log'.Files()[i].linked, x);
    assert Synced(log'.Files()[i], x);
  }

  lemma SyncedUnlinked(f: File, linked: bool, x: Entry)
    requires Synced(f, x)
    ensures Synced(f.(linked := linked), x)
  {
    hide BytesOf, FramesOf, TotalLen;
    var j :| 0 <= j < |f.segments| && SyncedAt(f, x, j);
    assert SyncedAt(f.(linked := linked), x, j);
  }

  // ---------------------------------------------------------------- runs

  lemma NextKeepsInv(s: State, step: Step, interval: nat)
    requires Pipeline.Inv(s)
    ensures Pipeline.Inv(Next(s, step, interval))
  {
    hide Pipeline.Inv, AppenderStep, IndexerStep, PruneLog;
    match step
    case Prune(committed, maxBytes, stuck) => PruneStep(s, committed, maxBytes, stuck);
    case IndexNext(_) => IndexerKeepsInv(s, step, interval);
    case PurgeDocs(_, _, _) => IndexerKeepsInv(s, step, interval);
    case Timer => IndexerKeepsInv(s, step, interval);
    case CommitIndex(_, _) => IndexerKeepsInv(s, step, interval);
    case _ => AppenderKeepsInv(s, step);
  }

  lemma {:induction false} RunKeepsInv(s: State, steps: seq<Step>, interval: nat)
    requires Pipeline.Inv(s)
    ensures Pipeline.Inv(Run(s, steps, interval))
    decreases |steps|
  {
    hide Pipeline.Inv, Next;
    if steps != [] {
      NextKeepsInv(s, steps[0], interval);
      RunKeepsInv(Next(s, steps[0], interval), steps[1..], interval);
    }
  }
}
