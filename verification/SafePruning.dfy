/** Pruning that is safe: it deletes no file that an unsettled event still needs. */
module SafePruning {
  import opened Codec
  import opened Segments
  import opened WalLog
  import opened Pipeline
  import opened PipelineSafety
  import Idx = Indexing
  import R = Retention

  /** Every event acknowledged, or still to be, with an offset up to `committed` is settled. */
  predicate SafePoint(s: State, committed: nat) {
    forall x <- s.acked + Pending(s.phase) :: x.offset <= committed ==> Settled(s.indexer, x)
  }

  /** The first pass deletes nothing needed, not the open file, and makes the emergency pass unnecessary. */
  predicate SafePrune(s: State, committed: nat, maxBytes: nat, stuck: set<string>) {
    var fs := Listing(s.log.Files());
    && SafePoint(s, committed)
    && committed < s.log.active.start + |s.log.active.data|
    && R.Size(R.StuckCommitted(fs, committed, stuck)) + R.Size(R.Uncommitted(fs, committed)) <= maxBytes
  }

  predicate PrunesSafely(s: State, step: Step) {
    step.Prune? ==> SafePrune(s, step.committed, step.maxBytes, step.stuck)
  }

  /** A run in which every prune is safe at the time it happens. */
  predicate SafeRun(s: State, steps: seq<Step>, interval: nat)
    decreases |steps|
  {
    steps != [] ==> PrunesSafely(s, steps[0]) && SafeRun(Next(s, steps[0], interval), steps[1..], interval)
  }

  /** The open file is in the directory, and so is every file with an unsettled event that is or may be acknowledged. */
  predicate NeededLinked(s: State) {
    && s.log.active.linked
    && forall f <- s.log.Files() :: !f.linked ==> Expendable(s, f)
  }

  predicate Expendable(s: State, f: File) {
    forall x <- f.Written() :: x in s.acked + Pending(s.phase) ==> Settled(s.indexer, x)
  }

  /** Once settled, an event stays settled. */
  lemma SettledForGood(ix: Idx.Indexer, step: Idx.Step, interval: nat, x: Entry)
    requires Settled(ix, x)
    ensures Settled(Idx.Next(ix, step, interval), x)
  {
    hide Idx.Adds;
    var n := x.event.index;
    if step.Commit? && n in ix.writers {
      Idx.AddsConcat(ix.writers[n].committed, ix.writers[n].staged);
    }
  }

  /** The frames of closed files end at or below the log's offset. */
  lemma ClosedBelow(log: Log, f: File, x: Entry)
    requires WalLog.Inv(log) && f in log.closed && x in f.Written()
    ensures x.offset <= log.offset
  {
    hide EncodeFrame, EncodeAll, Entries;
    EntriesAreFrameEnds(f.start, f.Frames());
    var i :| 0 <= i < |log.closed| && log.closed[i] == f;
    EndsBelow(log, i, |log.closed|);
    assert log.Files()[i] == f && log.Files()[|log.closed|] == log.active;
  }

  /** Each file ends at or below the start of every later one. */
  lemma {:induction false} EndsBelow(log: Log, i: nat, j: nat)
    requires WalLog.Inv(log) && i < j < |log.Files()|
    ensures log.Files()[i].End() <= log.Files()[j].start
    decreases j - i
  {
    hide EncodeFrame, EncodeAll;
    if i + 1 < j {
      EndsBelow(log, i + 1, j);
      assert log.Files()[i + 1] == log.closed[i + 1];
    }
  }

  /** A step of the appender keeps every needed file. */
  lemma AppenderKeepsNeeded(s: State, step: Step)
    requires Pipeline.Inv(s) && NeededLinked(s)
    ensures NeededLinked(AppenderStep(s, step))
  {
    hide WalLog.Inv, Idx.Inv, Settled, Stored, Entries, PhaseOk, Delivered;
    var s' := AppenderStep(s, step);
    AppenderFiles(s, step);
    forall f <- s'.log.Files() | !f.linked
      ensures Expendable(s', f)
    {
      assert f in s.log.closed && f in s.log.Files();
      forall x <- f.Written() | x in s'.acked + Pending(s'.phase)
        ensures Settled(s.indexer, x)
      {
        ClosedBelow(s.log, f, x);
        PendingGrows(s, step, x);
      }
    }
  }

  lemma AppenderFiles(s: State, step: Step)
    requires s.log.active.linked
    ensures var s' := AppenderStep(s, step);
            && s'.log.active.linked && s'.indexer == s.indexer
            && forall f <- s'.log.Files() :: f in s.log.closed || f.linked
  {
    hide EncodeFrame;
  }

  /** What is acknowledged or pending after a step was so before, or lies beyond everything written before. */
  lemma PendingGrows(s: State, step: Step, x: Entry)
    requires var s' := AppenderStep(s, step); x in s'.acked + Pending(s'.phase)
    ensures x in s.acked + Pending(s.phase) || x.offset > s.log.offset
  {
    hide EncodeFrame;
  }

  lemma IndexerKeepsNeeded(s: State, step: Step, interval: nat)
    requires NeededLinked(s)
    ensures NeededLinked(IndexerStep(s, step, interval))
  {
    hide Settled, Idx.Next, Entries;
    var s' := IndexerStep(s, step, interval);
    forall f <- s'.log.Files() | !f.linked
      ensures Expendable(s', f)
    {
      assert Expendable(s, f);
      forall x <- f.Written() | x in s'.acked + Pending(s'.phase)
        ensures Settled(s'.indexer, x)
      {
        IndexerStepSettles(s, step, interval, x);
      }
    }
  }

  lemma IndexerStepSettles(s: State, step: Step, interval: nat, x: Entry)
    requires Settled(s.indexer, x)
    ensures Settled(IndexerStep(s, step, interval).indexer, x)
  {
    hide Settled, Idx.Next;
    match step
    case IndexNext(env) =>
      if s.queue != [] {
        SettledForGood(s.indexer, Idx.Event(s.queue[0], env), interval, x);
      }
    case PurgeDocs(name, cutoff, env) => SettledForGood(s.indexer, Idx.Purge(name, cutoff, env), interval, x);
    case Timer => SettledForGood(s.indexer, Idx.Tick, interval, x);
    case CommitIndex(n, ok) => SettledForGood(s.indexer, Idx.Commit(n, ok), interval, x);
    case _ =>
  }

  lemma {:induction false} ListingMembers(fs: seq<File>, f: File)
    requires f in fs && f.linked
    ensures Listed(f) in Listing(fs)
  {
    if f != fs[0] {
      ListingMembers(fs[1..], f);
    }
  }

  /** A safe prune deletes only files that end at or below the committed offset. */
  lemma PrunedFiles(s: State, committed: nat, maxBytes: nat, stuck: set<string>, f: File)
    requires SafePrune(s, committed, maxBytes, stuck) && f in s.log.Files() && f.linked
    requires f.start + |f.data| > committed
    ensures Unlink(f, R.Survivors(Listing(s.log.Files()), committed, maxBytes, stuck)) == f
  {
    hide Listing;
    var fs := Listing(s.log.Files());
    ListingMembers(s.log.Files(), f);
    R.UncommittedMembers(fs, committed, Listed(f));
  }

  lemma PruneKeepsNeeded(s: State, committed: nat, maxBytes: nat, stuck: set<string>)
    requires Pipeline.Inv(s) && NeededLinked(s) && SafePrune(s, committed, maxBytes, stuck)
    ensures NeededLinked(s.(log := PruneLog(s.log, committed, maxBytes, stuck)))
  {
    hide Idx.Inv, WalLog.Inv, PruneLog, R.Survivors, Listing, SafePrune, Settled, Stored, Ordered, Delivered, PhaseOk,
         Entries;
    var log, log' := s.log, PruneLog(s.log, committed, maxBytes, stuck);
    var s' := s.(log := log');
    PruneFile(log, committed, maxBytes, stuck, |log.closed|);
    PruneShape(log, committed, maxBytes, stuck);
    assert log.Files()[|log.closed|] == log.active;
    OpenFileSpared(s, committed, maxBytes, stuck);
    forall f' <- log'.Files() | !f'.linked
      ensures Expendable(s', f')
    {
      var i :| 0 <= i < |log'.Files()| && log'.Files()[i] == f';
      PruneFile(log, committed, maxBytes, stuck, i);
      var f := log.Files()[i];
      assert f in log.Files() && Expendable(s, f) by {
        UnlinkedExpendable(s, committed, maxBytes, stuck, f);
      }
    }
  }

  lemma OpenFileSpared(s: State, committed: nat, maxBytes: nat, stuck: set<string>)
    requires SafePrune(s, committed, maxBytes, stuck) && s.log.active.linked
    ensures Unlink(s.log.active, R.Survivors(Listing(s.log.Files()), committed, maxBytes, stuck)).linked
  {
    hide R.Survivors, Listing, SafePoint;
    assert s.log.Files()[|s.log.closed|] == s.log.active;
    PrunedFiles(s, committed, maxBytes, stuck, s.log.active);
  }

  lemma UnlinkedExpendable(s: State, committed: nat, maxBytes: nat, stuck: set<string>, f: File)
    requires Pipeline.Inv(s) && NeededLinked(s) && SafePrune(s, committed, maxBytes, stuck) && f in s.log.Files()
    requires !Unlink(f, R.Survivors(Listing(s.log.Files()), committed, maxBytes, stuck)).linked
    ensures Expendable(s, f)
  {
    hide Idx.Inv, WalLog.Inv, R.Survivors, Listing, Settled, Stored, Ordered, Delivered, PhaseOk, Entries;
    if f.linked {
      if f.start + |f.data| > committed {
        PrunedFiles(s, committed, maxBytes, stuck, f);
        assert false;
      }
      ClosedFileEnd(s.log, f);
    }
  }

  /** A file that is not open has all its frames on disk. */
  lemma ClosedFileEnd(log: Log, f: File)
    requires WalLog.Inv(log) && f in log.closed
    ensures forall x <- f.Written() :: x.offset <= f.start + |f.data|
  {
    hide Entries, BytesOf, FramesOf, TotalLen;
    assert ClosedOk(f);
    BytesAreFrames(f.segments);
    EntriesAreFrameEnds(f.start, f.Frames());
  }

  lemma NextKeepsNeeded(s: State, step: Step, interval: nat)
    requires Pipeline.Inv(s) && NeededLinked(s) && PrunesSafely(s, step)
    ensures NeededLinked(Next(s, step, interval))
  {
    hide Pipeline.Inv, NeededLinked, AppenderStep, IndexerStep, PruneLog, SafePrune;
    match step
    case Prune(committed, maxBytes, stuck) => PruneKeepsNeeded(s, committed, maxBytes, stuck);
    case IndexNext(_) => IndexerKeepsNeeded(s, step, interval);
    case PurgeDocs(_, _, _) => IndexerKeepsNeeded(s, step, interval);
    case Timer => IndexerKeepsNeeded(s, step, interval);
    case CommitIndex(_, _) => IndexerKeepsNeeded(s, step, interval);
    case _ => AppenderKeepsNeeded(s, step);
  }

  /** In a run in which every prune is safe, no file that is still needed is ever deleted. */
  lemma {:induction false} RunKeepsNeeded(s: State, steps: seq<Step>, interval: nat)
    requires Pipeline.Inv(s) && NeededLinked(s) && SafeRun(s, steps, interval)
    ensures NeededLinked(Run(s, steps, interval))
    decreases |steps|
  {
    hide Pipeline.Inv, Next, NeededLinked, PrunesSafely;
    if steps != [] {
      NextKeepsInv(s, steps[0], interval);
      NextKeepsNeeded(s, steps[0], interval);
      RunKeepsNeeded(Next(s, steps[0], interval), steps[1..], interval);
    }
  }
}
