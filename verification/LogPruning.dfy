/** What pruning does to the log: order, contiguity, when it is safe, and when it cuts off the open file. */
module LogPruning {
  import opened Codec
  import opened Segments
  import opened WalLog
  import opened WalNames
  import opened Options
  import opened Pipeline
  import opened PipelineSafety
  import opened SafePruning
  import PipelineTheorems
  import A = WalAppending
  import Idx = Indexing
  import R = Retention

  // ---------------------------------------------------------------- the directory

  /** A log file's directory entry is read back as that file. */
  lemma ListedIsRead(f: File)
    requires f.start < U64
    ensures R.AsWal(R.DirEntry(WalName(f.start), true, Some(|f.data|))) == Some(Listed(f))
  {
    hide WalName, ParseName;
    NameRoundTrip(f.start);
  }

  lemma {:induction false} ListingIncreasing(fs: seq<File>)
    requires DistinctStarts(fs)
    ensures forall i, j :: 0 <= i < j < |Listing(fs)| ==> Listing(fs)[i].start < Listing(fs)[j].start
    ensures forall w <- Listing(fs) :: exists f <- fs :: w == Listed(f)
  {
    if fs != [] {
      ListingIncreasing(fs[1..]);
      forall w <- Listing(fs[1..])
        ensures fs[0].start < w.start && exists f <- fs :: w == Listed(f)
      {
        var f :| f in fs[1..] && w == Listed(f);
        assert f in fs;
      }
    }
  }

  /** The directory entries of the log's files. */
  function OwnEntries(fs: seq<File>): seq<R.DirEntry> {
    if fs == [] then []
    else (if fs[0].linked then [R.DirEntry(WalName(fs[0].start), true, Some(|fs[0].data|))] else []) +
         OwnEntries(fs[1..])
  }

  lemma {:induction false} OwnEntriesAreRead(fs: seq<File>)
    requires forall f <- fs :: f.start < U64
    ensures R.WalFiles(OwnEntries(fs)) == Listing(fs)
  {
    hide WalName, R.AsWal;
    if fs != [] {
      assert fs[0] in fs;
      OwnEntriesAreRead(fs[1..]);
      ListedIsRead(fs[0]);
      if fs[0].linked {
        var e := R.DirEntry(WalName(fs[0].start), true, Some(|fs[0].data|));
        R.WalFilesConcat([e], OwnEntries(fs[1..]));
        R.OneEntry(e);
      } else {
        assert [] + OwnEntries(fs[1..]) == OwnEntries(fs[1..]);
        assert [] + Listing(fs[1..]) == Listing(fs[1..]);
      }
    }
  }

  /**
   In whatever order the directory is read, and whatever else it holds that is not named like a WAL file, the worker
   processes exactly the log's files, in log order.
   */
  lemma DirectoryReadsAsListing(log: Log, foreign: seq<R.DirEntry>, entries: seq<R.DirEntry>)
    requires WalLog.Inv(log) && forall f <- log.Files() :: f.start < U64
    requires forall e <- foreign :: R.AsWal(e).None?
    requires multiset(entries) == multiset(OwnEntries(log.Files()) + foreign)
    ensures R.ByStart(R.WalFiles(entries)) == Listing(log.Files())
  {
    hide WalLog.Inv, Listing, R.ByStart, R.WalFiles, R.AsWal, OwnEntries;
    var own := OwnEntries(log.Files());
    R.WalFilesPermute(entries, own + foreign);
    R.WalFilesConcat(own, foreign);
    R.ForeignEntries(foreign);
    assert R.WalFiles(own) + [] == R.WalFiles(own);
    OwnEntriesAreRead(log.Files());
    StartsIncrease(log);
    ListingIncreasing(log.Files());
    R.DirectoryOrderIrrelevant(R.WalFiles(entries), Listing(log.Files()));
  }

  // ---------------------------------------------------------------- contiguity

  /** The files from position `k` on, and only those, are in the directory. */
  predicate LinkedFrom(fs: seq<File>, k: nat) {
    k <= |fs| && forall i :: 0 <= i < |fs| ==> (fs[i].linked <==> i >= k)
  }

  lemma {:induction false} ListingOfLinked(fs: seq<File>)
    requires forall i :: 0 <= i < |fs| ==> fs[i].linked
    ensures |Listing(fs)| == |fs| && forall i :: 0 <= i < |fs| ==> Listing(fs)[i] == Listed(fs[i])
  {
    if fs != [] {
      ListingOfLinked(fs[1..]);
      assert Listing(fs) == [Listed(fs[0])] + Listing(fs[1..]);
    }
  }

  lemma {:induction false} SkipUnlinked(fs: seq<File>, k: nat)
    requires k <= |fs| && forall i :: 0 <= i < k ==> !fs[i].linked
    ensures Listing(fs) == Listing(fs[k..])
  {
    if k > 0 {
      SkipUnlinked(fs[1..], k - 1);
      assert fs[1..][k - 1..] == fs[k..];
    } else {
      assert fs[0..] == fs;
    }
  }

  lemma ListingOfSuffix(fs: seq<File>, k: nat)
    requires LinkedFrom(fs, k)
    ensures |Listing(fs)| == |fs| - k
    ensures forall j :: 0 <= j < |fs| - k ==> Listing(fs)[j] == Listed(fs[k + j])
  {
    hide Listing, Listed;
    SkipUnlinked(fs, k);
    ListingOfLinked(fs[k..]);
  }

  /**
   Without failing deletions, what pruning leaves of the log is a contiguous suffix of its files, however often it is
   pruned.
   */
  lemma PruneLeavesSuffix(log: Log, k: nat, committed: nat, maxBytes: nat) returns (k': nat)
    requires WalLog.Inv(log) && (forall f <- log.Files() :: f.StrayBytes() == 0) && LinkedFrom(log.Files(), k)
    ensures k <= k' && LinkedFrom(PruneLog(log, committed, maxBytes, {}).Files(), k')
  {
    hide EncodeAll, EncodeFrame, PruneLog, R.Survivors, Listing, Listed, WalLog.Inv, Unlink, DistinctStarts;
    var fs, ws := log.Files(), Listing(log.Files());
    StartsIncrease(log);
    ListingOfSuffix(fs, k);
    SuffixTiled(log, k);
    var m := R.PruningKeepsSuffix(ws, committed, maxBytes);
    k' := k + m;
    PruneFile(log, committed, maxBytes, {}, 0);
    forall i | 0 <= i < |fs|
      ensures PruneLog(log, committed, maxBytes, {}).Files()[i].linked <==> i >= k'
    {
      PruneFile(log, committed, maxBytes, {}, i);
      LinkedAfter(fs, ws, k, m, i);
    }
  }

  /** The last files of a contiguous listing are the last files. */
  lemma LinkedAfter(fs: seq<File>, ws: seq<R.WalFile>, k: nat, m: nat, i: nat)
    requires DistinctStarts(fs) && LinkedFrom(fs, k) && |ws| == |fs| - k && m <= |ws| && i < |fs|
    requires forall j :: 0 <= j < |fs| - k ==> ws[j] == Listed(fs[k + j])
    ensures Unlink(fs[i], ([], ws[m..])).linked <==> i >= k + m
  {
    hide WalName;
    var left := ws[m..];
    assert forall j :: 0 <= j < |left| ==> left[j] == Listed(fs[k + m + j]);
    if i >= k + m {
      assert left[i - k - m] == Listed(fs[i]);
    }
  }

  lemma SuffixTiled(log: Log, k: nat)
    requires WalLog.Inv(log) && (forall f <- log.Files() :: f.StrayBytes() == 0) && LinkedFrom(log.Files(), k)
    ensures R.TiledFiles(Listing(log.Files()))
  {
    hide BytesOf, FramesOf, StrayLen, TotalLen, Listing;
    var fs, ws := log.Files(), Listing(log.Files());
    ListingOfSuffix(fs, k);
    forall i | 0 < i < |ws|
      ensures ws[i].start == ws[i - 1].End()
    {
      assert ws[i - 1] == Listed(fs[k + i - 1]) && ws[i] == Listed(fs[k + i]);
      assert fs[k + i - 1] == log.closed[k + i - 1];
      assert ClosedOk(log.closed[k + i - 1]) && fs[k + i - 1] in fs;
      BytesAreFrames(fs[k + i - 1].segments);
    }
  }

  // ---------------------------------------------------------------- safe committed offsets

  /**
   An offset is safe to prune up to if the indexer has got that far and no index with an acknowledged event has a
   smaller committed payload. Zero, which is what the worker passes, always is.
   */
  lemma PayloadFloorIsSafe(s: State, committed: nat)
    requires Pipeline.Inv(s) && committed <= Idx.LastOffset(s.indexer.processed)
    requires forall x <- s.acked :: committed <= PayloadOf(s.indexer, x.event.index)
    ensures SafePoint(s, committed)
  {
    hide WalLog.Inv, Idx.Inv, PhaseOk, Stored, Settled, PayloadOf;
    var all, ps := s.acked + Pending(s.phase), s.indexer.processed;
    assert ps != [] ==> ps[|ps| - 1].entry == all[|ps| - 1];
    forall x | x in all && x.offset <= committed
      ensures Settled(s.indexer, x)
    {
      var i :| 0 <= i < |all| && all[i] == x;
      if i < |s.acked| {
        assert x in s.acked;
        PipelineTheorems.SafeWatermark(s, x);
      }
    }
  }

  // ---------------------------------------------------------------- the open file

  lemma {:induction false} StuckMembers(fs: seq<R.WalFile>, committed: nat, stuck: set<string>, w: R.WalFile)
    ensures w in R.StuckCommitted(fs, committed, stuck) <==> w in fs && w.End() <= committed && w.name in stuck
  {
    if fs != [] {
      StuckMembers(fs[1..], committed, stuck, w);
      assert fs == [fs[0]] + fs[1..];
    }
  }

  lemma ListingStep(f: File, fs: seq<File>)
    ensures Listing([f] + fs) == (if f.linked then [Listed(f)] else []) + Listing(fs)
  {
    hide Listed;
    assert ([f] + fs)[1..] == fs;
  }

  lemma {:induction false} ListingConcat(a: seq<File>, b: seq<File>)
    ensures Listing(a + b) == Listing(a) + Listing(b)
  {
    hide Listed, Listing;
    if a == [] {
      assert a + b == b;
      NoListing();
    } else {
      var f, rest := a[0], a[1..];
      assert a == [f] + rest && a + b == [f] + (rest + b);
      ListingStep(f, rest);
      ListingStep(f, rest + b);
      ListingConcat(rest, b);
    }
  }

  lemma NoListing()
    ensures Listing([]) == []
  {
  }

  /** Where a file stands in the directory: behind the older files and before the newer ones, and only there. */
  lemma ListedOnce(log: Log, i: nat)
    requires WalLog.Inv(log) && i < |log.Files()| && log.Files()[i].linked
    ensures var w, before, after := Listed(log.Files()[i]), Listing(log.Files()[..i]), Listing(log.Files()[i + 1..]);
            Listing(log.Files()) == before + [w] + after && w !in before && w !in after
  {
    hide WalLog.Inv, DistinctStarts;
    var fs := log.Files();
    var w, before, after := Listed(fs[i]), Listing(fs[..i]), Listing(fs[i + 1..]);
    assert fs == fs[..i] + [fs[i]] + fs[i + 1..];
    ListingConcat(fs[..i] + [fs[i]], fs[i + 1..]);
    ListingConcat(fs[..i], [fs[i]]);
    assert [fs[i]][1..] == [];
    var all := Listing(fs);
    StartsIncrease(log);
    ListingIncreasing(fs);
    forall k | 0 <= k < |before|
      ensures before[k] != w
    {
      assert all[k] == before[k] && all[|before|] == w;
    }
    forall k | 0 <= k < |after|
      ensures after[k] != w
    {
      assert all[|before| + 1 + k] == after[k] && all[|before|] == w;
    }
  }

  /** What pruning leaves of the files older than some file, besides what the first pass deletes: the stuck ones. */
  function StuckOlder(fs: seq<File>, committed: nat, stuck: set<string>): nat {
    R.Size(R.Stuck(R.Uncommitted(Listing(fs), committed), stuck))
  }

  /**
   Which files one run of the retention worker deletes, exactly. A log file in the directory loses its entry iff its
   deletion succeeds, and either everything in it lies at or below the committed offset, or it does not fit the limit
   together with the newer uncommitted files and those older or committed files that cannot be deleted. Nothing else
   changes.
   */
  lemma FileDeletedIff(s: State, i: nat, committed: nat, maxBytes: nat, stuck: set<string>, interval: nat)
    requires WalLog.Inv(s.log) && i < |s.log.Files()| && s.log.Files()[i].linked
    ensures var fs, fs' := s.log.Files(), Run(s, [Prune(committed, maxBytes, stuck)], interval).log.Files();
            var undeletable := R.Size(R.StuckCommitted(Listing(fs), committed, stuck)) +
                               StuckOlder(fs[..i], committed, stuck);
            && |fs'| == |fs| && fs'[i] == fs[i].(linked := fs'[i].linked)
            && (!fs'[i].linked <==>
                && WalName(fs[i].start) !in stuck
                && (|| fs[i].start + |fs[i].data| <= committed
                    || undeletable + |fs[i].data| + R.Size(R.Uncommitted(Listing(fs[i + 1..]), committed)) > maxBytes))
  {
    hide WalLog.Inv, Listing, WalName, Run, PruneLog, R.SecondPass, R.Uncommitted, R.StuckCommitted, R.Stuck, R.Size;
    PipelineTheorems.RunOne(s, Prune(committed, maxBytes, stuck), interval);
    PruneFile(s.log, committed, maxBytes, stuck, i);
    var fs := s.log.Files();
    var w, before, after := Listed(fs[i]), Listing(fs[..i]), Listing(fs[i + 1..]);
    ListedOnce(s.log, i);
    var ws := before + [w] + after;
    var kept, rest := R.StuckCommitted(ws, committed, stuck), R.Uncommitted(ws, committed);
    StuckMembers(ws, committed, stuck, w);
    R.UncommittedMembers(ws, committed, w);
    if w.End() <= committed {
      R.SecondPassMembers(rest, R.Size(kept) + R.Size(rest), maxBytes, stuck, w);
    } else {
      UncommittedAround(before, w, after, committed);
      R.UncommittedMembers(before, committed, w);
      R.UncommittedMembers(after, committed, w);
      var older, newer := R.Uncommitted(before, committed), R.Uncommitted(after, committed);
      R.FileSurvivesIff(older, w, newer, R.Size(kept), maxBytes, stuck);
    }
  }

  lemma UncommittedAround(before: seq<R.WalFile>, w: R.WalFile, after: seq<R.WalFile>, committed: nat)
    requires w.End() > committed
    ensures R.Uncommitted(before + [w] + after, committed) ==
            R.Uncommitted(before, committed) + [w] + R.Uncommitted(after, committed)
  {
    R.UncommittedConcat(before + [w], after, committed);
    R.UncommittedConcat(before, [w], committed);
    assert [w][1..] == [];
  }

  /**
   The worker deletes the file the appender is writing to iff that deletion succeeds, and either everything in the file
   lies at or below the committed offset, or the file does not fit the limit together with the files that cannot be
   deleted.
   */
  lemma OpenFileDeletedIff(s: State, committed: nat, maxBytes: nat, stuck: set<string>, interval: nat)
    requires WalLog.Inv(s.log) && s.log.active.linked
    ensures var f := s.log.active;
            !Run(s, [Prune(committed, maxBytes, stuck)], interval).log.active.linked <==>
            && WalName(f.start) !in stuck
            && (|| f.start + |f.data| <= committed
                || R.Size(R.StuckCommitted(Listing(s.log.Files()), committed, stuck)) +
                   StuckOlder(s.log.closed, committed, stuck) + |f.data| > maxBytes)
  {
    hide WalLog.Inv, WalName, Run, PruneLog, R.SecondPass, R.StuckCommitted, R.Stuck;
    var k, fs := |s.log.closed|, s.log.Files();
    FileDeletedIff(s, k, committed, maxBytes, stuck, interval);
    PipelineTheorems.RunOne(s, Prune(committed, maxBytes, stuck), interval);
    PruneShape(s.log, committed, maxBytes, stuck);
    assert fs[k] == s.log.active && fs[..k] == s.log.closed && fs[k + 1..] == [];
    R.NoFiles(0, committed, 0, stuck);
  }

  /** The retention worker's very first run, on a fresh log, unlinks the file the appender has just opened. */
  lemma FirstRunDeletesOpenFile(prior: map<Idx.Name, nat>, maxBytes: nat, interval: nat)
    ensures !Run(Initial(0, [], prior), [Prune(0, maxBytes, {})], interval).log.active.linked
  {
    hide Run;
    OpenKeepsInv(0, []);
    OpenFileDeletedIff(Initial(0, [], prior), 0, maxBytes, {}, interval);
  }

  /**
   A batch answered `Ok` is durable iff the open file still has its directory entry. If it was pruned, none of the
   batch's events is in any file a recovery could find.
   */
  lemma AckedBatchDurableIff(log: Log, batch: seq<IngestEvent>, faults: A.BatchFaults, x: Entry)
    requires WalLog.Inv(log) && batch != [] && |batch| <= |faults.writes|
    requires x in A.Forwarded(A.ProcessBatch(log, batch, faults))
    ensures Durable(A.ProcessBatch(log, batch, faults).log, x) <==> log.active.linked
  {
    hide WalLog.Inv, EncodeFrame, TotalLen, Entries, A.ProcessBatch, Durable;
    A.AckDiscipline(log, batch, faults);
    if !log.active.linked {
      LostBatch(log, batch, faults, x);
    }
  }

  lemma LostBatch(log: Log, batch: seq<IngestEvent>, faults: A.BatchFaults, x: Entry)
    requires WalLog.Inv(log) && batch != [] && |batch| <= |faults.writes| && !log.active.linked
    requires x in A.Forwarded(A.ProcessBatch(log, batch, faults))
    ensures !Durable(A.ProcessBatch(log, batch, faults).log, x)
  {
    hide WalLog.Inv, EncodeFrame, BytesOf, FramesOf, StrayLen, TotalLen, Entries, A.WriteBatch, Grows, Synced;
    var r := A.ProcessBatch(log, batch, faults);
    A.BatchEffect(log, batch, faults);
    EntriesAreFrameEnds(log.offset, batch[..|r.toIndex|]);
    A.WriteBatchEffect(log, batch, faults.writes);
    forall f <- r.log.Files()
      ensures !(Synced(f, x) && f.linked)
    {
      if f.linked && Synced(f, x) {
        SyncedIsWritten(f, x);
        if f in log.closed {
          ClosedBelow(log, f, x);
        } else {
          NoSegments();
          NoFrames(f.start);
        }
      }
    }
  }
}
