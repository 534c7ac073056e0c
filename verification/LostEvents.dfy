/**
 When the next event that is answered `Ok` survives a power loss, exactly: after a torn frame, on a file that was not
 empty, for and after an event too long for the frame format, in a deleted file, and under payloads of an earlier
 process.
 */
module LostEvents {
  import opened Bytes
  import opened Codec
  import opened Reading
  import opened Segments
  import opened WalLog
  import opened Pipeline
  import opened PipelineSafety
  import opened PipelineTheorems
  import A = WalAppending
  import Idx = Indexing
  import Runs = IndexingRuns

  // ---------------------------------------------------------------- one more event

  function Faultless(opens: bool): A.BatchFaults {
    A.BatchFaults([Accepted(0)], Flushed, true, Flushed, true, opens)
  }

  /** A batch of one event, all of whose writes and syncs succeed: the event is answered `Ok`. */
  function AnswerOk(s: State, e: IngestEvent, opens: bool, interval: nat): State {
    Run(s, BatchSteps(s.log, [e], Faultless(opens)), interval)
  }

  function NextEntry(s: State, e: IngestEvent): Entry {
    Entry(e, s.log.offset + FrameLen(e))
  }

  /** The position its frame then has: behind everything the open file has accepted. */
  function NextPosition(s: State, e: IngestEvent): nat {
    s.log.active.start + |BytesOf(s.log.active.segments)| + FrameLen(e)
  }

  /** The promise for that event: whatever a power loss leaves of the files, it is settled or its frame is replayed. */
  ghost predicate NextSurvives(s: State, e: IngestEvent, opens: bool, interval: nat) {
    var s' := AnswerOk(s, e, opens, interval);
    forall contents :: AfterPowerLoss(s'.log, contents) ==>
      || Settled(s'.indexer, NextEntry(s, e))
      || Found(s.log.active.start, Entry(e, NextPosition(s, e))) in
         Replayed(s'.log.Files(), contents, e.index, ReplayFrom(s', e.index))
  }

  /** The open file once the frame of `e` is in it and synced. */
  function Extended(log: Log, e: IngestEvent): File {
    var data := log.active.data + log.buffer + EncodeFrame(e);
    log.active.(data := data, synced := |data|, segments := log.active.segments + [Frame(e)])
  }

  lemma Answered(s: State, e: IngestEvent, opens: bool, interval: nat)
    requires Pipeline.Inv(s) && s.phase == Waiting
    ensures var s', f := AnswerOk(s, e, opens, interval), Extended(s.log, e);
            && Pipeline.Inv(s')
            && s'.acked == s.acked + [NextEntry(s, e)] && s'.indexer == s.indexer && s'.prior == s.prior
            && s'.phase == Waiting
            && (!opens ==> s'.log.active == f)
            && (s'.log.Files() == s.log.closed + [f] ||
                s'.log.Files() == s.log.closed + [f, File(s'.log.offset, [], 0, [], true)])
  {
    hide Pipeline.Inv, Run, BatchSteps, EncodeFrame;
    RunKeepsInv(s, BatchSteps(s.log, [e], Faultless(opens)), interval);
    BatchIsARun(s, [e], Faultless(opens), interval);
    var written := WriteFrame(s.log, e, Accepted(0));
    OneWritten(s.log, e);
    var synced := Sync(Flush(written, Flushed));
    assert synced.active == Extended(s.log, e);
    assert A.ProcessBatch(s.log, [e], Faultless(opens)).log == Rotate(synced, opens);
  }

  lemma OneWritten(log: Log, e: IngestEvent)
    ensures var written := WriteFrame(log, e, Accepted(0));
            && A.WriteBatch(log, [e], [Accepted(0)]) == (written, [Entry(e, log.offset + FrameLen(e))])
            && written == Push(log, Frame(e))
  {
    hide EncodeFrame;
    assert [e][1..] == [] && [Accepted(0)][1..] == [];
    var pushed := Push(log, Frame(e));
    assert pushed.active.data + pushed.buffer[..0] == pushed.active.data;
    assert pushed.buffer[0..] == pushed.buffer;
    assert A.WriteBatch(pushed, [e][1..], [Accepted(0)][1..]) == (pushed, []);
    var x := Entry(e, pushed.offset);
    assert [x] + [] == [x];
  }

  /** The indexer has not seen the next event yet. */
  lemma NextUnsettled(s: State, e: IngestEvent)
    requires Pipeline.Inv(s)
    ensures !Settled(s.indexer, NextEntry(s, e))
  {
    hide WalLog.Inv, PhaseOk, Stored, Idx.Adds, Idx.AcceptedOf;
    var ix, n, x := s.indexer, e.index, NextEntry(s, e);
    var ps, all := ix.processed, s.acked + Pending(s.phase);
    assert forall i :: 0 <= i < |ps| ==> ps[i].entry == all[i];
    if n in ix.writers {
      assert Idx.WriterOk(ix.writers[n], ps, n);
      Idx.AddsConcat(ix.writers[n].committed, ix.writers[n].staged);
      if x in Idx.AcceptedOf(ps, n) {
        Runs.AcceptedAreOld(ps, n, x);
      }
    }
  }

  /** The frame of the next event is the last segment of the open file, and synced. */
  lemma ExtendedFile(s: State, e: IngestEvent)
    requires Pipeline.Inv(s)
    ensures var f, k := Extended(s.log, e), |s.log.active.segments|;
            && SyncedAt(f, NextEntry(s, e), k)
            && f.Position(k) == NextPosition(s, e) && f.segments[..k] == s.log.active.segments
  {
    hide Idx.Inv, PhaseOk, Delivered, Ordered, Stored, EncodeFrame, BytesOf, FramesOf, StrayLen, TotalLen, Tiled;
    var a, f := s.log.active, Extended(s.log, e);
    AppendSegment(a.segments, Frame(e));
    AppendFrame(a.start, a.Frames(), e);
    assert f.segments[..|f.segments|] == f.segments;
  }

  function Contents(fs: seq<File>): (contents: seq<seq<byte>>)
    ensures |contents| == |fs|
    ensures forall i :: 0 <= i < |fs| ==> contents[i] == fs[i].data
  {
    seq(|fs|, i requires 0 <= i < |fs| => fs[i].data)
  }

  lemma WholeContentsSurvive(s: State)
    requires Pipeline.Inv(s)
    ensures AfterPowerLoss(s.log, Contents(s.log.Files()))
  {
    hide Pipeline.Inv, BytesOf;
    var fs := s.log.Files();
    forall i | 0 <= i < |fs|
      ensures Survives(fs[i], Contents(fs)[i])
    {
      assert fs[i] in fs;
      FilePrefix(s, fs[i]);
    }
  }

  // ---------------------------------------------------------------- the exact conditions

  /**
   The next event, exactly. In every reachable state between two batches: an event that is answered `Ok` next survives
   a power loss iff the open file is in the directory, the event fits the frame format, all that the open file has
   accepted so far is legible, and no payload of an earlier process covers the position of the frame.
   */
  lemma NextSurvivesIff(s: State, e: IngestEvent, opens: bool, interval: nat)
    requires Pipeline.Inv(s) && s.phase == Waiting
    ensures NextSurvives(s, e, opens, interval) <==>
            && s.log.active.linked && Framable(e) && Legible(BytesOf(s.log.active.segments))
            && !Superseded(s, e.index, NextPosition(s, e))
  {
    hide Pipeline.Inv, Replayed, ReplayFrom, AnswerOk, Framable, Legible, BytesOf, Settled, SyncedAt;
    var s', f, x, k := AnswerOk(s, e, opens, interval), Extended(s.log, e), NextEntry(s, e), |s.log.active.segments|;
    Answered(s, e, opens, interval);
    NextUnsettled(s, e);
    ExtendedFile(s, e);
    assert f in s'.log.Files();
    forall contents | AfterPowerLoss(s'.log, contents)
      ensures FrameOf(f, x, k) in Replayed(s'.log.Files(), contents, e.index, ReplayFrom(s', e.index)) <==>
              Recoverable(s', f, x, k)
    {
      SurvivesIff(s', contents, f, x, k);
    }
    WholeContentsSurvive(s');
  }

  /**
   Torn frames, exactly. While the open file is legible, a refused write of a framable event loses every event answered
   `Ok` next, whatever it is, iff at least one byte of the frame had been accepted.
   */
  lemma TornWriteIff(s: State, e: IngestEvent, accepted: nat, spill: nat, e': IngestEvent, opens: bool, interval: nat)
    requires Pipeline.Inv(s) && s.phase == Waiting && Legible(BytesOf(s.log.active.segments)) && Framable(e)
    ensures var s' := Run(s, [Receive([e]), Write(Refused(accepted, spill)), Reject], interval);
            && s'.phase == Waiting && s'.acked == s.acked
            && (NextSurvives(s', e', opens, interval) <==>
                && accepted == 0
                && s.log.active.linked && Framable(e') && !Superseded(s, e'.index, NextPosition(s, e')))
  {
    hide Pipeline.Inv, Run, NextSurvives, Framable, Legible, WriteFrame, BytesOf;
    var steps := [Receive([e]), Write(Refused(accepted, spill)), Reject];
    RunKeepsInv(s, steps, interval);
    RefusedRun(s, e, accepted, spill, interval);
    WriteFrameAdds(s.log, e, Refused(accepted, spill));
    AppendSegment(s.log.active.segments, Stray(Torn(e, accepted)));
    LegibleConcat(BytesOf(s.log.active.segments), Torn(e, accepted));
    TornIsIllegible(e, accepted);
    NextSurvivesIff(Run(s, steps, interval), e', opens, interval);
  }

  /** A proper part of a frame is legible only if it is empty. */
  lemma TornIsIllegible(e: IngestEvent, accepted: nat)
    requires Framable(e)
    ensures Legible(Torn(e, accepted)) <==> accepted == 0
  {
    hide EncodeFrame, Parse, Framable;
    if accepted == 0 {
      NoBytesLegible();
      assert EncodeFrame(e)[..0] == [];
    } else {
      TornFrame(e, |Torn(e, accepted)|);
    }
  }

  lemma RefusedRun(s: State, e: IngestEvent, accepted: nat, spill: nat, interval: nat)
    requires s.phase == Waiting
    ensures Run(s, [Receive([e]), Write(Refused(accepted, spill)), Reject], interval) ==
            s.(log := WriteFrame(s.log, e, Refused(accepted, spill)))
  {
    hide WriteFrame, Run;
    var w := Refused(accepted, spill);
    RunTwo(s, Receive([e]), Write(w), interval);
    RunConcat(s, [Receive([e]), Write(w)], [Reject], interval);
    RunOne(Next(Next(s, Receive([e]), interval), Write(w), interval), Reject, interval);
    assert [Receive([e]), Write(w)] + [Reject] == [Receive([e]), Write(w), Reject];
  }

  /**
   Restart, exactly. On opening a file with contents, the first event answered `Ok` survives iff it fits the frame
   format, those contents are legible, and the payload an earlier process left in its index does not reach past its
   frame.
   */
  lemma RestartIff(origin: nat, existing: seq<byte>, prior: map<Idx.Name, nat>, e: IngestEvent, opens: bool,
                   interval: nat)
    ensures NextSurvives(Initial(origin, existing, prior), e, opens, interval) <==>
            && Framable(e) && Legible(existing)
            && (e.index in prior ==> prior[e.index] < origin + |existing| + FrameLen(e))
  {
    hide Pipeline.Inv, NextSurvives, Framable, Legible, BytesOf;
    InitialInv(origin, existing, prior);
    OpenFile(origin, existing);
    NextSurvivesIff(Initial(origin, existing, prior), e, opens, interval);
  }

  /**
   Restart after a power loss, exactly. If the opened file is what a power loss left of framable events, cut at byte
   `n`, the first event answered `Ok` survives iff, besides, the cut fell on the end of a frame.
   */
  lemma RestartAfterCutIff(origin: nat, es: seq<IngestEvent>, n: nat, prior: map<Idx.Name, nat>, e: IngestEvent,
                           opens: bool, interval: nat)
    requires AllFramable(es) && n <= TotalLen(es)
    ensures NextSurvives(Initial(origin, EncodeAll(es)[..n], prior), e, opens, interval) <==>
            && Framable(e) && n == TotalLen(es[..WholeFrames(es, n)])
            && (e.index in prior ==> prior[e.index] < origin + n + FrameLen(e))
  {
    hide NextSurvives, Framable, ParseAll, EncodeAll, TotalLen, Entries, WholeFrames;
    TornTail(es, n, 0);
    RestartIff(origin, EncodeAll(es)[..n], prior, e, opens, interval);
  }

  /**
   Length casts, exactly. While the open file is legible, an event answered `Ok` survives a power loss iff it fits the
   frame format, the open file is in the directory, and no payload of an earlier process is in the way. An event that
   does not fit is answered `Ok` all the same, and what comes after it survives iff, besides, its frame happens to be
   legible.
   */
  lemma OversizedIff(s: State, e: IngestEvent, e': IngestEvent, opens: bool, interval: nat)
    requires Pipeline.Inv(s) && s.phase == Waiting && Legible(BytesOf(s.log.active.segments))
    ensures NextSurvives(s, e, opens, interval) <==>
            Framable(e) && s.log.active.linked && !Superseded(s, e.index, NextPosition(s, e))
    ensures var s' := AnswerOk(s, e, false, interval);
            && NextEntry(s, e) in s'.acked
            && (NextSurvives(s', e', opens, interval) <==>
                && Framable(e') && s.log.active.linked && !Superseded(s, e'.index, NextPosition(s', e'))
                && Legible(EncodeFrame(e)))
  {
    hide Pipeline.Inv, NextSurvives, Framable, Legible, BytesOf, AnswerOk, EncodeFrame;
    NextSurvivesIff(s, e, opens, interval);
    Answered(s, e, false, interval);
    NextSurvivesIff(AnswerOk(s, e, false, interval), e', opens, interval);
    AppendSegment(s.log.active.segments, Frame(e));
    LegibleConcat(BytesOf(s.log.active.segments), EncodeFrame(e));
  }

  /** No file yields an event that does not fit the frame format. */
  lemma OnlyFramableReplayed(fs: seq<File>, contents: seq<seq<byte>>, n: Idx.Name, offset: nat, y: Found)
    requires |contents| == |fs| && y in Replayed(fs, contents, n, offset)
    ensures Framable(y.entry.event)
  {
    hide ParseAll, Replayed, Framable;
    ReplayedMembers(fs, contents, n, offset, y);
    var i :| 0 <= i < |fs| && FoundIn(fs, contents, y, i);
    OffsetsBeyondBase(contents[i], fs[i].start);
  }
}
