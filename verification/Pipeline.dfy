/**
 The durable ingest pipeline as one machine: appender, indexer and retention worker take small steps in any order, every
 I/O outcome is part of the step, and a power loss may follow any step.
 */
module Pipeline {
  import opened Bytes
  import opened Codec
  import opened Options
  import opened WalLog
  import opened WalNames
  import Idx = Indexing
  import R = Retention

  /**
   Where the appender is in its loop. `toIndex` are the events of the batch whose frames are written; in `Responding`
   the first of `todo` has been answered `Ok` but not forwarded iff `sent`.
   */
  datatype Phase =
    | Waiting
    | Writing(batch: seq<IngestEvent>, toIndex: seq<Entry>)
    | Syncing(toIndex: seq<Entry>)
    | Rotating(toIndex: seq<Entry>)
    | Responding(todo: seq<Entry>, sent: bool)
    | Rejecting

  /**
   `acked` is the history of `Ok` answers; `queue` is the channel to the indexer; `prior` are the payloads that
   commits of earlier processes left in the indexes.
   */
  datatype State = State(
    log: Log,
    phase: Phase,
    acked: seq<Entry>,
    queue: seq<Entry>,
    indexer: Idx.Indexer,
    prior: map<Idx.Name, nat>)

  datatype Step =
    | Receive(batch: seq<IngestEvent>)
    | Write(outcome: WriteOutcome)
    | FlushBuffer(result: FlushOutcome)
    | SyncFile(succeeds: bool)
    | RotateFile(opens: bool)
    | Ack
    | Forward
    | Reject
    | IndexNext(eventEnv: Idx.EventEnv)
    | PurgeDocs(name: Idx.Name, cutoff: int, purgeEnv: Idx.PurgeEnv)
    | Timer
    | CommitIndex(index: Idx.Name, commits: bool)
    | Prune(committed: nat, maxBytes: nat, stuck: set<string>)

  /** The pipeline as it starts, when the first file already holds `existing`. */
  function Initial(origin: nat, existing: seq<byte>, prior: map<Idx.Name, nat>): State {
    State(Open(origin, existing), Waiting, [], [], Idx.Idle, prior)
  }

  // ---------------------------------------------------------------- steps

  function AppenderStep(s: State, step: Step): State {
    match (s.phase, step)
    case (Waiting, Receive(batch)) =>
      if batch == [] then s else s.(phase := Writing(batch, []))
    case (Writing(batch, toIndex), Write(w)) =>
      if batch == [] then s
      else
        var log := WriteFrame(s.log, batch[0], w);
        s.(log := log,
           phase := if w.Refused? then Rejecting else Writing(batch[1..], toIndex + [Entry(batch[0], log.offset)]))
    case (Writing(batch, toIndex), FlushBuffer(o)) =>
      if batch != [] then s
      else s.(log := Flush(s.log, o), phase := if o == Flushed then Syncing(toIndex) else Rejecting)
    case (Syncing(toIndex), SyncFile(succeeds)) =>
      if succeeds then s.(log := Sync(s.log), phase := Rotating(toIndex)) else s.(phase := Rejecting)
    case (Rotating(toIndex), RotateFile(opens)) =>
      s.(log := Rotate(s.log, opens), phase := Responding(toIndex, false))
    case (Responding(todo, false), Ack) =>
      if todo == [] then s.(phase := Waiting)
      else s.(acked := s.acked + [todo[0]], phase := Responding(todo, true))
    case (Responding(todo, true), Forward) =>
      if todo == [] then s
      else s.(queue := s.queue + [todo[0]], phase := if |todo| == 1 then Waiting else Responding(todo[1..], false))
    case (Rejecting, Reject) => s.(phase := Waiting)
    case _ => s
  }

  function IndexerStep(s: State, step: Step, interval: nat): State {
    match step
    case IndexNext(env) =>
      if s.queue == [] || s.indexer.draining != map[] then s
      else s.(queue := s.queue[1..], indexer := Idx.Next(s.indexer, Idx.Event(s.queue[0], env), interval))
    case PurgeDocs(name, cutoff, env) =>
      s.(indexer := Idx.Next(s.indexer, Idx.Purge(name, cutoff, env), interval))
    case Timer => s.(indexer := Idx.Next(s.indexer, Idx.Tick, interval))
    case CommitIndex(n, ok) => s.(indexer := Idx.Next(s.indexer, Idx.Commit(n, ok), interval))
    case _ => s
  }

  /** The directory entry of a log file. */
  function Listed(f: File): R.WalFile {
    R.WalFile(f.start, WalName(f.start), |f.data|)
  }

  /** The WAL files in the directory, in start order. */
  function Listing(fs: seq<File>): seq<R.WalFile> {
    if fs == [] then [] else (if fs[0].linked then [Listed(fs[0])] else []) + Listing(fs[1..])
  }

  /** Files that survive the two passes keep their directory entries. */
  function Unlink(f: File, survivors: (seq<R.WalFile>, seq<R.WalFile>)): File {
    f.(linked := f.linked && (Listed(f) in survivors.0 || Listed(f) in survivors.1))
  }

  function PruneLog(log: Log, committed: nat, maxBytes: nat, stuck: set<string>): Log {
    var survivors := R.Survivors(Listing(log.Files()), committed, maxBytes, stuck);
    log.(closed := seq(|log.closed|, i requires 0 <= i < |log.closed| => Unlink(log.closed[i], survivors)),
         active := Unlink(log.active, survivors))
  }

  function Next(s: State, step: Step, interval: nat): State {
    match step
    case Prune(committed, maxBytes, stuck) => s.(log := PruneLog(s.log, committed, maxBytes, stuck))
    case IndexNext(_) => IndexerStep(s, step, interval)
    case PurgeDocs(_, _, _) => IndexerStep(s, step, interval)
    case Timer => IndexerStep(s, step, interval)
    case CommitIndex(_, _) => IndexerStep(s, step, interval)
    case _ => AppenderStep(s, step)
  }

  function Run(s: State, steps: seq<Step>, interval: nat): State
    decreases |steps|
  {
    if steps == [] then s else Run(Next(s, steps[0], interval), steps[1..], interval)
  }

  // ---------------------------------------------------------------- what becomes of an event

  /** Written by the appender and possibly still to be acknowledged. */
  function Pending(p: Phase): seq<Entry> {
    match p
    case Writing(_, toIndex) => toIndex
    case Syncing(toIndex) => toIndex
    case Rotating(toIndex) => toIndex
    case Responding(todo, sent) => if sent && todo != [] then todo[1..] else todo
    case _ => []
  }

  function CommittedAdds(ix: Idx.Indexer, n: Idx.Name): seq<Entry> {
    if n in ix.writers then Idx.Adds(ix.writers[n].committed) else []
  }

  /** The payload of the index's last commit by this process. */
  function OwnPayload(ix: Idx.Indexer, n: Idx.Name): Option<nat> {
    if n in ix.writers then ix.writers[n].payload else None
  }

  function PayloadOf(ix: Idx.Indexer, n: Idx.Name): nat {
    match OwnPayload(ix, n)
    case Some(p) => p
    case None => 0
  }

  /** The payload found in the index after a power loss, from which its replay starts. */
  function ReplayFrom(s: State, n: Idx.Name): nat {
    match OwnPayload(s.indexer, n)
    case Some(p) => p
    case None => if n in s.prior then s.prior[n] else 0
  }

  /** The event is in its index's committed operations, or `process_event` rejected it. */
  predicate Settled(ix: Idx.Indexer, x: Entry) {
    x in CommittedAdds(ix, x.event.index) || Idx.Processed(x, false) in ix.processed
  }

  // ---------------------------------------------------------------- invariant

  predicate TailOf<T(==)>(t: seq<T>, s: seq<T>) {
    |t| <= |s| && t == s[|s| - |t|..]
  }

  predicate PhaseOk(log: Log, p: Phase) {
    match p
    case Writing(batch, toIndex) =>
      TailOf(toIndex, log.active.Written()) && (batch != [] || toIndex != [])
    case Syncing(toIndex) => TailOf(toIndex, log.active.Written()) && toIndex != [] && log.buffer == []
    case Rotating(toIndex) => TailOf(toIndex, log.active.Written()) && toIndex != [] && AllSynced(log)
    case Responding(todo, sent) => sent ==> todo != []
    case _ => true
  }

  function ProcessedEntries(ps: seq<Idx.Processed>): (r: seq<Entry>)
    ensures |r| == |ps|
    ensures forall i :: 0 <= i < |ps| ==> r[i] == ps[i].entry
  {
    seq(|ps|, i requires 0 <= i < |ps| => ps[i].entry)
  }

  function InFlight(p: Phase): seq<Entry> {
    if p.Responding? && p.sent && p.todo != [] then [p.todo[0]] else []
  }

  /** The indexer has taken, or will find in its channel, exactly the acknowledged events in order. */
  predicate Delivered(s: State) {
    ProcessedEntries(s.indexer.processed) + s.queue + InFlight(s.phase) == s.acked
  }

  predicate Ordered(s: State) {
    && Increasing(s.acked + Pending(s.phase))
    && forall x <- s.acked + Pending(s.phase) :: 0 < x.offset <= s.log.offset
  }

  /** The acknowledged events, and those about to be acknowledged. */
  function Owed(s: State): seq<Entry> {
    s.acked + if s.phase.Responding? then Pending(s.phase) else []
  }

  ghost predicate Inv(s: State) {
    && WalLog.Inv(s.log)
    && Idx.Inv(s.indexer)
    && PhaseOk(s.log, s.phase)
    && Delivered(s)
    && Ordered(s)
    && forall x <- Owed(s) :: Stored(s.log, x)
  }

  lemma InitialInv(origin: nat, existing: seq<byte>, prior: map<Idx.Name, nat>)
    ensures Inv(Initial(origin, existing, prior))
  {
    hide WalLog.Inv, Idx.Inv;
    OpenKeepsInv(origin, existing);
    IdleInv();
  }

  lemma IdleInv()
    ensures Idx.Inv(Idx.Idle)
  {
  }
}
