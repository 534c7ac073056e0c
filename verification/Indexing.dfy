/**
 The indexer actor as a state machine: one abstract Tantivy writer per index, the dirty map, and the document counter.
 `commit_all` is split into one step per drained index, so that a crash or another actor can fall between two commits.
 Outcomes of I/O and of document parsing are arguments of the steps.
 */
module Indexing {
  import opened Bytes
  import opened Codec
  import opened Options

  type Name = seq<byte>

  const NANOS := 1_000_000_000

  // ---------------------------------------------------------------- writers

  /** Timestamps are nanoseconds since the epoch; a document need not have one. */
  datatype Op = Add(entry: Entry, ts: Option<int>) | DeleteBefore(seconds: int)

  /**
   `committed` and `staged` are the operations applied by past commits and those waiting for the next one. A commit
   applies everything staged and sets the payload, or changes nothing.
   */
  datatype Writer = Writer(committed: seq<Op>, staged: seq<Op>, payload: Option<nat>) {
    function Ops(): seq<Op> {
      committed + staged
    }

    function Commit(offset: nat): Writer {
      Writer(committed + staged, [], Some(offset))
    }
  }

  /** The events added by a list of operations, in order. */
  function Adds(ops: seq<Op>): seq<Entry> {
    if ops == [] then []
    else
      var last := ops[|ops| - 1];
      Adds(ops[..|ops| - 1]) + if last.Add? then [last.entry] else []
  }

  lemma AddsPush(ops: seq<Op>, op: Op)
    ensures Adds(ops + [op]) == Adds(ops) + if op.Add? then [op.entry] else []
  {
    assert (ops + [op])[..|ops|] == ops;
  }

  lemma {:induction false} AddsConcat(a: seq<Op>, b: seq<Op>)
    ensures Adds(a + b) == Adds(a) + Adds(b)
    decreases |b|
  {
    if b == [] {
      assert a + b == a;
    } else {
      var init, last := b[..|b| - 1], b[|b| - 1];
      AddsConcat(a, init);
      assert a + b == (a + init) + [last];
      AddsPush(a + init, last);
    }
  }

  // ---------------------------------------------------------------- the actor's state

  /** `draining` is what `commit_all` has taken out of the dirty map and not yet committed. `processed` is history. */
  datatype Indexer = Indexer(
    writers: map<Name, Writer>,
    dirty: map<Name, nat>,
    draining: map<Name, nat>,
    docsSinceCommit: nat,
    processed: seq<Processed>)

  /** An event the actor has taken from its channel, and whether `process_event` returned `Ok`. */
  datatype Processed = Processed(entry: Entry, accepted: bool)

  const Idle := Indexer(map[], map[], map[], 0, [])

  /** How each fallible step of `process_event` would go. */
  datatype EventEnv = EventEnv(
    known: bool, validJson: bool, isObject: bool, writerOpens: bool, indexOpens: bool, parses: bool, adds: bool,
    ts: Option<int>)

  /** How each fallible step of `purge_old_docs` would go. */
  datatype PurgeEnv = PurgeEnv(
    known: bool, tsDeclared: bool, tsIsDatetime: bool, writerOpens: bool, indexOpens: bool, tsInSchema: bool,
    deletes: bool)

  function EnsureWriter(s: Indexer, name: Name, opens: bool): (Indexer, bool) {
    if name in s.writers then (s, true)
    else if !opens then (s, false)
    else (s.(writers := s.writers[name := Writer([], [], None)]), true)
  }

  function ProcessEvent(s: Indexer, x: Entry, env: EventEnv): (Indexer, bool) {
    var name := x.event.index;
    if !env.known || !env.validJson || !env.isObject then (s, false)
    else
      var (s1, ready) := EnsureWriter(s, name, env.writerOpens);
      if !ready then (s1, false)
      else if !env.indexOpens || !env.parses || !env.adds then (s1, false)
      else
        var w := s1.writers[name];
        (s1.(writers := s1.writers[name := w.(staged := w.staged + [Add(x, env.ts)])],
             dirty := s1.dirty[name := x.offset]), true)
  }

  /** When an event is accepted: iff no step of `process_event` goes wrong. */
  lemma AcceptedIff(s: Indexer, x: Entry, env: EventEnv)
    ensures ProcessEvent(s, x, env).1 <==>
            && env.known && env.validJson && env.isObject
            && (x.event.index in s.writers || env.writerOpens)
            && env.indexOpens && env.parses && env.adds
  {
  }

  /** `cutoff.timestamp()`: whole seconds, rounded down. */
  function CutoffSeconds(cutoff: int): int {
    cutoff / NANOS
  }

  function PurgeOldDocs(s: Indexer, name: Name, cutoff: int, env: PurgeEnv): (Indexer, bool) {
    if !env.known || !env.tsDeclared || !env.tsIsDatetime then (s, false)
    else
      var (s1, ready) := EnsureWriter(s, name, env.writerOpens);
      if !ready then (s1, false)
      else if !env.indexOpens || !env.tsInSchema || !env.deletes then (s1, false)
      else
        var w := s1.writers[name];
        (s1.(writers := s1.writers[name := w.(staged := w.staged + [DeleteBefore(CutoffSeconds(cutoff))])],
             dirty := if name in s1.dirty then s1.dirty else s1.dirty[name := 0]), true)
  }

  /** `commit_all` starts by draining the dirty map; the counter is reset once it is done. */
  function BeginCommit(s: Indexer): Indexer {
    if s.dirty == map[] then s.(docsSinceCommit := 0)
    else s.(draining := s.dirty, dirty := map[])
  }

  function CommitOne(s: Indexer, name: Name, succeeds: bool): Indexer {
    if name !in s.draining then s
    else
      var rest := s.draining - {name};
      s.(writers := if succeeds && name in s.writers
                    then s.writers[name := s.writers[name].Commit(s.draining[name])] else s.writers,
         draining := rest,
         docsSinceCommit := if rest == map[] then 0 else s.docsSinceCommit)
  }

  // ---------------------------------------------------------------- the three arms of `select!`

  function HandleEvent(s: Indexer, x: Entry, env: EventEnv, interval: nat): Indexer {
    var (s1, accepted) := ProcessEvent(s, x, env);
    var s2 := s1.(processed := s.processed + [Processed(x, accepted)],
                  docsSinceCommit := s.docsSinceCommit + if accepted then 1 else 0);
    if s2.docsSinceCommit >= interval then BeginCommit(s2) else s2
  }

  function HandlePurge(s: Indexer, name: Name, cutoff: int, env: PurgeEnv): Indexer {
    PurgeOldDocs(s, name, cutoff, env).0
  }

  function HandleTick(s: Indexer): Indexer {
    if s.dirty != map[] then BeginCommit(s) else s
  }

  datatype Step =
    | Event(x: Entry, eventEnv: EventEnv)
    | Purge(name: Name, cutoff: int, purgeEnv: PurgeEnv)
    | Tick
    | Commit(index: Name, succeeds: bool)

  /** While `commit_all` is draining, the actor takes no other step. */
  function Next(s: Indexer, step: Step, interval: nat): Indexer {
    if step.Commit? then CommitOne(s, step.index, step.succeeds)
    else if s.draining != map[] then s
    else match step
      case Event(x, env) => HandleEvent(s, x, env, interval)
      case Purge(name, cutoff, env) => HandlePurge(s, name, cutoff, env)
      case _ => HandleTick(s)
  }

  function Run(s: Indexer, steps: seq<Step>, interval: nat): Indexer
    decreases |steps|
  {
    if steps == [] then s else Run(Next(s, steps[0], interval), steps[1..], interval)
  }

  lemma RunCons(s: Indexer, step: Step, steps: seq<Step>, interval: nat)
    ensures Run(s, [step] + steps, interval) == Run(Next(s, step, interval), steps, interval)
  {
    hide Next;
    assert ([step] + steps)[1..] == steps;
  }

  // ---------------------------------------------------------------- invariant

  function LastOffset(ps: seq<Processed>): nat {
    if ps == [] then 0 else ps[|ps| - 1].entry.offset
  }

  predicate InOrder(ps: seq<Processed>) {
    forall i, j :: 0 <= i < j < |ps| ==> ps[i].entry.offset < ps[j].entry.offset
  }

  /** The accepted events of one index, in the order they were processed. */
  function AcceptedOf(ps: seq<Processed>, n: Name): seq<Entry> {
    if ps == [] then []
    else
      var last := ps[|ps| - 1];
      AcceptedOf(ps[..|ps| - 1], n) + if last.accepted && last.entry.event.index == n then [last.entry] else []
  }

  /** Every accepted event with an offset at or below the payload is in the committed operations. */
  predicate SafeWatermark(w: Writer, ps: seq<Processed>, n: Name) {
    w.payload.Some? ==>
      && w.payload.value <= LastOffset(ps)
      && forall x <- AcceptedOf(ps, n) :: x.offset <= w.payload.value ==> x in Adds(w.committed)
  }

  /** The writer holds every accepted event of its index exactly once, in order, and its payload is safe. */
  predicate WriterOk(w: Writer, ps: seq<Processed>, n: Name) {
    Adds(w.Ops()) == AcceptedOf(ps, n) && SafeWatermark(w, ps, n)
  }

  predicate Offsets(marks: map<Name, nat>, s: Indexer) {
    forall n <- marks :: n in s.writers && marks[n] <= LastOffset(s.processed)
  }

  ghost predicate Inv(s: Indexer) {
    && InOrder(s.processed)
    && (forall n <- s.writers :: WriterOk(s.writers[n], s.processed, n))
    && (forall n :: n !in s.writers ==> AcceptedOf(s.processed, n) == [])
    && Offsets(s.dirty, s) && Offsets(s.draining, s)
    && (s.draining != map[] ==> s.dirty == map[])
    && (s.docsSinceCommit > 0 ==> s.dirty != map[] || s.draining != map[])
  }

  /** The appender forwards events with strictly increasing offsets. */
  predicate Fresh(s: Indexer, step: Step) {
    step.Event? ==> LastOffset(s.processed) < step.x.offset
  }

  predicate FreshRun(s: Indexer, steps: seq<Step>, interval: nat)
    decreases |steps|
  {
    steps != [] ==> Fresh(s, steps[0]) && FreshRun(Next(s, steps[0], interval), steps[1..], interval)
  }

  lemma AcceptedPush(ps: seq<Processed>, p: Processed, n: Name)
    ensures AcceptedOf(ps + [p], n) ==
            AcceptedOf(ps, n) + if p.accepted && p.entry.event.index == n then [p.entry] else []
  {
    assert (ps + [p])[..|ps|] == ps;
  }

  lemma InOrderPush(ps: seq<Processed>, p: Processed)
    requires InOrder(ps) && LastOffset(ps) < p.entry.offset
    ensures InOrder(ps + [p]) && LastOffset(ps + [p]) == p.entry.offset
  {
  }

  /** Processing another event leaves a writer in order; if the event was added to it, it holds it last. */
  lemma WriterAfterEvent(w: Writer, w': Writer, ps: seq<Processed>, p: Processed, n: Name, ts: Option<int>)
    requires WriterOk(w, ps, n) && LastOffset(ps) < p.entry.offset
    requires w'.committed == w.committed && w'.payload == w.payload
    requires if p.accepted && p.entry.event.index == n then w'.staged == w.staged + [Add(p.entry, ts)]
             else w'.staged == w.staged
    ensures WriterOk(w', ps + [p], n)
  {
    hide Adds, AcceptedOf;
    AcceptedPush(ps, p, n);
    if w'.staged != w.staged {
      assert w'.Ops() == w.Ops() + [Add(p.entry, ts)];
      AddsPush(w.Ops(), Add(p.entry, ts));
    }
  }

  lemma WriterAfterDelete(w: Writer, ps: seq<Processed>, n: Name, seconds: int)
    requires WriterOk(w, ps, n)
    ensures WriterOk(w.(staged := w.staged + [DeleteBefore(seconds)]), ps, n)
  {
    hide Adds, AcceptedOf;
    assert w.(staged := w.staged + [DeleteBefore(seconds)]).Ops() == w.Ops() + [DeleteBefore(seconds)];
    AddsPush(w.Ops(), DeleteBefore(seconds));
  }

  lemma WriterAfterCommit(w: Writer, ps: seq<Processed>, n: Name, offset: nat)
    requires WriterOk(w, ps, n) && offset <= LastOffset(ps)
    ensures WriterOk(w.Commit(offset), ps, n)
  {
    hide Adds, AcceptedOf;
    assert w.Commit(offset).Ops() == w.Ops();
  }

  lemma FreshWriterOk(ps: seq<Processed>, n: Name)
    requires AcceptedOf(ps, n) == []
    ensures WriterOk(Writer([], [], None), ps, n)
  {
  }

  lemma HandleEventKeepsInv(s: Indexer, x: Entry, env: EventEnv, interval: nat)
    requires Inv(s) && s.draining == map[] && LastOffset(s.processed) < x.offset
    ensures Inv(HandleEvent(s, x, env, interval))
  {
    hide WriterOk, AcceptedOf, LastOffset, InOrder;
    var (s1, accepted) := ProcessEvent(s, x, env);
    var p := Processed(x, accepted);
    var ps := s.processed + [p];
    InOrderPush(s.processed, p);
    forall n
      ensures n in s1.writers ==> WriterOk(s1.writers[n], ps, n)
      ensures n !in s1.writers ==> AcceptedOf(ps, n) == []
    {
      EventAtWriter(s, x, env, n);
    }
  }

  lemma EventAtWriter(s: Indexer, x: Entry, env: EventEnv, n: Name)
    requires Inv(s) && LastOffset(s.processed) < x.offset
    ensures var (s1, accepted) := ProcessEvent(s, x, env);
            var ps := s.processed + [Processed(x, accepted)];
            && (n in s1.writers ==> WriterOk(s1.writers[n], ps, n))
            && (n !in s1.writers ==> AcceptedOf(ps, n) == [])
  {
    hide WriterOk, AcceptedOf, LastOffset, InOrder;
    var (s1, accepted) := ProcessEvent(s, x, env);
    var p := Processed(x, accepted);
    AcceptedPush(s.processed, p, n);
    if n in s1.writers {
      var w := if n in s.writers then s.writers[n] else Writer([], [], None);
      if n !in s.writers {
        FreshWriterOk(s.processed, n);
      }
      WriterAfterEvent(w, s1.writers[n], s.processed, p, n, env.ts);
    }
  }

  lemma HandlePurgeKeepsInv(s: Indexer, name: Name, cutoff: int, env: PurgeEnv)
    requires Inv(s) && s.draining == map[]
    ensures Inv(HandlePurge(s, name, cutoff, env))
  {
    hide WriterOk, AcceptedOf, LastOffset, InOrder;
    var s1 := HandlePurge(s, name, cutoff, env);
    forall n <- s1.writers
      ensures WriterOk(s1.writers[n], s.processed, n)
    {
      var w := if n in s.writers then s.writers[n] else Writer([], [], None);
      if n !in s.writers {
        FreshWriterOk(s.processed, n);
      }
      WriterAfterDelete(w, s.processed, n, CutoffSeconds(cutoff));
    }
  }

  lemma CommitOneKeepsInv(s: Indexer, name: Name, succeeds: bool)
    requires Inv(s)
    ensures Inv(CommitOne(s, name, succeeds))
  {
    hide WriterOk, AcceptedOf, LastOffset, InOrder;
    if name in s.draining {
      WriterAfterCommit(s.writers[name], s.processed, name, s.draining[name]);
    }
  }

  lemma NextKeepsInv(s: Indexer, step: Step, interval: nat)
    requires Inv(s) && Fresh(s, step)
    ensures Inv(Next(s, step, interval))
  {
    hide WriterOk, AcceptedOf, LastOffset, InOrder;
    if step.Commit? {
      CommitOneKeepsInv(s, step.index, step.succeeds);
    } else if s.draining == map[] {
      match step
      case Event(x, env) => HandleEventKeepsInv(s, x, env, interval);
      case Purge(name, cutoff, env) => HandlePurgeKeepsInv(s, name, cutoff, env);
      case _ =>
    }
  }

  lemma {:induction false} RunKeepsInv(s: Indexer, steps: seq<Step>, interval: nat)
    requires Inv(s) && FreshRun(s, steps, interval)
    ensures Inv(Run(s, steps, interval))
    decreases |steps|
  {
    hide Inv, Next, Fresh;
    if steps != [] {
      NextKeepsInv(s, steps[0], interval);
      RunKeepsInv(Next(s, steps[0], interval), steps[1..], interval);
    }
  }
}
