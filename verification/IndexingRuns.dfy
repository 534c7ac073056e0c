/** What holds of the indexer over whole runs: counters, commit order, and the retention window. */
module IndexingRuns {
  import opened Codec
  import opened Indexing
  import opened Options

  // ---------------------------------------------------------------- bookkeeping

  /** The events staged in some writer. */
  function StagedEvents(s: Indexer): set<Entry> {
    set n, x | n in s.writers && x in Adds(s.writers[n].staged) :: x
  }

  /** Unless a commit is under way, the counter is the number of staged events, and below the interval. */
  predicate Bookkept(s: Indexer, interval: nat) {
    && (forall n <- s.writers :: s.writers[n].staged != [] ==> n in s.dirty || n in s.draining)
    && (s.draining == map[] ==> s.docsSinceCommit == |StagedEvents(s)| < interval)
  }

  /** No commit fails in this step. */
  predicate NoFailure(step: Step) {
    step.Commit? ==> step.succeeds
  }

  lemma StagedAreOld(s: Indexer, x: Entry)
    requires Inv(s) && LastOffset(s.processed) < x.offset
    ensures x !in StagedEvents(s)
  {
    if x in StagedEvents(s) {
      var n :| n in s.writers && x in Adds(s.writers[n].staged);
      AddsConcat(s.writers[n].committed, s.writers[n].staged);
      assert x in AcceptedOf(s.processed, n);
      AcceptedAreOld(s.processed, n, x);
      assert false;
    }
  }

  lemma {:induction false} AcceptedAreOld(ps: seq<Processed>, n: Name, x: Entry)
    requires InOrder(ps) && x in AcceptedOf(ps, n)
    ensures x.offset <= LastOffset(ps)
    ensures Processed(x, true) in ps && x.event.index == n
  {
    var init, last := ps[..|ps| - 1], ps[|ps| - 1];
    if !(last.accepted && last.entry == x && last.entry.event.index == n) {
      AcceptedAreOld(init, n, x);
    }
  }

  function StagedAdds(s: Indexer, n: Name): seq<Entry> {
    if n in s.writers then Adds(s.writers[n].staged) else []
  }

  lemma StagedByName(s: Indexer, y: Entry)
    ensures y in StagedEvents(s) <==> exists n :: y in StagedAdds(s, n)
  {
    if y in StagedEvents(s) {
      var n :| n in s.writers && y in Adds(s.writers[n].staged);
      assert y in StagedAdds(s, n);
    }
  }

  lemma StagedAtWriter(s: Indexer, x: Entry, env: EventEnv, n: Name)
    ensures var (s1, accepted) := ProcessEvent(s, x, env);
            StagedAdds(s1, n) == StagedAdds(s, n) + if accepted && n == x.event.index then [x] else []
  {
    var (s1, accepted) := ProcessEvent(s, x, env);
    if accepted && n == x.event.index {
      AddsPush(if n in s.writers then s.writers[n].staged else [], Add(x, env.ts));
    }
  }

  lemma StagedAfterEvent(s: Indexer, x: Entry, env: EventEnv)
    requires Inv(s) && LastOffset(s.processed) < x.offset
    ensures var (s1, accepted) := ProcessEvent(s, x, env);
            |StagedEvents(s1)| == |StagedEvents(s)| + if accepted then 1 else 0
  {
    hide Inv, LastOffset, ProcessEvent, StagedEvents;
    StagedAreOld(s, x);
    var (s1, accepted) := ProcessEvent(s, x, env);
    var added: set<Entry> := if accepted then {x} else {};
    forall y
      ensures y in StagedEvents(s1) <==> y in StagedEvents(s) + added
    {
      StagedMember(s, x, env, y);
    }
    assert StagedEvents(s1) == StagedEvents(s) + added;
  }

  lemma StagedMember(s: Indexer, x: Entry, env: EventEnv, y: Entry)
    ensures var (s1, accepted) := ProcessEvent(s, x, env);
            y in StagedEvents(s1) <==> y in StagedEvents(s) || (accepted && y == x)
  {
    hide ProcessEvent, StagedEvents, StagedAdds;
    var (s1, accepted) := ProcessEvent(s, x, env);
    StagedByName(s, y);
    StagedByName(s1, y);
    StagedAtWriter(s, x, env, x.event.index);
    if n :| y in StagedAdds(s, n) {
      StagedAtWriter(s, x, env, n);
      assert y in StagedAdds(s1, n);
    }
    if n :| y in StagedAdds(s1, n) {
      StagedAtWriter(s, x, env, n);
    }
  }

  lemma StagedAfterPurge(s: Indexer, name: Name, cutoff: int, env: PurgeEnv)
    ensures StagedEvents(HandlePurge(s, name, cutoff, env)) == StagedEvents(s)
  {
    hide HandlePurge, StagedEvents;
    forall y
      ensures y in StagedEvents(HandlePurge(s, name, cutoff, env)) <==> y in StagedEvents(s)
    {
      PurgedMember(s, name, cutoff, env, y);
    }
  }

  lemma PurgedMember(s: Indexer, name: Name, cutoff: int, env: PurgeEnv, y: Entry)
    ensures y in StagedEvents(HandlePurge(s, name, cutoff, env)) <==> y in StagedEvents(s)
  {
    hide HandlePurge, StagedEvents, StagedAdds;
    var s1 := HandlePurge(s, name, cutoff, env);
    StagedByName(s, y);
    StagedByName(s1, y);
    if n :| y in StagedAdds(s, n) {
      PurgedAtWriter(s, name, cutoff, env, n);
      assert y in StagedAdds(s1, n);
    }
    if n :| y in StagedAdds(s1, n) {
      PurgedAtWriter(s, name, cutoff, env, n);
    }
  }

  lemma PurgedAtWriter(s: Indexer, name: Name, cutoff: int, env: PurgeEnv, n: Name)
    ensures StagedAdds(HandlePurge(s, name, cutoff, env), n) == StagedAdds(s, n)
  {
    AddsPush(if n in s.writers then s.writers[n].staged else [], DeleteBefore(CutoffSeconds(cutoff)));
  }

  lemma NothingStaged(s: Indexer)
    requires forall n <- s.writers :: s.writers[n].staged == []
    ensures StagedEvents(s) == {}
  {
  }

  lemma EventKeepsBooks(s: Indexer, x: Entry, env: EventEnv, interval: nat)
    requires interval > 0 && s.draining == map[]
    requires Inv(s) && Bookkept(s, interval) && LastOffset(s.processed) < x.offset
    ensures Bookkept(HandleEvent(s, x, env, interval), interval)
  {
    hide Inv, LastOffset, StagedEvents;
    StagedAfterEvent(s, x, env);
    var (s1, accepted) := ProcessEvent(s, x, env);
    var s2 := HandleEvent(s, x, env, interval);
    SameStaged(s1, s2);
    if accepted {
      assert x.event.index in s1.dirty;
    }
    assert s1.draining == map[];
  }

  lemma SameStaged(s: Indexer, s': Indexer)
    requires s'.writers == s.writers
    ensures StagedEvents(s') == StagedEvents(s)
  {
  }

  lemma CommitKeepsBooks(s: Indexer, name: Name, interval: nat)
    requires interval > 0
    requires Inv(s) && Bookkept(s, interval)
    ensures Bookkept(CommitOne(s, name, true), interval)
  {
    hide WriterOk, AcceptedOf, InOrder, LastOffset, StagedEvents;
    var s' := CommitOne(s, name, true);
    if name in s.draining && s'.draining == map[] {
      assert s.draining.Keys == {name} by {
        assert s.draining.Keys - {name} == s'.draining.Keys == {};
      }
      NothingStaged(s');
    }
  }

  /** With a positive interval and no failing commit, the books are right after every step of every interleaving. */
  lemma NextKeepsBooks(s: Indexer, step: Step, interval: nat)
    requires interval > 0 && Inv(s) && Bookkept(s, interval) && Fresh(s, step) && NoFailure(step)
    ensures Bookkept(Next(s, step, interval), interval)
  {
    hide Inv, StagedEvents;
    if step.Commit? {
      CommitKeepsBooks(s, step.index, interval);
    } else if s.draining == map[] {
      match step
      case Event(x, env) => EventKeepsBooks(s, x, env, interval);
      case Purge(name, cutoff, env) =>
        StagedAfterPurge(s, name, cutoff, env);
      case _ =>
        SameStaged(s, HandleTick(s));
    }
  }

  lemma {:induction false} RunKeepsBooks(s: Indexer, steps: seq<Step>, interval: nat)
    requires interval > 0 && Inv(s) && Bookkept(s, interval) && FreshRun(s, steps, interval)
    requires forall i :: 0 <= i < |steps| ==> NoFailure(steps[i])
    ensures Inv(Run(s, steps, interval)) && Bookkept(Run(s, steps, interval), interval)
    decreases |steps|
  {
    hide Inv, Next, Fresh, Bookkept;
    if steps != [] {
      NextKeepsInv(s, steps[0], interval);
      NextKeepsBooks(s, steps[0], interval);
      RunKeepsBooks(Next(s, steps[0], interval), steps[1..], interval);
    }
  }

  // ---------------------------------------------------------------- commit_all

  /** All of `marks` committed at once, except the writers whose commit fails. */
  function CommitMarked(writers: map<Name, Writer>, marks: map<Name, nat>, fails: set<Name>): map<Name, Writer> {
    map n | n in writers :: if n in marks && n !in fails then writers[n].Commit(marks[n]) else writers[n]
  }

  /** An event starts a commit iff it brings the counter to the interval, and the timer iff something is dirty. */
  lemma CommitsTriggered(s: Indexer, x: Entry, env: EventEnv, interval: nat)
    requires s.draining == map[]
    ensures var s1, accepted := Run(s, [Event(x, env)], interval), ProcessEvent(s, x, env).1;
            var total := s.docsSinceCommit + if accepted then 1 else 0;
            var marks := if accepted then s.dirty[x.event.index := x.offset] else s.dirty;
            if total >= interval
            then && s1.draining == marks && s1.dirty == map[]
                 && s1.docsSinceCommit == (if marks == map[] then 0 else total)
            else s1.draining == map[] && s1.dirty == marks && s1.docsSinceCommit == total
    ensures var s1 := Run(s, [Tick], interval);
            s1.draining == s.dirty && s1.dirty == map[] && s1.docsSinceCommit == s.docsSinceCommit
  {
    RunCons(s, Event(x, env), [], interval);
    RunCons(s, Tick, [], interval);
    assert [Event(x, env)] + [] == [Event(x, env)] && [Step.Tick] + [] == [Step.Tick];
  }

  /** The rest of a `commit_all` under way, when the commits of the writers in `fails` fail. */
  function FinishCommit(s: Indexer, fails: set<Name>): Indexer {
    if s.draining == map[] then s
    else s.(writers := CommitMarked(s.writers, s.draining, fails), draining := map[], docsSinceCommit := 0)
  }

  function CommitSteps(order: seq<Name>, fails: set<Name>): seq<Step>
    decreases |order|
  {
    if order == [] then [] else [Commit(order[0], order[0] !in fails)] + CommitSteps(order[1..], fails)
  }

  predicate Lists(order: seq<Name>, names: set<Name>) {
    && (forall i, j :: 0 <= i < j < |order| ==> order[i] != order[j])
    && (forall n <- order :: n in names)
    && (forall n <- names :: n in order)
  }

  lemma {:induction false} DrainInAnyOrder(s: Indexer, order: seq<Name>, fails: set<Name>, interval: nat)
    requires Lists(order, s.draining.Keys)
    ensures Run(s, CommitSteps(order, fails), interval) == FinishCommit(s, fails)
    decreases |order|
  {
    hide Next, CommitMarked;
    if order == [] {
      assert s.draining == map[];
    } else {
      var n := order[0];
      assert n in order;
      RunCons(s, Commit(n, n !in fails), CommitSteps(order[1..], fails), interval);
      DrainOne(s, n, fails, interval);
      RestLists(order, s.draining);
      NothingMarked(Next(s, Commit(n, n !in fails), interval).writers, fails);
      DrainInAnyOrder(Next(s, Commit(n, n !in fails), interval), order[1..], fails, interval);
    }
  }

  lemma NothingMarked(writers: map<Name, Writer>, fails: set<Name>)
    ensures CommitMarked(writers, map[], fails) == writers
  {
  }

  lemma MarkedWriters(writers: map<Name, Writer>, marks: map<Name, nat>, fails: set<Name>)
    ensures var after := CommitMarked(writers, marks, fails);
            && after.Keys == writers.Keys
            && forall n <- writers ::
                 after[n] == if n in marks && n !in fails
                             then Writer(writers[n].committed + writers[n].staged, [], Some(marks[n]))
                             else writers[n]
  {
  }

  lemma MarkOne(writers: map<Name, Writer>, marks: map<Name, nat>, n: Name, fails: set<Name>)
    requires n in marks
    ensures var writers' := if n in writers && n !in fails then writers[n := writers[n].Commit(marks[n])] else writers;
            CommitMarked(writers', marks - {n}, fails) == CommitMarked(writers, marks, fails)
    ensures |marks - {n}| < |marks|
  {
    assert marks.Keys == (marks - {n}).Keys + {n};
  }

  lemma DrainOne(s: Indexer, n: Name, fails: set<Name>, interval: nat)
    requires n in s.draining
    ensures var s1 := Next(s, Commit(n, n !in fails), interval);
            && CommitMarked(s1.writers, s1.draining, fails) == CommitMarked(s.writers, s.draining, fails)
            && s1 == s.(writers := s1.writers, draining := s.draining - {n},
                        docsSinceCommit := if s.draining - {n} == map[] then 0 else s.docsSinceCommit)
  {
    MarkOne(s.writers, s.draining, n, fails);
  }

  lemma RestLists(order: seq<Name>, marks: map<Name, nat>)
    requires order != [] && Lists(order, marks.Keys)
    ensures Lists(order[1..], (marks - {order[0]}).Keys)
    ensures order[1..] == [] <==> marks - {order[0]} == map[]
  {
    assert order == [order[0]] + order[1..];
    if order[1..] != [] {
      assert order[1] in marks - {order[0]};
    }
  }

  /**
   `commit_all` is confluent: in whatever order the dirty map is drained, and whichever commits fail, every dirty writer
   whose commit succeeds has its staged operations committed under its own offset and no other writer changes.
   */
  lemma CommitAllConfluent(s: Indexer, order: seq<Name>, fails: set<Name>, interval: nat)
    requires s.draining == map[] && Lists(order, s.dirty.Keys)
    ensures Run(BeginCommit(s), CommitSteps(order, fails), interval) ==
            s.(writers := CommitMarked(s.writers, s.dirty, fails), dirty := map[], docsSinceCommit := 0)
    ensures var after := Run(BeginCommit(s), CommitSteps(order, fails), interval).writers;
            && after.Keys == s.writers.Keys
            && forall n <- s.writers ::
                 after[n] == if n in s.dirty && n !in fails
                             then Writer(s.writers[n].committed + s.writers[n].staged, [], Some(s.dirty[n]))
                             else s.writers[n]
  {
    DrainInAnyOrder(BeginCommit(s), order, fails, interval);
    NothingMarked(s.writers, fails);
  }

  /** A tick whose commits all succeed leaves nothing staged, if no earlier commit failed. */
  lemma TickLeavesNothingStaged(s: Indexer, order: seq<Name>, interval: nat)
    requires Inv(s) && Bookkept(s, interval) && s.draining == map[] && Lists(order, s.dirty.Keys)
    ensures var s' := Run(s, [Tick] + CommitSteps(order, {}), interval);
            && (forall n <- s'.writers :: s'.writers[n].staged == [])
            && s'.dirty == map[] && s'.docsSinceCommit == 0
  {
    hide Inv;
    assert ([Tick] + CommitSteps(order, {}))[1..] == CommitSteps(order, {});
    if s.dirty == map[] {
      NothingStaged(s);
    } else {
      CommitAllConfluent(s, order, {}, interval);
    }
  }

  /** The operations of an index, committed or staged. */
  function OpsOf(s: Indexer, n: Name): seq<Op> {
    if n in s.writers then s.writers[n].Ops() else []
  }

  lemma RunThree(s: Indexer, a: Step, b: Step, c: Step, interval: nat)
    ensures Run(s, [a, b, c], interval) == Next(Next(Next(s, a, interval), b, interval), c, interval)
  {
    hide Next;
    RunCons(s, a, [b, c], interval);
    RunCons(Next(s, a, interval), b, [c], interval);
    RunCons(Next(Next(s, a, interval), b, interval), c, [], interval);
    assert [a] + [b, c] == [a, b, c] && [b] + [c] == [b, c] && [c] + [] == [c];
  }

  /** Committing moves operations, and adds none. */
  lemma CommitKeepsOps(s: Indexer, n: Name, succeeds: bool, m: Name)
    ensures OpsOf(CommitOne(s, n, succeeds), m) == OpsOf(s, m) == OpsOf(HandleTick(s), m)
  {
  }

  /**
   An event is accepted iff nothing goes wrong with it: its index is known, it is a JSON object, the writer is there or
   can be opened, and the index takes the document. Committing its index next embeds its offset, and it is then the last
   operation. A rejected event leaves the operations of every index as they were.
   */
  lemma EventPayload(s: Indexer, x: Entry, env: EventEnv, interval: nat, m: Name)
    requires s.draining == map[]
    ensures var n, s1 := x.event.index, Run(s, [Event(x, env), Tick, Commit(x.event.index, true)], interval);
            var accepted := && env.known && env.validJson && env.isObject && (n in s.writers || env.writerOpens)
                            && env.indexOpens && env.parses && env.adds;
            && s1.processed == s.processed + [Processed(x, accepted)]
            && OpsOf(s1, m) == OpsOf(s, m) + (if accepted && m == n then [Add(x, env.ts)] else [])
            && (accepted ==> n in s1.writers && s1.writers[n].payload == Some(x.offset) && s1.writers[n].staged == [])
  {
    hide ProcessEvent, CommitOne;
    AcceptedIff(s, x, env);
    CommitProcessesNothing(Next(Next(s, Event(x, env), interval), Tick, interval), x.event.index, true);
    var n := x.event.index;
    var s1 := Next(s, Event(x, env), interval);
    var s2 := Next(s1, Tick, interval);
    RunThree(s, Event(x, env), Tick, Commit(n, true), interval);
    EventOps(s, x, env, interval, m);
    CommitKeepsOps(s1, n, true, m);
    CommitKeepsOps(s2, n, true, m);
    if ProcessEvent(s, x, env).1 {
      AcceptedIsMarked(s, x, env);
      CommitsMarked(s2, n);
    }
  }

  lemma CommitProcessesNothing(s: Indexer, n: Name, succeeds: bool)
    ensures CommitOne(s, n, succeeds).processed == s.processed
  {
  }

  lemma AcceptedIsMarked(s: Indexer, x: Entry, env: EventEnv)
    requires ProcessEvent(s, x, env).1
    ensures var s1 := ProcessEvent(s, x, env).0;
            var n := x.event.index;
            n in s1.writers && n in s1.dirty && s1.dirty[n] == x.offset && s1.draining == s.draining
  {
  }

  lemma CommitsMarked(s: Indexer, n: Name)
    requires n in s.draining && n in s.writers
    ensures var s1 := CommitOne(s, n, true);
            n in s1.writers && s1.writers[n].payload == Some(s.draining[n]) && s1.writers[n].staged == []
  {
  }

  lemma EventOps(s: Indexer, x: Entry, env: EventEnv, interval: nat, m: Name)
    ensures OpsOf(HandleEvent(s, x, env, interval), m) ==
            OpsOf(s, m) + if ProcessEvent(s, x, env).1 && m == x.event.index then [Add(x, env.ts)] else []
  {
    hide ProcessEvent;
    ProcessedOps(s, x, env, m);
  }

  lemma ProcessedOps(s: Indexer, x: Entry, env: EventEnv, m: Name)
    ensures var (s1, accepted) := ProcessEvent(s, x, env);
            OpsOf(s1, m) == OpsOf(s, m) + if accepted && m == x.event.index then [Add(x, env.ts)] else []
  {
    if m in s.writers {
      assert s.writers[m].Ops() + [] == s.writers[m].Ops();
    }
  }

  /**
   A purge is staged iff nothing goes wrong with it. The payload need not grow: committing a purge embeds the offset
   pending for the index, and 0 if none is, whatever was committed before. A purge that is given up leaves the
   operations of every index as they were.
   */
  lemma PurgedPayload(s: Indexer, n: Name, cutoff: int, env: PurgeEnv, interval: nat, m: Name)
    requires s.draining == map[]
    ensures var purged := && env.known && env.tsDeclared && env.tsIsDatetime && (n in s.writers || env.writerOpens)
                          && env.indexOpens && env.tsInSchema && env.deletes;
            var s1 := Run(s, [Purge(n, cutoff, env), Tick, Commit(n, true)], interval);
            && OpsOf(s1, m) == OpsOf(s, m) + (if purged && m == n then [DeleteBefore(CutoffSeconds(cutoff))] else [])
            && (purged ==> n in s1.writers && s1.writers[n].payload == Some(if n in s.dirty then s.dirty[n] else 0))
  {
    var s1 := Next(s, Purge(n, cutoff, env), interval);
    RunThree(s, Purge(n, cutoff, env), Tick, Commit(n, true), interval);
    PurgeOps(s, n, cutoff, env, m);
    CommitKeepsOps(s1, n, true, m);
    CommitKeepsOps(Next(s1, Tick, interval), n, true, m);
    if PurgeOldDocs(s, n, cutoff, env).1 {
      assert n in s1.dirty;
    }
  }

  lemma PurgeOps(s: Indexer, n: Name, cutoff: int, env: PurgeEnv, m: Name)
    ensures OpsOf(HandlePurge(s, n, cutoff, env), m) ==
            OpsOf(s, m) +
            if PurgeOldDocs(s, n, cutoff, env).1 && m == n then [DeleteBefore(CutoffSeconds(cutoff))] else []
  {
    if m in s.writers {
      assert s.writers[m].Ops() + [] == s.writers[m].Ops();
    }
  }

  // ---------------------------------------------------------------- retention

  predicate Kills(op: Op, d: Op) {
    op.DeleteBefore? && d.Add? && d.ts.Some? && d.ts.value < op.seconds * NANOS
  }

  /** The positions of the documents an index holds once `ops` have been applied in order. */
  function Live(ops: seq<Op>): (live: set<nat>)
    ensures forall i <- live :: i < |ops| && ops[i].Add?
  {
    if ops == [] then {}
    else
      var last := ops[|ops| - 1];
      var before := Live(ops[..|ops| - 1]);
      if last.Add? then before + {|ops| - 1}
      else set i | i in before && !Kills(last, ops[i])
  }

  /** A document is there iff it was added and no later deletion covers its timestamp. */
  lemma {:induction false} LiveIff(ops: seq<Op>, i: nat)
    ensures i in Live(ops) <==> i < |ops| && ops[i].Add? && forall j :: i < j < |ops| ==> !Kills(ops[j], ops[i])
  {
    if ops != [] {
      var init := ops[..|ops| - 1];
      LiveIff(init, i);
      assert forall j :: 0 <= j < |ops| - 1 ==> init[j] == ops[j];
    }
  }

  function CommittedOf(s: Indexer, n: Name): seq<Op> {
    if n in s.writers then s.writers[n].committed else []
  }

  /** No step takes back an operation, and what is committed is always a prefix of all operations. */
  lemma NextKeepsOps(s: Indexer, step: Step, interval: nat, n: Name)
    ensures var s' := Next(s, step, interval);
            && OpsOf(s, n) <= OpsOf(s', n) && CommittedOf(s', n) <= OpsOf(s', n)
  {
    hide HandleEvent, HandlePurge, CommitOne, HandleTick;
    match step
    case Event(x, env) => EventOps(s, x, env, interval, n);
    case Purge(name, cutoff, env) => PurgeOps(s, name, cutoff, env, n);
    case Tick => CommitKeepsOps(s, n, true, n);
    case Commit(name, succeeds) => CommitKeepsOps(s, name, succeeds, n);
  }

  lemma {:induction false} RunKeepsOps(s: Indexer, steps: seq<Step>, interval: nat, n: Name)
    ensures OpsOf(s, n) <= OpsOf(Run(s, steps, interval), n)
    ensures CommittedOf(Run(s, steps, interval), n) <= OpsOf(Run(s, steps, interval), n)
    decreases |steps|
  {
    hide Next;
    if steps != [] {
      NextKeepsOps(s, steps[0], interval, n);
      RunKeepsOps(Next(s, steps[0], interval), steps[1..], interval, n);
    }
  }

  /** A deletion between `before` and `after`: it removes what it covers in `before`, and nothing else. */
  lemma DeletionEffect(before: seq<Op>, del: Op, after: seq<Op>, i: nat)
    requires del.DeleteBefore?
    ensures var ops, without := before + [del] + after, before + after;
            && (i < |before| ==> (i in Live(ops) <==> i in Live(without) && !Kills(del, before[i])))
            && (|before| < i ==> (i in Live(ops) <==> i - 1 in Live(without)))
            && |before| !in Live(ops)
  {
    var ops, without, p := before + [del] + after, before + after, |before|;
    assert forall j :: 0 <= j < p ==> ops[j] == without[j] == before[j];
    assert forall j :: p < j < |ops| ==> ops[j] == without[j - 1];
    assert forall j :: p <= j < |without| ==> without[j] == ops[j + 1];
    LiveIff(ops, i);
    if i < p {
      LiveIff(without, i);
      assert ops[p] == del;
    } else if i > p {
      LiveIff(without, i - 1);
    }
  }

  /** Older than the whole second of the cutoff. */
  predicate TooOld(op: Op, cutoff: int) {
    op.Add? && op.ts.Some? && op.ts.value < cutoff - cutoff % 1_000_000_000
  }

  /**
   The retention window, exactly. Whatever the actor does after a successful purge of index `n` with `cutoff`: once the
   purge has been committed, the documents the index holds are those it would hold without the purge, except the
   documents added before it with a timestamp below the cutoff's whole second. Of those none remains; documents at or
   after the cutoff, documents without a timestamp, and documents added after the purge are untouched by it.
   */
  lemma RetentionWindow(s: Indexer, n: Name, cutoff: int, env: PurgeEnv, steps: seq<Step>, interval: nat)
    requires s.draining == map[] && env.known && env.tsDeclared && env.tsIsDatetime
    requires (n in s.writers || env.writerOpens) && env.indexOpens && env.tsInSchema && env.deletes
    requires var end := Run(Next(s, Purge(n, cutoff, env), interval), steps, interval);
             |OpsOf(s, n)| < |CommittedOf(end, n)|
    ensures var end := Run(Next(s, Purge(n, cutoff, env), interval), steps, interval);
            var before, ops := OpsOf(s, n), CommittedOf(end, n);
            var without := before + ops[|before| + 1..];
            && before + [DeleteBefore(CutoffSeconds(cutoff))] <= ops
            && (forall i: nat :: i < |before| ==>
                  (i in Live(ops) <==> i in Live(without) && !TooOld(before[i], cutoff)))
            && (forall i: nat :: |before| < i ==> (i in Live(ops) <==> i - 1 in Live(without)))
  {
    hide HandlePurge, Live;
    var purge := DeleteBefore(CutoffSeconds(cutoff));
    var before := OpsOf(s, n);
    var s1 := Next(s, Purge(n, cutoff, env), interval);
    PurgeOps(s, n, cutoff, env, n);
    RunKeepsOps(s1, steps, interval, n);
    var ops := CommittedOf(Run(s1, steps, interval), n);
    var after := ops[|before| + 1..];
    assert before + [purge] <= ops;
    assert ops == before + [purge] + after;
    forall i: nat
      ensures i < |before| ==> (i in Live(ops) <==> i in Live(before + after) && !TooOld(before[i], cutoff))
      ensures |before| < i ==> (i in Live(ops) <==> i - 1 in Live(before + after))
    {
      DeletionEffect(before, purge, after, i);
      if i < |before| && before[i].Add? {
        assert Kills(purge, before[i]) == TooOld(before[i], cutoff);
      }
    }
  }
}
