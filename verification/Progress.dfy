/** The machine makes progress: whatever is acknowledged is indexed and committed, once the indexer gets to run. */
module Progress {
  import opened Bytes
  import opened Codec
  import opened WalLog
  import opened Pipeline
  import opened PipelineSafety
  import opened PipelineTheorems
  import Idx = Indexing
  import Runs = IndexingRuns

  // ---------------------------------------------------------------- single steps of the machine

  /**
   The indexer takes the first event of its channel, and adds it to its index iff nothing goes wrong with it. The step
   touches nothing else of the pipeline.
   */
  lemma IndexNextTakes(s: State, env: Idx.EventEnv, interval: nat, m: Idx.Name)
    requires s.queue != [] && s.indexer.draining == map[]
    ensures var x, s1 := s.queue[0], Run(s, [IndexNext(env)], interval);
            var n := x.event.index;
            var accepted := && env.known && env.validJson && env.isObject
                            && (n in s.indexer.writers || env.writerOpens)
                            && env.indexOpens && env.parses && env.adds;
            && s1 == s.(queue := s.queue[1..], indexer := s1.indexer)
            && s1.indexer.processed == s.indexer.processed + [Idx.Processed(x, accepted)]
            && Runs.OpsOf(s1.indexer, m) ==
               Runs.OpsOf(s.indexer, m) + if accepted && m == n then [Idx.Add(x, env.ts)] else []
  {
    hide Idx.ProcessEvent;
    RunOne(s, IndexNext(env), interval);
    Idx.AcceptedIff(s.indexer, s.queue[0], env);
    Runs.EventOps(s.indexer, s.queue[0], env, interval, m);
  }

  /** A purge command stages a deletion iff nothing goes wrong with it, and touches nothing else of the pipeline. */
  lemma PurgeDocsStages(s: State, name: Idx.Name, cutoff: int, env: Idx.PurgeEnv, interval: nat, m: Idx.Name)
    requires s.indexer.draining == map[]
    ensures var s1 := Run(s, [PurgeDocs(name, cutoff, env)], interval);
            var staged := && env.known && env.tsDeclared && env.tsIsDatetime
                          && (name in s.indexer.writers || env.writerOpens)
                          && env.indexOpens && env.tsInSchema && env.deletes;
            && s1 == s.(indexer := s1.indexer) && s1.indexer.processed == s.indexer.processed
            && Runs.OpsOf(s1.indexer, m) ==
               Runs.OpsOf(s.indexer, m) + if staged && m == name then [Idx.DeleteBefore(cutoff / 1_000_000_000)] else []
  {
    RunOne(s, PurgeDocs(name, cutoff, env), interval);
    Runs.PurgeOps(s.indexer, name, cutoff, env, m);
  }

  function MachineCommits(order: seq<Idx.Name>): seq<Step>
    decreases |order|
  {
    if order == [] then [] else [CommitIndex(order[0], true)] + MachineCommits(order[1..])
  }

  lemma {:induction false} CommitsOnTheMachine(s: State, order: seq<Idx.Name>, interval: nat)
    ensures Run(s, MachineCommits(order), interval) ==
            s.(indexer := Idx.Run(s.indexer, Runs.CommitSteps(order, {}), interval))
    decreases |order|
  {
    hide Idx.CommitOne, Run;
    if order == [] {
      RunNone(s, interval);
    } else {
      var step := CommitIndex(order[0], true);
      RunCons(s, step, MachineCommits(order[1..]), interval);
      Idx.RunCons(s.indexer, Idx.Commit(order[0], true), Runs.CommitSteps(order[1..], {}), interval);
      CommitsOnTheMachine(Next(s, step, interval), order[1..], interval);
    }
  }

  lemma TickOnTheMachine(s: State, order: seq<Idx.Name>, interval: nat)
    ensures Run(s, [Timer] + MachineCommits(order), interval) ==
            s.(indexer := Idx.Run(s.indexer, [Idx.Tick] + Runs.CommitSteps(order, {}), interval))
  {
    hide Run, Idx.Run, Runs.CommitSteps, MachineCommits, Idx.HandleTick;
    RunCons(s, Timer, MachineCommits(order), interval);
    Idx.RunCons(s.indexer, Idx.Tick, Runs.CommitSteps(order, {}), interval);
    CommitsOnTheMachine(Next(s, Timer, interval), order, interval);
  }

  lemma {:induction false} CommitStepsFresh(ix: Idx.Indexer, order: seq<Idx.Name>, interval: nat)
    ensures Idx.FreshRun(ix, Runs.CommitSteps(order, {}), interval)
    ensures Idx.Run(ix, Runs.CommitSteps(order, {}), interval).processed == ix.processed
    decreases |order|
  {
    if order != [] {
      var step := Idx.Commit(order[0], true);
      assert Runs.CommitSteps(order, {})[1..] == Runs.CommitSteps(order[1..], {});
      CommitStepsFresh(Idx.Next(ix, step, interval), order[1..], interval);
    }
  }

  lemma TickStepsFresh(ix: Idx.Indexer, order: seq<Idx.Name>, interval: nat)
    ensures Idx.FreshRun(ix, [Idx.Tick] + Runs.CommitSteps(order, {}), interval)
  {
    var ticks := [Idx.Tick] + Runs.CommitSteps(order, {});
    assert ticks[1..] == Runs.CommitSteps(order, {});
    CommitStepsFresh(Idx.Next(ix, Idx.Tick, interval), order, interval);
  }

  lemma TickProcessesNothing(ix: Idx.Indexer, order: seq<Idx.Name>, interval: nat)
    ensures Idx.Run(ix, [Idx.Tick] + Runs.CommitSteps(order, {}), interval).processed == ix.processed
  {
    Idx.RunCons(ix, Idx.Tick, Runs.CommitSteps(order, {}), interval);
    CommitStepsFresh(Idx.Next(ix, Idx.Tick, interval), order, interval);
  }

  // ---------------------------------------------------------------- the quiescent tick

  /** When the channel is empty, the timer and the commits it starts leave nothing staged. */
  lemma TickCommits(s: State, order: seq<Idx.Name>, interval: nat, n: Idx.Name)
    requires Pipeline.Inv(s) && Runs.Bookkept(s.indexer, interval) && s.indexer.draining == map[]
    requires Runs.Lists(order, s.indexer.dirty.Keys)
    ensures var s1 := Run(s, [Timer] + MachineCommits(order), interval);
            && s1 == s.(indexer := s1.indexer) && s1.indexer.processed == s.indexer.processed
            && CommittedAdds(s1.indexer, n) == Idx.AcceptedOf(s.indexer.processed, n)
            && (n in s1.indexer.writers ==> s1.indexer.writers[n].staged == [])
  {
    hide Run, WalLog.Inv, PhaseOk, Stored, Delivered, Ordered, Idx.Adds, Idx.AcceptedOf, Runs.Bookkept, Idx.Run,
         Idx.FreshRun, Runs.CommitSteps, Runs.Lists, MachineCommits;
    var ticks := [Idx.Tick] + Runs.CommitSteps(order, {});
    TickOnTheMachine(s, order, interval);
    TickStepsFresh(s.indexer, order, interval);
    Idx.RunKeepsInv(s.indexer, ticks, interval);
    Runs.TickLeavesNothingStaged(s.indexer, order, interval);
    TickProcessesNothing(s.indexer, order, interval);
    var ix := Idx.Run(s.indexer, ticks, interval);
    if n in ix.writers {
      assert Idx.WriterOk(ix.writers[n], ix.processed, n);
      assert ix.writers[n].Ops() == ix.writers[n].committed;
    }
  }

  /** In every run without failing commits the indexer's books are right. */
  lemma ReachableBooks(origin: nat, existing: seq<byte>, prior: map<Idx.Name, nat>, steps: seq<Step>, interval: nat)
    requires interval > 0 && CommitsSucceed(steps)
    ensures var s := Run(Initial(origin, existing, prior), steps, interval);
            Pipeline.Inv(s) && Runs.Bookkept(s.indexer, interval)
  {
    hide Run, Pipeline.Inv, Runs.Bookkept;
    InitialInv(origin, existing, prior);
    InitialBooks(origin, existing, prior, interval);
    RunKeepsInv(Initial(origin, existing, prior), steps, interval);
    RunKeepsBooks(Initial(origin, existing, prior), steps, interval);
  }

  /**
   If no commit fails, then once the channel is empty and the appender waits, the next tick leaves nothing staged: the
   committed operations of each index add exactly the accepted acknowledged events of that index.
   */
  lemma QuiescentTick(origin: nat, existing: seq<byte>, prior: map<Idx.Name, nat>, steps: seq<Step>, interval: nat,
                      order: seq<Idx.Name>, n: Idx.Name)
    requires interval > 0 && CommitsSucceed(steps)
    requires var s := Run(Initial(origin, existing, prior), steps, interval);
             && s.queue == [] && s.phase == Waiting && s.indexer.draining == map[]
             && Runs.Lists(order, s.indexer.dirty.Keys)
    ensures var s := Run(Initial(origin, existing, prior), steps, interval);
            var s1 := Run(s, [Timer] + MachineCommits(order), interval);
            && ProcessedEntries(s1.indexer.processed) == s.acked == s1.acked
            && CommittedAdds(s1.indexer, n) == Idx.AcceptedOf(s1.indexer.processed, n)
            && (n in s1.indexer.writers ==> s1.indexer.writers[n].staged == [])
  {
    hide Run, WalLog.Inv, Idx.Inv, PhaseOk, Stored, Ordered, Idx.AcceptedOf, Runs.Bookkept, Runs.Lists, MachineCommits;
    ReachableBooks(origin, existing, prior, steps, interval);
    TickCommits(Run(Initial(origin, existing, prior), steps, interval), order, interval, n);
  }

  // ---------------------------------------------------------------- progress

  lemma {:induction false} NamesListed(names: set<Idx.Name>) returns (order: seq<Idx.Name>)
    ensures Runs.Lists(order, names)
    decreases |names|
  {
    if names == {} {
      order := [];
    } else {
      var n :| n in names;
      var rest := NamesListed(names - {n});
      order := [n] + rest;
      assert forall i :: 0 < i < |order| ==> order[i] == rest[i - 1] && rest[i - 1] in rest;
      assert forall m <- names :: m == n || m in names - {n};
    }
  }

  /** A step of the indexer that takes an event, fires the timer, or commits successfully. */
  predicate IndexerWorks(step: Step) {
    step.IndexNext? || step.Timer? || (step.CommitIndex? && step.commits)
  }

  predicate AllWork(steps: seq<Step>) {
    forall i :: 0 <= i < |steps| ==> IndexerWorks(steps[i])
  }

  lemma {:induction false} CommitsWork(order: seq<Idx.Name>)
    ensures AllWork(MachineCommits(order)) && CommitsSucceed(MachineCommits(order))
    decreases |order|
  {
    if order != [] {
      CommitsWork(order[1..]);
    }
  }

  /** The commits under way can be finished. */
  lemma FinishCommits(s: State, interval: nat) returns (steps: seq<Step>)
    ensures AllWork(steps)
    ensures Run(s, steps, interval) == s.(indexer := Runs.FinishCommit(s.indexer, {}))
  {
    hide Run, MachineCommits, Runs.CommitSteps, Idx.Run;
    var order := NamesListed(s.indexer.draining.Keys);
    steps := MachineCommits(order);
    CommitsWork(order);
    CommitsOnTheMachine(s, order, interval);
    Runs.DrainInAnyOrder(s.indexer, order, {}, interval);
  }

  /** An event nothing goes wrong with. */
  predicate Flawless(env: Idx.EventEnv) {
    env.known && env.validJson && env.isObject && env.writerOpens && env.indexOpens && env.parses && env.adds
  }

  /** The indexer has taken the events `xs`, and accepted those that nothing goes wrong with. */
  predicate Taken(was: seq<Idx.Processed>, now: seq<Idx.Processed>, xs: seq<Entry>, env: Entry -> Idx.EventEnv) {
    && |now| == |was| + |xs| && now[..|was|] == was
    && (forall i :: 0 <= i < |xs| ==>
          now[|was| + i].entry == xs[i] && (Flawless(env(xs[i])) ==> now[|was| + i].accepted))
  }

  lemma WorkKeeps(s: State, steps: seq<Step>, interval: nat)
    requires interval > 0 && Pipeline.Inv(s) && Runs.Bookkept(s.indexer, interval) && AllWork(steps)
    ensures Pipeline.Inv(Run(s, steps, interval)) && Runs.Bookkept(Run(s, steps, interval).indexer, interval)
  {
    hide Pipeline.Inv, Run, Runs.Bookkept;
    RunKeepsInv(s, steps, interval);
    RunKeepsBooks(s, steps, interval);
  }

  /** From every state the indexer can empty its channel. */
  lemma {:induction false} CatchUp(s: State, env: Entry -> Idx.EventEnv, interval: nat) returns (steps: seq<Step>)
    requires interval > 0 && Pipeline.Inv(s) && Runs.Bookkept(s.indexer, interval)
    ensures AllWork(steps)
    ensures var s1 := Run(s, steps, interval);
            && s1 == s.(queue := [], indexer := s1.indexer) && s1.indexer.draining == map[]
            && Taken(s.indexer.processed, s1.indexer.processed, s.queue, env)
    decreases |s.queue|
  {
    hide Pipeline.Inv, Run, Runs.Bookkept, Taken, Runs.CommitMarked, Next;
    steps := FinishCommits(s, interval);
    var s1 := Run(s, steps, interval);
    if s.queue == [] {
      NothingTaken(s.indexer.processed, env);
    } else {
      WorkKeeps(s, steps, interval);
      var step := IndexNext(env(s.queue[0]));
      var s2 := Run(s1, [step], interval);
      IndexNextTakes(s1, env(s.queue[0]), interval, s.queue[0].event.index);
      WorkKeeps(s1, [step], interval);
      var rest := CatchUp(s2, env, interval);
      RunConcat(s, steps, [step], interval);
      RunConcat(s, steps + [step], rest, interval);
      OneMoreTaken(s.indexer.processed, s2.indexer.processed, Run(s2, rest, interval).indexer.processed, s.queue, env);
      steps := steps + [step] + rest;
    }
  }

  lemma NothingTaken(was: seq<Idx.Processed>, env: Entry -> Idx.EventEnv)
    ensures Taken(was, was, [], env)
  {
  }

  lemma OneMoreTaken(was: seq<Idx.Processed>, mid: seq<Idx.Processed>, now: seq<Idx.Processed>, xs: seq<Entry>,
                     env: Entry -> Idx.EventEnv)
    requires xs != [] && |mid| == |was| + 1 && mid[..|was|] == was
    requires mid[|was|].entry == xs[0] && (Flawless(env(xs[0])) ==> mid[|was|].accepted)
    requires Taken(mid, now, xs[1..], env)
    ensures Taken(was, now, xs, env)
  {
    assert now[..|was|] == now[..|mid|][..|was|];
    assert now[|was|] == now[..|mid|][|was|];
    forall i | 0 < i < |xs|
      ensures now[|was| + i].entry == xs[i] && (Flawless(env(xs[i])) ==> now[|was| + i].accepted)
    {
      assert xs[1..][i - 1] == xs[i] && |mid| + (i - 1) == |was| + i;
    }
  }

  /**
   Progress. In every run without failing commits, whenever the appender waits, there are steps of the indexer, whatever
   becomes of each event in its channel, after which the channel is empty, every acknowledged event has been taken in
   order, and each of them is in the committed operations of its index or was rejected. Of the events that were waiting,
   those that nothing goes wrong with are committed. Nothing else of the pipeline changes.
   */
  lemma EverythingIsCommitted(origin: nat, existing: seq<byte>, prior: map<Idx.Name, nat>, steps: seq<Step>,
                              interval: nat, env: Entry -> Idx.EventEnv) returns (more: seq<Step>)
    requires interval > 0 && CommitsSucceed(steps)
    requires Run(Initial(origin, existing, prior), steps, interval).phase == Waiting
    ensures AllWork(more)
    ensures var s := Run(Initial(origin, existing, prior), steps, interval);
            var s1 := Run(s, more, interval);
            && s1 == s.(queue := [], indexer := s1.indexer)
            && ProcessedEntries(s1.indexer.processed) == s.acked
            && (forall x <- s.acked ::
                  x in CommittedAdds(s1.indexer, x.event.index) || Idx.Processed(x, false) in s1.indexer.processed)
            && (forall x <- s.queue :: Flawless(env(x)) ==> x in CommittedAdds(s1.indexer, x.event.index))
  {
    hide Run, Pipeline.Inv, Runs.Bookkept, Taken, CommittedAdds, Idx.AcceptedOf, MachineCommits, AllWork, Next,
         Runs.Lists;
    ReachableBooks(origin, existing, prior, steps, interval);
    var s := Run(Initial(origin, existing, prior), steps, interval);
    var taking := CatchUp(s, env, interval);
    WorkKeeps(s, taking, interval);
    var s1 := Run(s, taking, interval);
    var order := NamesListed(s1.indexer.dirty.Keys);
    var tick := [Timer] + MachineCommits(order);
    more := taking + tick;
    RunConcat(s, taking, tick, interval);
    TickWorks(taking, order);
    TickCommits(s1, order, interval, []);
    AllTaken(s1);
    forall x <- s.acked
      ensures var s2 := Run(s1, tick, interval);
              x in CommittedAdds(s2.indexer, x.event.index) || Idx.Processed(x, false) in s1.indexer.processed
      ensures var s2 := Run(s1, tick, interval);
              x in s.queue && Flawless(env(x)) ==> x in CommittedAdds(s2.indexer, x.event.index)
    {
      TickCommits(s1, order, interval, x.event.index);
      CommittedOrRejected(s, s1, env, x);
    }
    QueueIsAcked(s);
  }

  lemma TickWorks(taking: seq<Step>, order: seq<Idx.Name>)
    requires AllWork(taking)
    ensures AllWork(taking + ([Timer] + MachineCommits(order)))
  {
    CommitsWork(order);
  }

  lemma AllTaken(s: State)
    requires Pipeline.Inv(s) && s.queue == [] && s.phase == Waiting
    ensures ProcessedEntries(s.indexer.processed) == s.acked
  {
    hide WalLog.Inv, Idx.Inv, Ordered, Stored;
  }

  lemma QueueIsAcked(s: State)
    requires Pipeline.Inv(s)
    ensures forall x <- s.queue :: x in s.acked
  {
    hide WalLog.Inv, Idx.Inv, Ordered, Stored, PhaseOk;
  }

  lemma CommittedOrRejected(s: State, s1: State, env: Entry -> Idx.EventEnv, x: Entry)
    requires Pipeline.Inv(s) && Pipeline.Inv(s1) && s1.phase == Waiting && s1.queue == [] && s1.acked == s.acked
    requires Taken(s.indexer.processed, s1.indexer.processed, s.queue, env) && x in s.acked
    ensures x in Idx.AcceptedOf(s1.indexer.processed, x.event.index) || Idx.Processed(x, false) in s1.indexer.processed
    ensures x in s.queue && Flawless(env(x)) ==> x in Idx.AcceptedOf(s1.indexer.processed, x.event.index)
  {
    hide WalLog.Inv, Idx.Inv, Ordered, Stored, PhaseOk, Idx.AcceptedOf, Delivered;
    var ps := s1.indexer.processed;
    AllTaken(s1);
    var i :| 0 <= i < |s.acked| && s.acked[i] == x;
    assert ps[i].entry == x;
    if ps[i].accepted {
      AcceptedMember(ps, i);
    }
    if x in s.queue && Flawless(env(x)) {
      var k :| 0 <= k < |s.queue| && s.queue[k] == x;
      var j := |s.indexer.processed| + k;
      assert ps[j].entry == x && ps[j].accepted;
      AcceptedMember(ps, j);
    }
  }
}
