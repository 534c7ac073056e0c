/** The indexer actor with its mutable maps, proved against the state machine. */
module IndexerActing {
  import opened Codec
  import opened Indexing
  import opened IndexingRuns
  import opened Options

  class IndexerActor {
    var writers: map<Name, Writer>
    var dirtyWriters: map<Name, nat>
    var docsSinceCommit: nat
    ghost var processed: seq<Processed>

    ghost function State(): Indexer
      reads this
    {
      Indexer(writers, dirtyWriters, map[], docsSinceCommit, processed)
    }

    constructor ()
      ensures State() == Idle
    {
      writers, dirtyWriters, docsSinceCommit, processed := map[], map[], 0, [];
    }

    method EnsureWriter(name: Name, opens: bool) returns (ok: bool)
      modifies this`writers
      ensures (State(), ok) == Indexing.EnsureWriter(old(State()), name, opens)
      ensures ok <==> name in old(writers) || opens
      ensures writers == if name in old(writers) || !opens then old(writers)
                         else old(writers)[name := Writer([], [], None)]
    {
      if name in writers {
        return true;
      }
      if !opens {
        return false;
      }
      writers := writers[name := Writer([], [], None)];
      return true;
    }

    method ProcessEvent(x: Entry, env: EventEnv) returns (ok: bool)
      modifies this`writers, this`dirtyWriters
      ensures (State(), ok) == Indexing.ProcessEvent(old(State()), x, env)
      ensures ok <==> && env.known && env.validJson && env.isObject
                      && (x.event.index in old(writers) || env.writerOpens)
                      && env.indexOpens && env.parses && env.adds
      ensures ok ==>
                var n := x.event.index;
                var w := if n in old(writers) then old(writers[n]) else Writer([], [], None);
                && writers == old(writers)[n := w.(staged := w.staged + [Add(x, env.ts)])]
                && dirtyWriters == old(dirtyWriters)[n := x.offset]
      ensures !ok ==> dirtyWriters == old(dirtyWriters)
    {
      if !env.known {
        return false;
      }
      if !env.validJson {
        return false;
      }
      if !env.isObject {
        return false;
      }
      var name := x.event.index;
      ok := EnsureWriter(name, env.writerOpens);
      if !ok {
        return false;
      }
      if !env.indexOpens {
        return false;
      }
      if !env.parses {
        return false;
      }
      if name in writers {
        if !env.adds {
          return false;
        }
        writers := writers[name := writers[name].(staged := writers[name].staged + [Add(x, env.ts)])];
      }
      dirtyWriters := dirtyWriters[name := x.offset];
      return true;
    }

    method PurgeOldDocs(name: Name, cutoff: int, env: PurgeEnv) returns (ok: bool)
      modifies this`writers, this`dirtyWriters
      ensures (State(), ok) == Indexing.PurgeOldDocs(old(State()), name, cutoff, env)
      ensures ok <==> && env.known && env.tsDeclared && env.tsIsDatetime && (name in old(writers) || env.writerOpens)
                      && env.indexOpens && env.tsInSchema && env.deletes
      ensures ok ==>
                var w := if name in old(writers) then old(writers[name]) else Writer([], [], None);
                && writers == old(writers)[name := w.(staged := w.staged + [DeleteBefore(cutoff / 1_000_000_000)])]
                && dirtyWriters == if name in old(dirtyWriters) then old(dirtyWriters) else old(dirtyWriters)[name := 0]
      ensures !ok ==> dirtyWriters == old(dirtyWriters)
    {
      if !env.known || !env.tsDeclared || !env.tsIsDatetime {
        return false;
      }
      ok := EnsureWriter(name, env.writerOpens);
      if !ok {
        return false;
      }
      if !env.indexOpens || !env.tsInSchema || !env.deletes {
        return false;
      }
      var op := DeleteBefore(CutoffSeconds(cutoff));
      writers := writers[name := writers[name].(staged := writers[name].staged + [op])];
      if name !in dirtyWriters {
        dirtyWriters := dirtyWriters[name := 0];
      }
      return true;
    }

    /** Drains the dirty map in an arbitrary order. The commits of the writers in `fails` fail. */
    method CommitAll(fails: set<Name>)
      modifies this`writers, this`dirtyWriters
      ensures writers == CommitMarked(old(writers), old(dirtyWriters), fails)
      ensures writers.Keys == old(writers).Keys
      ensures forall n <- writers ::
                var w := old(writers[n]);
                writers[n] == if n in old(dirtyWriters) && n !in fails
                              then Writer(w.committed + w.staged, [], Some(old(dirtyWriters)[n])) else w
      ensures dirtyWriters == map[]
    {
      hide CommitMarked;
      var marks := dirtyWriters;
      dirtyWriters := map[];
      ghost var all := CommitMarked(writers, marks, fails);
      while marks != map[]
        invariant dirtyWriters == map[]
        invariant CommitMarked(writers, marks, fails) == all
        decreases |marks|
      {
        var name :| name in marks;
        MarkOne(writers, marks, name, fails);
        if name in writers && name !in fails {
          writers := writers[name := writers[name].Commit(marks[name])];
        }
        marks := marks - {name};
      }
      NothingMarked(writers, fails);
      MarkedWriters(old(writers), old(dirtyWriters), fails);
    }

    /** The event arm of the loop. */
    method OnEvent(x: Entry, env: EventEnv, interval: nat, fails: set<Name>)
      modifies this
      ensures State() == FinishCommit(HandleEvent(old(State()), x, env, interval), fails)
    {
      hide Indexing.ProcessEvent;
      NothingMarked(Indexing.ProcessEvent(State(), x, env).0.writers, fails);
      var ok := ProcessEvent(x, env);
      processed := processed + [Processed(x, ok)];
      if ok {
        docsSinceCommit := docsSinceCommit + 1;
      }
      if docsSinceCommit >= interval {
        CommitAll(fails);
        docsSinceCommit := 0;
      }
    }

    /** The purge arm of the loop. */
    method OnPurge(name: Name, cutoff: int, env: PurgeEnv)
      modifies this
      ensures State() == HandlePurge(old(State()), name, cutoff, env)
    {
      var _ := PurgeOldDocs(name, cutoff, env);
    }

    /** The timer arm of the loop. */
    method OnTick(fails: set<Name>)
      modifies this
      ensures State() == FinishCommit(HandleTick(old(State())), fails)
    {
      if dirtyWriters != map[] {
        CommitAll(fails);
        docsSinceCommit := 0;
      }
    }
  }
}
