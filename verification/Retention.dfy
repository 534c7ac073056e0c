/** `cleanup_wals`: deletion of committed WAL files, then of the oldest others while the log is over its size limit. */
module Retention {
  import opened StableSort
  import opened WalNames
  import opened Options

  /** One entry of `read_dir`; `size` is missing when its metadata cannot be read. */
  datatype DirEntry = DirEntry(name: string, isFile: bool, size: Option<nat>)

  datatype WalFile = WalFile(start: nat, name: string, size: nat) {
    function End(): nat {
      start + size
    }
  }

  function AsWal(e: DirEntry): Option<WalFile> {
    if !e.isFile then None
    else match (ParseName(e.name), e.size)
      case (Some(start), Some(size)) => Some(WalFile(start, e.name, size))
      case _ => None
  }

  function WalFiles(entries: seq<DirEntry>): seq<WalFile> {
    if entries == [] then []
    else (match AsWal(entries[0]) case Some(f) => [f] case None => []) + WalFiles(entries[1..])
  }

  /**
   Which directory entries the worker takes for WAL files: regular files of known size whose name is an offset in
   hexadecimal, with the extension `wal`.
   */
  lemma AsWalIff(e: DirEntry, f: WalFile)
    ensures AsWal(e) == Some(f) <==>
            && e.isFile && e.size == Some(f.size) && f.name == e.name
            && |e.name| > 4 && e.name[|e.name| - 4..] == ".wal" && ParseHex(e.name[..|e.name| - 4]) == Some(f.start)
  {
    hide ParseHex;
  }

  lemma {:induction false} WalFilesConcat(a: seq<DirEntry>, b: seq<DirEntry>)
    ensures WalFiles(a + b) == WalFiles(a) + WalFiles(b)
  {
    hide AsWal;
    if a == [] {
      assert a + b == b;
    } else {
      assert (a + b)[1..] == a[1..] + b;
      WalFilesConcat(a[1..], b);
    }
  }

  lemma OneEntry(e: DirEntry)
    ensures WalFiles([e]) == match AsWal(e) case Some(f) => [f] case None => []
  {
    hide AsWal;
    assert [e][1..] == [];
  }

  lemma PositionsStep(init: seq<DirEntry>, last: DirEntry, f: WalFile)
    ensures var entries, n := init + [last], |init|;
            (set i | 0 <= i < |entries| && AsWal(entries[i]) == Some(f)) ==
            (set i | 0 <= i < n && AsWal(init[i]) == Some(f)) + if AsWal(last) == Some(f) then {n} else {}
  {
    hide AsWal;
  }

  lemma CountLast(init: seq<WalFile>, last: seq<WalFile>, f: WalFile)
    ensures multiset(init + last)[f] == multiset(init)[f] + multiset(last)[f]
    ensures multiset([f])[f] == 1
  {
  }

  /** Every such entry is processed, as often as it is listed, and no other. */
  lemma {:induction false} WalFilesCount(entries: seq<DirEntry>, f: WalFile)
    ensures multiset(WalFiles(entries))[f] == |set i | 0 <= i < |entries| && AsWal(entries[i]) == Some(f)|
  {
    hide AsWal, WalFiles;
    var found := set i | 0 <= i < |entries| && AsWal(entries[i]) == Some(f);
    if entries == [] {
      NoEntries();
      assert found == {};
    } else {
      var n := |entries| - 1;
      var init, last := entries[..n], entries[n];
      assert entries == init + [last];
      WalFilesCount(init, f);
      WalFilesConcat(init, [last]);
      OneEntry(last);
      CountLast(WalFiles(init), WalFiles([last]), f);
      PositionsStep(init, last, f);
    }
  }

  lemma NoEntries()
    ensures WalFiles([]) == []
  {
  }

  /** The order of the directory does not change which files are seen. */
  lemma {:induction false} WalFilesPermute(a: seq<DirEntry>, b: seq<DirEntry>)
    requires multiset(a) == multiset(b)
    ensures multiset(WalFiles(a)) == multiset(WalFiles(b))
    decreases |a|
  {
    hide WalFiles, AsWal;
    if a == [] {
      assert b == [];
    } else {
      var e, rest := a[0], a[1..];
      assert a == [e] + rest;
      assert e in multiset(b);
      var k :| 0 <= k < |b| && b[k] == e;
      assert b == b[..k] + [e] + b[k + 1..];
      assert multiset(a) == multiset{e} + multiset(rest);
      assert multiset(b) == multiset(b[..k]) + multiset{e} + multiset(b[k + 1..]);
      assert multiset(b[..k] + b[k + 1..]) == multiset(b[..k]) + multiset(b[k + 1..]);
      assert multiset(rest) == multiset(a) - multiset{e} == multiset(b[..k] + b[k + 1..]);
      WalFilesPermute(rest, b[..k] + b[k + 1..]);
      WalFilesConcat([e], rest);
      WalFilesConcat(b[..k] + [e], b[k + 1..]);
      WalFilesConcat(b[..k], [e]);
      WalFilesConcat(b[..k], b[k + 1..]);
    }
  }

  lemma {:induction false} ForeignEntries(entries: seq<DirEntry>)
    requires forall e <- entries :: AsWal(e).None?
    ensures WalFiles(entries) == []
  {
    hide AsWal;
    if entries != [] {
      ForeignEntries(entries[1..]);
      assert entries[0] in entries;
    }
  }

  function KeyByStart(fs: seq<WalFile>): (r: seq<Keyed<WalFile>>)
    ensures |r| == |fs|
    ensures forall i :: 0 <= i < |fs| ==> r[i] == Keyed(fs[i].start, fs[i])
  {
    seq(|fs|, i requires 0 <= i < |fs| => Keyed(fs[i].start, fs[i]))
  }

  function Values<T>(s: seq<Keyed<T>>): (r: seq<T>)
    ensures |r| == |s|
    ensures forall i :: 0 <= i < |s| ==> r[i] == s[i].value
  {
    seq(|s|, i requires 0 <= i < |s| => s[i].value)
  }

  /** `sort_by_key` on the start offset. */
  function ByStart(fs: seq<WalFile>): seq<WalFile> {
    Values(Sort(KeyByStart(fs)))
  }

  function Size(fs: seq<WalFile>): nat {
    if fs == [] then 0 else fs[0].size + Size(fs[1..])
  }

  lemma {:induction false} SizeConcat(a: seq<WalFile>, b: seq<WalFile>)
    ensures Size(a + b) == Size(a) + Size(b)
  {
    if a == [] {
      assert a + b == b;
    } else {
      assert (a + b)[1..] == a[1..] + b;
      SizeConcat(a[1..], b);
    }
  }

  // ---------------------------------------------------------------- the two passes

  /** The files the first pass leaves to the second. */
  function Uncommitted(fs: seq<WalFile>, committed: nat): seq<WalFile> {
    if fs == [] then []
    else (if fs[0].End() > committed then [fs[0]] else []) + Uncommitted(fs[1..], committed)
  }

  /** The files the first pass tried and failed to delete. `stuck` names the files that cannot be deleted. */
  function StuckCommitted(fs: seq<WalFile>, committed: nat, stuck: set<string>): seq<WalFile> {
    if fs == [] then []
    else (if fs[0].End() <= committed && fs[0].name in stuck then [fs[0]] else []) +
         StuckCommitted(fs[1..], committed, stuck)
  }

  /** What the second pass leaves of its files, when `total` bytes are present. */
  function SecondPass(fs: seq<WalFile>, total: nat, maxBytes: nat, stuck: set<string>): seq<WalFile> {
    if fs == [] || total <= maxBytes then fs
    else if fs[0].name in stuck then [fs[0]] + SecondPass(fs[1..], total, maxBytes, stuck)
    else SecondPass(fs[1..], Saturate(total - fs[0].size), maxBytes, stuck)
  }

  /** `saturating_sub`, on the difference. */
  function Saturate(n: int): nat {
    if n < 0 then 0 else n
  }

  /** The files left in the directory: stuck committed ones, and those the second pass leaves. */
  function Survivors(fs: seq<WalFile>, committed: nat, maxBytes: nat, stuck: set<string>)
    : (seq<WalFile>, seq<WalFile>)
  {
    var kept, rest := StuckCommitted(fs, committed, stuck), Uncommitted(fs, committed);
    (kept, SecondPass(rest, Size(kept) + Size(rest), maxBytes, stuck))
  }

  /** The two passes. `total` is always the size of the files still present. */
  method CleanupWals(entries: Option<seq<DirEntry>>, committed: nat, maxBytes: nat, stuck: set<string>)
    returns (kept: seq<WalFile>, left: seq<WalFile>, total: nat)
    ensures entries.Some? ==>
              var s := Survivors(ByStart(WalFiles(entries.value)), committed, maxBytes, stuck);
              kept == s.0 && left == s.1
    ensures entries.None? ==> kept == left == []
    ensures total == Size(kept) + Size(left)
  {
    hide Uncommitted, StuckCommitted, SecondPass, Size, ByStart;
    NoFiles(0, committed, maxBytes, stuck);
    if entries.None? {
      return [], [], 0;
    }
    var walFiles := ByStart(WalFiles(entries.value));
    total := Size(walFiles);
    var remaining: seq<WalFile> := [];
    kept := [];
    assert walFiles[0..] == walFiles;
    for i := 0 to |walFiles|
      invariant StuckCommitted(walFiles, committed, stuck) == kept + StuckCommitted(walFiles[i..], committed, stuck)
      invariant Uncommitted(walFiles, committed) == remaining + Uncommitted(walFiles[i..], committed)
      invariant total == Size(kept) + Size(remaining) + Size(walFiles[i..])
    {
      var f := walFiles[i];
      FirstPassStep(walFiles, i, committed, stuck);
      SizeOfOneMore(kept, f);
      SizeOfOneMore(remaining, f);
      if f.End() <= committed {
        if f.name in stuck {
          kept := kept + [f];
        } else {
          total := Saturate(total - f.size);
        }
      } else {
        remaining := remaining + [f];
      }
    }
    assert walFiles[|walFiles|..] == [];
    assert kept == StuckCommitted(walFiles, committed, stuck) && remaining == Uncommitted(walFiles, committed);
    left, total := EmergencyPass(remaining, total, Size(kept), maxBytes, stuck);
  }

  /** The second pass, over `remaining`, with `others` further bytes in the directory. */
  method EmergencyPass(remaining: seq<WalFile>, present: nat, ghost others: nat, maxBytes: nat, stuck: set<string>)
    returns (left: seq<WalFile>, total: nat)
    requires present == others + Size(remaining)
    ensures left == SecondPass(remaining, present, maxBytes, stuck)
    ensures total == others + Size(left)
  {
    hide SecondPass, Size;
    total := present;
    left := [];
    NoFiles(total, 0, maxBytes, stuck);
    assert remaining[0..] == remaining;
    for j := 0 to |remaining|
      invariant SecondPass(remaining, present, maxBytes, stuck) ==
                left + SecondPass(remaining[j..], total, maxBytes, stuck)
      invariant total == others + Size(left) + Size(remaining[j..])
    {
      var f := remaining[j];
      SecondPassStep(remaining, j, total, maxBytes, stuck);
      if total <= maxBytes {
        SizeConcat(left, remaining[j..]);
        return left + remaining[j..], total;
      }
      if f.name in stuck {
        SizeOfOneMore(left, f);
        left := left + [f];
      } else {
        total := Saturate(total - f.size);
      }
    }
    assert remaining[|remaining|..] == [];
    NoFiles(total, 0, maxBytes, stuck);
  }

  lemma NoFiles(total: nat, committed: nat, maxBytes: nat, stuck: set<string>)
    ensures Size([]) == 0 && Uncommitted([], committed) == [] && StuckCommitted([], committed, stuck) == []
    ensures SecondPass([], total, maxBytes, stuck) == []
  {
  }

  lemma {:induction false} UncommittedMembers(fs: seq<WalFile>, committed: nat, w: WalFile)
    ensures w in Uncommitted(fs, committed) <==> w in fs && w.End() > committed
  {
    if fs != [] {
      UncommittedMembers(fs[1..], committed, w);
      assert fs == [fs[0]] + fs[1..];
    }
  }

  lemma {:induction false} SecondPassMembers(fs: seq<WalFile>, total: nat, maxBytes: nat, stuck: set<string>,
                                             w: WalFile)
    ensures w in SecondPass(fs, total, maxBytes, stuck) ==> w in fs
  {
    if fs != [] && total > maxBytes {
      var total' := if fs[0].name in stuck then total else Saturate(total - fs[0].size);
      SecondPassMembers(fs[1..], total', maxBytes, stuck, w);
      assert fs == [fs[0]] + fs[1..];
    }
  }

  lemma SizeOfOneMore(fs: seq<WalFile>, f: WalFile)
    ensures Size(fs + [f]) == Size(fs) + f.size
  {
    SizeConcat(fs, [f]);
    assert [f][1..] == [];
  }

  lemma FirstPassStep(fs: seq<WalFile>, i: nat, committed: nat, stuck: set<string>)
    requires i < |fs|
    ensures var f, before, after := fs[i], fs[i..], fs[i + 1..];
            && Size(before) == f.size + Size(after)
            && Uncommitted(before, committed) ==
               (if f.End() > committed then [f] else []) + Uncommitted(after, committed)
            && StuckCommitted(before, committed, stuck) ==
               (if f.End() <= committed && f.name in stuck then [f] else []) + StuckCommitted(after, committed, stuck)
  {
    assert fs[i..][1..] == fs[i + 1..];
  }

  lemma SecondPassStep(fs: seq<WalFile>, i: nat, total: nat, maxBytes: nat, stuck: set<string>)
    requires i < |fs|
    ensures var f, before, after := fs[i], fs[i..], fs[i + 1..];
            && Size(before) == f.size + Size(after)
            && SecondPass(before, total, maxBytes, stuck) ==
               if total <= maxBytes then before
               else if f.name in stuck then [f] + SecondPass(after, total, maxBytes, stuck)
               else SecondPass(after, Saturate(total - f.size), maxBytes, stuck)
  {
    assert fs[i..][1..] == fs[i + 1..];
  }

  // ---------------------------------------------------------------- what the second pass achieves

  /**
   With no failing deletion the second pass leaves the longest suffix, in start order, that fits the limit: it fits, and
   keeping any earlier file as well would not.
   */
  lemma {:induction false} LongestFittingSuffix(fs: seq<WalFile>, maxBytes: nat) returns (k: nat)
    ensures k <= |fs| && SecondPass(fs, Size(fs), maxBytes, {}) == fs[k..]
    ensures Size(fs[k..]) <= maxBytes
    ensures forall j :: 0 <= j < k ==> Size(fs[j..]) > maxBytes
  {
    hide Size, SecondPass;
    NoFiles(0, 0, maxBytes, {});
    assert fs[0..] == fs;
    if fs == [] {
      k := 0;
    } else {
      SecondPassStep(fs, 0, Size(fs), maxBytes, {});
      if Size(fs) <= maxBytes {
        k := 0;
      } else {
        var k' := LongestFittingSuffix(fs[1..], maxBytes);
        k := k' + 1;
        Tail(fs, k');
        forall j | 0 <= j < k
          ensures Size(fs[j..]) > maxBytes
        {
          if j > 0 {
            Tail(fs, j - 1);
          }
        }
      }
    }
  }

  lemma Tail<T>(s: seq<T>, j: nat)
    requires j < |s|
    ensures s[1..][j..] == s[j + 1..]
  {
  }

  /** With failing deletions, either the limit is met or every uncommitted file was tried and could not be deleted. */
  lemma {:induction false} FitsOrAllTried(fs: seq<WalFile>, others: nat, maxBytes: nat, stuck: set<string>)
    ensures var left := SecondPass(fs, others + Size(fs), maxBytes, stuck);
            others + Size(left) <= maxBytes || forall f <- left :: f.name in stuck
  {
    if fs != [] && others + Size(fs) > maxBytes {
      if fs[0].name in stuck {
        FitsOrAllTried(fs[1..], others + fs[0].size, maxBytes, stuck);
      } else {
        FitsOrAllTried(fs[1..], others, maxBytes, stuck);
      }
    }
  }

  /** The files of a list that cannot be deleted. */
  function Stuck(fs: seq<WalFile>, stuck: set<string>): seq<WalFile> {
    if fs == [] then [] else (if fs[0].name in stuck then [fs[0]] else []) + Stuck(fs[1..], stuck)
  }

  /**
   Which files survive the second pass, exactly: those that cannot be deleted, and those that fit the limit together
   with all newer ones and everything else that cannot be deleted.
   */
  lemma {:induction false} FileSurvivesIff(before: seq<WalFile>, w: WalFile, after: seq<WalFile>, others: nat,
                                           maxBytes: nat, stuck: set<string>)
    requires w !in before && w !in after
    ensures var fs := before + [w] + after;
            w in SecondPass(fs, others + Size(fs), maxBytes, stuck) <==>
            w.name in stuck || others + Size(Stuck(before, stuck)) + w.size + Size(after) <= maxBytes
  {
    hide SecondPass, Size, Stuck;
    var fs := before + [w] + after;
    SizeConcat(before + [w], after);
    SizeOfOneMore(before, w);
    SecondPassStep(fs, 0, others + Size(fs), maxBytes, stuck);
    assert fs[0..] == fs;
    StuckStep(before, stuck);
    StuckIsSmaller(before, stuck);
    if before == [] {
      assert fs[1..] == after;
      SecondPassMembers(after, Saturate(others + Size(fs) - w.size), maxBytes, stuck, w);
    } else {
      var f, rest := before[0], before[1..];
      assert fs[1..] == rest + [w] + after;
      SizeConcat(rest + [w], after);
      SizeOfOneMore(rest, w);
      FileSurvivesIff(rest, w, after, if f.name in stuck then others + f.size else others, maxBytes, stuck);
    }
  }

  lemma StuckStep(fs: seq<WalFile>, stuck: set<string>)
    ensures fs == [] ==> Stuck(fs, stuck) == [] && Size(Stuck(fs, stuck)) == 0
    ensures fs != [] ==>
              && Size(fs) == fs[0].size + Size(fs[1..])
              && Size(Stuck(fs, stuck)) == (if fs[0].name in stuck then fs[0].size else 0) + Size(Stuck(fs[1..], stuck))
  {
    hide Size;
    NoFiles(0, 0, 0, stuck);
    if fs != [] {
      var f, more := fs[0], Stuck(fs[1..], stuck);
      SizeOfFirst(f, more);
      SizeOfFirst(f, fs[1..]);
      assert fs == [f] + fs[1..];
      assert [] + more == more;
    }
  }

  lemma SizeOfFirst(f: WalFile, fs: seq<WalFile>)
    ensures Size([f] + fs) == f.size + Size(fs)
  {
    assert ([f] + fs)[1..] == fs;
  }

  lemma {:induction false} StuckIsSmaller(fs: seq<WalFile>, stuck: set<string>)
    ensures Size(Stuck(fs, stuck)) <= Size(fs)
  {
    hide Size, Stuck;
    StuckStep(fs, stuck);
    if fs != [] {
      StuckIsSmaller(fs[1..], stuck);
    }
  }

  lemma {:induction false} UncommittedConcat(a: seq<WalFile>, b: seq<WalFile>, committed: nat)
    ensures Uncommitted(a + b, committed) == Uncommitted(a, committed) + Uncommitted(b, committed)
  {
    if a == [] {
      assert a + b == b;
    } else {
      assert (a + b)[1..] == a[1..] + b;
      UncommittedConcat(a[1..], b, committed);
    }
  }

  /** The directory order does not matter: files with distinct starts are always processed in start order. */
  lemma DirectoryOrderIrrelevant(fs: seq<WalFile>, inOrder: seq<WalFile>)
    requires multiset(fs) == multiset(inOrder)
    requires forall i, j :: 0 <= i < j < |inOrder| ==> inOrder[i].start < inOrder[j].start
    ensures ByStart(fs) == inOrder
  {
    KeysPermute(fs, inOrder);
    SortOfPermutation(KeyByStart(fs), KeyByStart(inOrder));
    assert Values(KeyByStart(inOrder)) == inOrder;
  }

  lemma KeysPermute(fs: seq<WalFile>, gs: seq<WalFile>)
    requires multiset(fs) == multiset(gs)
    ensures multiset(KeyByStart(fs)) == multiset(KeyByStart(gs))
  {
    forall x: Keyed<WalFile>
      ensures multiset(KeyByStart(fs))[x] == multiset(KeyByStart(gs))[x]
    {
      KeyCount(fs, x);
      KeyCount(gs, x);
    }
  }

  lemma CountFirst<T>(first: T, rest: seq<T>, x: T)
    ensures multiset([first] + rest)[x] == (if first == x then 1 else 0) + multiset(rest)[x]
  {
    assert multiset([first] + rest) == multiset{first} + multiset(rest);
  }

  lemma KeysOfFirst(f: WalFile, rest: seq<WalFile>)
    ensures KeyByStart([]) == [] && KeyByStart([f] + rest) == [Keyed(f.start, f)] + KeyByStart(rest)
  {
  }

  lemma {:induction false} KeyCount(fs: seq<WalFile>, x: Keyed<WalFile>)
    ensures multiset(KeyByStart(fs))[x] == if x.key == x.value.start then multiset(fs)[x.value] else 0
  {
    hide KeyByStart;
    KeysOfFirst(x.value, []);
    if fs != [] {
      var f, rest := fs[0], fs[1..];
      assert fs == [f] + rest;
      KeysOfFirst(f, rest);
      KeyCount(rest, x);
      CountFirst(f, rest, x.value);
      CountFirst(Keyed(f.start, f), KeyByStart(rest), x);
    }
  }

  // ---------------------------------------------------------------- tiled logs

  predicate TiledFiles(fs: seq<WalFile>) {
    forall i :: 0 < i < |fs| ==> fs[i].start == fs[i - 1].End()
  }

  /** The first pass over tiled files leaves a suffix of them, from the first file that reaches past the offset. */
  lemma {:induction false} FirstPassLeavesSuffix(fs: seq<WalFile>, committed: nat) returns (k: nat)
    requires TiledFiles(fs)
    ensures k <= |fs| && Uncommitted(fs, committed) == fs[k..]
    ensures forall i :: 0 <= i < |fs| ==> (i < k <==> fs[i].End() <= committed)
  {
    hide Uncommitted;
    NoFiles(0, committed, 0, {});
    assert fs[0..] == fs;
    if fs == [] {
      k := 0;
    } else {
      FirstPassStep(fs, 0, committed, {});
      if fs[0].End() <= committed {
        var k' := FirstPassLeavesSuffix(fs[1..], committed);
        k := k' + 1;
        Tail(fs, k');
      } else {
        k := 0;
        EndsGrow(fs);
        AllUncommitted(fs, committed);
      }
    }
  }

  lemma {:induction false} AllUncommitted(fs: seq<WalFile>, committed: nat)
    requires forall i :: 0 <= i < |fs| ==> fs[i].End() > committed
    ensures Uncommitted(fs, committed) == fs == fs[0..]
  {
    if fs != [] {
      AllUncommitted(fs[1..], committed);
      assert fs == [fs[0]] + fs[1..];
    }
  }

  lemma {:induction false} EndsGrow(fs: seq<WalFile>)
    requires TiledFiles(fs) && fs != []
    ensures forall i :: 0 <= i < |fs| ==> fs[0].End() <= fs[i].End()
  {
    if |fs| > 1 {
      EndsGrow(fs[1..]);
      assert forall i :: 0 < i < |fs| ==> fs[i] == fs[1..][i - 1];
    }
  }

  /**
   Pruning tiled files without failing deletions leaves a contiguous, still tiled suffix. Every deleted file ends at or
   below the committed offset, unless even the uncommitted files exceed the limit.
   */
  lemma PruningKeepsSuffix(fs: seq<WalFile>, committed: nat, maxBytes: nat) returns (k: nat)
    requires TiledFiles(fs)
    ensures k <= |fs| && Survivors(fs, committed, maxBytes, {}) == ([], fs[k..]) && TiledFiles(fs[k..])
    ensures Size(fs[k..]) <= maxBytes
    ensures Size(Uncommitted(fs, committed)) <= maxBytes ==>
              forall i :: 0 <= i < |fs| ==> (i < k <==> fs[i].End() <= committed)
  {
    hide Size, Uncommitted, SecondPass, StuckCommitted;
    NoFiles(0, committed, maxBytes, {});
    NothingStuck(fs, committed);
    var k1 := FirstPassLeavesSuffix(fs, committed);
    var rest := fs[k1..];
    var k2 := LongestFittingSuffix(rest, maxBytes);
    k := k1 + k2;
    assert rest[k2..] == fs[k..];
    assert rest[0..] == rest;
  }

  lemma {:induction false} NothingStuck(fs: seq<WalFile>, committed: nat)
    ensures StuckCommitted(fs, committed, {}) == []
  {
    if fs != [] {
      NothingStuck(fs[1..], committed);
    }
  }
}
