/** Runs: any sequence of creating, growing, appending to and removing files on one volume. */
module FatRun {
  import opened Sequences
  import opened FatTable
  import opened FatClusters
  import opened FatAlloc
  import FatChains

  /** A file is named by its place in the list of files; a place past the end names none. */
  datatype Op = Create | Grow(file: nat, clusters: nat) | Append(file: nat) | Remove(file: nat)

  /**
   * The files' first clusters, the table, and the chains in it; where the root directory begins, and
   * the hint where to search.
   */
  datatype State = State(files: seq<nat>, table: seq<nat>, chains: set<seq<nat>>, root: nat, hint: nat)

  /** What one operation did: a chain before and after, [] standing for none. */
  datatype Change = Change(before: seq<nat>, after: seq<nat>)

  // ----- one step -----

  ghost predicate Starts(cs: set<seq<nat>>, c: nat) {
    exists s :: s in cs && s != [] && s[0] == c
  }

  /** The chains are a sound heap and every file is one of them, each a different one. */
  ghost predicate Sound(a: State) {
    && FatChains.Heap(a.table, a.chains) && Distinct(a.files)
    && forall i :: 0 <= i < |a.files| ==> Starts(a.chains, a.files[i])
  }

  ghost function Replaced(cs: set<seq<nat>>, ch: Change): set<seq<nat>> {
    cs - {ch.before} + if ch.after == [] then {} else {ch.after}
  }

  /** Clusters taken were free, clusters given back are zero, and no entry outside the chain has changed. */
  ghost predicate Step(a: State, ch: Change, b: State) {
    && (ch.before == [] || ch.before in a.chains) && (ch.before <= ch.after || ch.after == [])
    && b.chains == Replaced(a.chains, ch)
    && FatChains.Heap(b.table, b.chains) && |b.table| == |a.table|
    && (forall x :: 0 <= x < |a.table| && x !in ch.before && x !in ch.after ==> b.table[x] == a.table[x])
    && (forall x :: x in ch.after && x !in ch.before ==> x < |a.table| && !FatChains.IsUsed(a.table[x]))
    && (ch.after == [] ==> forall x :: x in ch.before && x < |a.table| ==> b.table[x] == 0)
    && FatChains.Count(b.table, FatChains.IsZero)
       == FatChains.Count(a.table, FatChains.IsZero) + (if ch.after == [] then |ch.before| else 0)
          - ZeroAmong(a.table, Taken(ch))
  }

  /** The clusters put behind the chain. */
  ghost function Taken(ch: Change): seq<nat> {
    if ch.before <= ch.after then ch.after[|ch.before|..] else []
  }

  /** Where a search that is given this cluster begins: 2 stands for the hint. */
  ghost function From(a: State, cluster: nat): nat {
    if cluster == 2 then a.hint else cluster
  }

  /**
   * The change is to the file the operation names, and what is taken is exactly the first free entries:
   * from the root directory's cluster on, or for growing from the chain's last cluster on. Growing alone
   * moves the hint, to the last entry taken.
   */
  ghost predicate Names(op: Op, a: State, ch: Change, b: State) {
    && b.root == a.root
    && b.hint == (if op.Grow? && Taken(ch) != [] then Taken(ch)[|Taken(ch)| - 1] else a.hint)
    && b.files == FilesAfter(op, a.files, ch.after)
    && if op.Create? then
         ch == Change([], FirstFree(a.table, From(a, a.root), 1))
       else if op.file >= |a.files| then
         ch == Change([], [])
       else
         && ch.before != [] && ch.before[0] == a.files[op.file]
         && match op {
              case Grow(_, clusters) =>
                ch.after == ch.before + FirstFree(a.table, From(a, ch.before[|ch.before| - 1]), clusters)
              case Append(_) => ch.after == ch.before + FirstFree(a.table, From(a, a.root), 1)
              case Remove(_) => ch.after == []
            }
  }

  ghost function FilesAfter(op: Op, files: seq<nat>, after: seq<nat>): seq<nat> {
    match op
    case Create => files + after
    case Grow(_, _) => files
    case Append(_) => files
    case Remove(file) => if file < |files| then files[..file] + files[file + 1..] else files
  }

  ghost predicate Does(op: Op, a: State, ch: Change, b: State) {
    Step(a, ch, b) && Names(op, a, ch, b) && Sound(b)
  }

  // ----- what the operations do is a step -----

  lemma NoEmptyChain(t: seq<nat>, cs: set<seq<nat>>)
    requires FatChains.Heap(t, cs)
    ensures [] !in cs
  {
  }

  lemma StepNone(a: State)
    requires Sound(a)
    ensures Step(a, Change([], []), a)
  {
    NoEmptyChain(a.table, a.chains);
    assert a.chains - {[]} + {} == a.chains;
  }

  lemma StepGrown(a: State, s: seq<nat>, more: seq<nat>, u: seq<nat>)
    requires Sound(a) && s in a.chains && Grown(a.table, a.chains, s, more, u)
    ensures forall hint :: var b := State(a.files, u, a.chains - {s} + {s + more}, a.root, hint);
              Step(a, Change(s, s + more), b) && Sound(b)
  {
    hide FatChains.Heap, FatChains.Count, FatChains.IsUsed, ZeroAmong;
    assert (s + more)[|s|..] == more && s[|s| - 1] in s;
    var ds := a.chains - {s} + {s + more};
    forall i | 0 <= i < |a.files| ensures Starts(ds, a.files[i]) {
      assert Starts(a.chains, a.files[i]);
      var q :| q in a.chains && q != [] && q[0] == a.files[i];
      if q == s { assert (s + more)[0] == s[0] && s + more in ds; } else { assert q in ds; }
    }
  }

  lemma StepStarted(a: State, n: nat, u: seq<nat>)
    requires Sound(a) && Started(a.table, a.chains, n, u)
    ensures var b := State(a.files + [n], u, a.chains + {[n]}, a.root, a.hint);
            Step(a, Change([], [n]), b) && Sound(b)
  {
    NoEmptyChain(a.table, a.chains);
    var ds := a.chains + {[n]};
    assert [n][0..] == [n] && a.chains - {[]} == a.chains;
    FatChains.FreeNotOwned(a.table, a.chains, n);
    hide FatChains.Heap, FatChains.Count, FatChains.IsUsed, ZeroAmong;
    assert [n] in ds && [n][0] == n;
    forall i | 0 <= i < |a.files| ensures Starts(ds, a.files[i]) && a.files[i] != n {
      assert Starts(a.chains, a.files[i]);
      var q :| q in a.chains && q != [] && q[0] == a.files[i];
      assert q in ds && q[0] in q;
    }
  }

  lemma StepFreed(a: State, file: nat, s: seq<nat>, u: seq<nat>)
    requires Sound(a) && file < |a.files| && s in a.chains && s != [] && s[0] == a.files[file]
    requires FreedFrom(a.table, s[0], u)
    ensures var b := State(a.files[..file] + a.files[file + 1..], u, a.chains - {s}, a.root, a.hint);
            Step(a, Change(s, []), b) && Sound(b)
  {
    hide FatChains.Heap, FatChains.Count, FatChains.IsUsed, FatChains.Reaches, ZeroAmong;
    FreeChain(a.table, a.chains, s, u);
    FreedZero(a.table, a.chains, s, u);
    var left, ds := a.files[..file] + a.files[file + 1..], a.chains - {s};
    forall i | 0 <= i < |left| ensures Starts(ds, left[i]) {
      var j := if i < file then i else i + 1;
      assert left[i] == a.files[j] != a.files[file];
      assert Starts(a.chains, a.files[j]);
      var q :| q in a.chains && q != [] && q[0] == a.files[j];
      assert q in ds;
    }
    assert forall i, j :: 0 <= i < j < |left| ==> left[i] != left[j];
  }

  lemma FreedZero(t: seq<nat>, cs: set<seq<nat>>, s: seq<nat>, u: seq<nat>)
    requires FatChains.Heap(t, cs) && s in cs && s != [] && FreedFrom(t, s[0], u)
    ensures forall x :: x in s && x < |t| ==> u[x] == 0
  {
    FatChains.HeapHas(t, cs, s);
    hide FatChains.Heap, FatChains.Chain, FatChains.Reaches;
    forall x | x in s && x < |t| ensures u[x] == 0 {
      FatChains.ReachesChain(t, s, x);
      FatChains.ChainUsed(t, s, s[0]);
      ChainStart(t, s);
    }
  }

  lemma ChainStart(t: seq<nat>, s: seq<nat>)
    requires FatChains.Chain(t, s) && |t| <= FatChains.END_MARK
    ensures s != [] && 2 <= s[0] < |t| && !FatChains.Terminal(s[0])
  {
  }

  // ----- the operations -----

  /** The chain that begins with this file's first cluster. */
  ghost function ChainOf(a: State, file: nat): (s: seq<nat>)
    requires Sound(a) && file < |a.files|
    ensures s in a.chains && s != [] && s[0] == a.files[file]
  {
    assert Starts(a.chains, a.files[file]);
    var s :| s in a.chains && s != [] && s[0] == a.files[file];
    s
  }

  /** Follows the links to the last cluster. */
  method LastCluster(fs: Fatfs, start: nat, ghost cs: set<seq<nat>>, ghost s: seq<nat>) returns (last: nat)
    requires Working(fs) && FatChains.Heap(fs.Table(), cs) && s in cs && s != [] && s[0] == start
    modifies fs`fatBufferHead, fs`list, fs.media, fs.buffers
    ensures Working(fs) && last == s[|s| - 1]
  {
    hide Fatfs.Valid, Fatfs.Table, FatChains.Heap, FatChains.Link, FatChains.Chain;
    FatChains.HeapHas(fs.Table(), cs, s);
    var next := start;
    last := start;
    ghost var i := 0;
    while next != FatChains.LAST
      invariant Working(fs) && 0 <= i <= |s| && FatChains.Chain(fs.Table(), s)
      invariant next == if i < |s| then s[i] else FatChains.LAST
      invariant i > 0 ==> last == s[i - 1]
      decreases |s| - i
    {
      assert i < |s|;
      ChainLink(fs.Table(), s, i);
      last := next;
      next := FindNextCluster(fs, next);
      i := i + 1;
    }
  }

  lemma ChainLink(t: seq<nat>, s: seq<nat>, i: nat)
    requires FatChains.Chain(t, s) && i < |s|
    ensures 2 <= s[i] < |t| && FatChains.Link(t, s[i]) == FatChains.Succ(s, i)
  {
  }

  ghost predicate Holds(fs: Fatfs, a: State)
    reads fs`fatBufferHead, fs`list, fs`logical, fs.buffers, fs.media
    ensures Holds(fs, a) ==> fs.Sized()
  {
    && Working(fs) && Sound(a) && fs.Table() == a.table && fs.sectorsPerCluster > 0
    && fs.rootdirFirstCluster == a.root && Hint(fs) == a.hint
  }

  method DoCreate(fs: Fatfs, files: seq<nat>, ghost a: State) returns (now: seq<nat>, ghost ch: Change, ghost b: State)
    requires Holds(fs, a) && files == a.files
    modifies fs`fatBufferHead, fs`list, fs`logical, fs`nextFreeCluster, fs.media, fs.buffers
    ensures Holds(fs, b) && now == b.files && Does(Create, a, ch, b)
  {
    hide Fatfs.Valid, Fatfs.Table, FatChains.Heap, Step, Sound;
    SoundHeap(a);
    StepNone(a);
    var ok, n;
    ghost var more;
    ok, n, more := AllocateFreeSpace(fs, true, 0, 1, a.chains, []);
    if ok {
      StepStarted(a, n, fs.Table());
      return files + [n], Change([], [n]), State(a.files + [n], fs.Table(), a.chains + {[n]}, a.root, a.hint);
    }
    assert a.files + [] == a.files;
    return files, Change([], []), a;
  }

  lemma SoundHeap(a: State)
    requires Sound(a)
    ensures FatChains.Heap(a.table, a.chains)
  {
  }

  method DoGrow(fs: Fatfs, file: nat, start: nat, clusters: nat, ghost a: State)
    returns (ghost ch: Change, ghost b: State)
    requires Holds(fs, a) && file < |a.files| && start == a.files[file]
    modifies fs`fatBufferHead, fs`list, fs`logical, fs`nextFreeCluster, fs.media, fs.buffers
    ensures Holds(fs, b) && Does(Grow(file, clusters), a, ch, b)
  {
    hide Fatfs.Valid, Fatfs.Table, FatChains.Heap, FatChains.IsUsed, FatChains.FreeIn, Grown, FirstFree, Step, Sound;
    ghost var s := ChainOf(a, file);
    SoundHeap(a);
    var last := LastCluster(fs, start, a.chains, s);
    ghost var more;
    var _, _, more' := AddFreeSpace(fs, last, clusters, a.chains, s);
    more := more';
    StepGrown(a, s, more, fs.Table());
    ch, b := Change(s, s + more), State(a.files, fs.Table(), a.chains - {s} + {s + more}, a.root, Hint(fs));
  }

  method DoAppend(fs: Fatfs, file: nat, start: nat, ghost a: State) returns (ghost ch: Change, ghost b: State)
    requires Holds(fs, a) && file < |a.files| && start == a.files[file]
    modifies fs`fatBufferHead, fs`list, fs`logical, fs.media, fs.buffers
    ensures Holds(fs, b) && Does(Append(file), a, ch, b)
  {
    hide Fatfs.Valid, Fatfs.Table, FatChains.Heap, FatChains.IsUsed, FirstFree, Step, Sound;
    ghost var s := ChainOf(a, file);
    SoundHeap(a);
    var found, n := FindBlankCluster(fs, fs.rootdirFirstCluster);
    assert fs.Table() == a.table;
    if !found {
      FirstIsNone(a.table, From(a, a.root));
      GrownNone(a.table, a.chains, s);
      StepGrown(a, s, [], a.table);
      assert s + [] == s && a.chains - {s} + {s} == a.chains;
      return Change(s, s), a;
    }
    FirstIs(a.table, From(a, a.root), n);
    WholePath(a.table, a.chains, s);
    GrownOne(a.table, a.chains, s, n);
    StepGrown(a, s, [n], FatChains.Extended(a.table, s, n));
    var _ := AddClusterToChain(fs, start, n, s);
    ch, b := Change(s, s + [n]), State(a.files, fs.Table(), a.chains - {s} + {s + [n]}, a.root, a.hint);
  }

  lemma WholePath(t: seq<nat>, cs: set<seq<nat>>, s: seq<nat>)
    requires FatChains.Heap(t, cs) && s in cs
    ensures s != [] && FatChains.Path(t, s) && 2 <= s[0] < FatChains.LAST && s[|s| - 1] < |t|
    ensures FatChains.Link(t, s[|s| - 1]) == FatChains.LAST
  {
    FatChains.HeapHas(t, cs, s);
    hide FatChains.Heap;
    FatChains.ChainPrefixPath(t, s, |s| - 1);
    assert s[..|s|] == s;
    ChainLink(t, s, |s| - 1);
    ChainLink(t, s, 0);
  }

  method DoRemove(fs: Fatfs, file: nat, files: seq<nat>, ghost a: State)
    returns (now: seq<nat>, ghost ch: Change, ghost b: State)
    requires Holds(fs, a) && files == a.files && file < |files|
    modifies fs`fatBufferHead, fs`list, fs`logical, fs.media, fs.buffers
    ensures Holds(fs, b) && now == b.files && Does(Remove(file), a, ch, b)
  {
    hide Fatfs.Valid, Fatfs.Table, FatChains.Heap, FreedFrom, Step, Sound;
    ghost var s := ChainOf(a, file);
    SoundHeap(a);
    WholePath(a.table, a.chains, s);
    ChainInside(a.table, a.chains, s);
    FreeClusterChain(fs, files[file]);
    StepFreed(a, file, s, fs.Table());
    now := files[..file] + files[file + 1..];
    ch, b := Change(s, []), State(now, fs.Table(), a.chains - {s}, a.root, a.hint);
  }

  lemma ChainInside(t: seq<nat>, cs: set<seq<nat>>, s: seq<nat>)
    requires FatChains.Heap(t, cs) && s in cs && s != []
    ensures s[0] < |t| && FatChains.InRange(t, s[0])
  {
    FatChains.HeapHas(t, cs, s);
    FatChains.HeapInRange(t, cs, s);
  }

  /** One operation on the volume. */
  method Do(fs: Fatfs, op: Op, files: seq<nat>, ghost a: State)
    returns (now: seq<nat>, ghost ch: Change, ghost b: State)
    requires Holds(fs, a) && files == a.files
    modifies fs`fatBufferHead, fs`list, fs`logical, fs`nextFreeCluster, fs.media, fs.buffers
    ensures Holds(fs, b) && now == b.files && Does(op, a, ch, b)
  {
    hide Working, Sound, Step;
    now, ch, b := files, Change([], []), a;
    HoldsSound(fs, a);
    StepNone(a);
    match op {
      case Create =>
        now, ch, b := DoCreate(fs, files, a);
      case Grow(file, clusters) =>
        if file < |files| { ch, b := DoGrow(fs, file, files[file], clusters, a); }
      case Append(file) =>
        if file < |files| { ch, b := DoAppend(fs, file, files[file], a); }
      case Remove(file) =>
        if file < |files| { now, ch, b := DoRemove(fs, file, files, a); }
    }
  }

  lemma HoldsSound(fs: Fatfs, a: State)
    requires Holds(fs, a)
    ensures Sound(a)
  {
  }

  // ----- whole runs -----

  /** States and the changes between them, one for each operation. */
  ghost predicate Ran(ops: seq<Op>, states: seq<State>, changes: seq<Change>) {
    && |changes| == |ops| && |states| == |ops| + 1
    && forall i :: 0 <= i < |ops| ==> Does(ops[i], states[i], changes[i], states[i + 1])
  }

  /**
   * Any operations in any order: after each of them the chains are disjoint, acyclic and terminated,
   * only the chain it names has changed, and the count of zero words has moved by what it took or gave.
   */
  method Run(fs: Fatfs, ops: seq<Op>, files: seq<nat>, ghost a: State)
    returns (now: seq<nat>, ghost states: seq<State>, ghost changes: seq<Change>)
    requires Holds(fs, a) && files == a.files
    modifies fs`fatBufferHead, fs`list, fs`logical, fs`nextFreeCluster, fs.media, fs.buffers
    ensures Ran(ops, states, changes) && states[0] == a && states[|ops|].files == now && Holds(fs, states[|ops|])
  {
    hide Holds, Does;
    now, states, changes := files, [a], [];
    var i := 0;
    while i < |ops|
      invariant 0 <= i <= |ops| && |states| == i + 1 && |changes| == i && states[0] == a
      invariant states[i].files == now && Holds(fs, states[i])
      invariant forall k :: 0 <= k < i ==> Does(ops[k], states[k], changes[k], states[k + 1])
    {
      ghost var ch, b;
      now, ch, b := Do(fs, ops[i], now, states[i]);
      states, changes := states + [b], changes + [ch];
      i := i + 1;
    }
  }

  lemma RanStep(ops: seq<Op>, states: seq<State>, changes: seq<Change>, i: nat)
    requires Ran(ops, states, changes) && i < |ops|
    ensures Step(states[i], changes[i], states[i + 1]) && Sound(states[i + 1])
    ensures |states[i + 1].table| == |states[i].table|
  {
    hide Sound, FatChains.Heap, FatChains.Count, FatChains.IsUsed, ZeroAmong;
    assert Does(ops[i], states[i], changes[i], states[i + 1]);
  }

  lemma {:induction false} RunSound(ops: seq<Op>, states: seq<State>, changes: seq<Change>, i: nat)
    requires Ran(ops, states, changes) && Sound(states[0]) && i <= |ops|
    ensures Sound(states[i]) && |states[i].table| == |states[0].table|
  {
    hide Does, Step, Sound;
    if i > 0 {
      RunSound(ops, states, changes, i - 1);
      RanStep(ops, states, changes, i - 1);
    }
  }

  /** A chain no operation changed is there at the end, entry by entry. */
  lemma {:induction false} RunSpares(ops: seq<Op>, states: seq<State>, changes: seq<Change>, s: seq<nat>, i: nat)
    requires Ran(ops, states, changes) && Sound(states[0]) && i <= |ops| && s in states[0].chains
    requires forall k :: 0 <= k < |changes| ==> changes[k].before != s
    ensures s in states[i].chains && |states[i].table| == |states[0].table|
    ensures forall x :: x in s ==> x < |states[0].table| && states[i].table[x] == states[0].table[x]
  {
    hide Does, Step, Sound;
    if i == 0 {
      ChainsInside(states[0], s);
    } else {
      RunSpares(ops, states, changes, s, i - 1);
      RunSound(ops, states, changes, i - 1);
      RanStep(ops, states, changes, i - 1);
      StepSpares(states[i - 1], changes[i - 1], states[i], s);
    }
  }

  lemma ChainsInside(a: State, s: seq<nat>)
    requires Sound(a) && s in a.chains
    ensures forall x :: x in s ==> x < |a.table|
  {
    FatChains.HeapHas(a.table, a.chains, s);
    hide Sound, FatChains.Heap, FatChains.Chain;
    forall x | x in s ensures x < |a.table| { FatChains.ChainUsed(a.table, s, x); }
  }

  lemma StepSpares(a: State, ch: Change, b: State, s: seq<nat>)
    requires Sound(a) && Step(a, ch, b) && s in a.chains && ch.before != s
    ensures s in b.chains
    ensures forall x :: x in s && x < |a.table| ==> b.table[x] == a.table[x]
  {
    FatChains.HeapHas(a.table, a.chains, s);
    assert ch.before in a.chains ==> FatChains.Disjoint(s, ch.before);
    hide Sound, FatChains.Heap, FatChains.Chain, FatChains.Count, FatChains.IsUsed, ZeroAmong;
    forall x | x in s && x < |a.table| ensures b.table[x] == a.table[x] {
      FatChains.ChainUsed(a.table, s, x);
    }
  }

  /** In use, but by no file: a bad cluster, or one lost. */
  ghost predicate Foreign(a: State, c: nat) {
    c < |a.table| && FatChains.IsUsed(a.table[c]) && !FatChains.Owned(a.chains, c)
  }

  /** No operation loses a cluster, and none touches one that was bad or lost before. */
  lemma StepKeepsForeign(a: State, ch: Change, b: State, c: nat)
    requires Sound(a) && Step(a, ch, b)
    ensures Foreign(a, c) <==> Foreign(b, c)
    ensures Foreign(a, c) ==> b.table[c] == a.table[c]
  {
    NoEmptyChain(a.table, a.chains);
    assert !FatChains.IsUsed(0);
    hide Sound, FatChains.Heap, FatChains.Count, FatChains.IsUsed, ZeroAmong;
    if c in ch.after {
      assert ch.after in b.chains;
    } else if c in ch.before {
      assert ch.before in a.chains && ch.after == [];
    } else {
      OwnedAfter(a.chains, ch, c);
    }
  }

  lemma OwnedAfter(cs: set<seq<nat>>, ch: Change, c: nat)
    requires c !in ch.before && c !in ch.after
    ensures FatChains.Owned(cs, c) <==> FatChains.Owned(Replaced(cs, ch), c)
  {
    if FatChains.Owned(cs, c) {
      var s :| s in cs && c in s;
      assert s in Replaced(cs, ch);
    }
  }

  /** Over a whole run: the clusters in use by no file are the same all the time, and so are their entries. */
  lemma {:induction false} RunKeepsForeign(ops: seq<Op>, states: seq<State>, changes: seq<Change>, i: nat, c: nat)
    requires Ran(ops, states, changes) && Sound(states[0]) && i <= |ops|
    ensures Foreign(states[i], c) <==> Foreign(states[0], c)
    ensures Foreign(states[0], c) ==> states[i].table[c] == states[0].table[c]
  {
    hide Does, Step, Sound, Foreign;
    if i > 0 {
      RunKeepsForeign(ops, states, changes, i - 1, c);
      RunSound(ops, states, changes, i - 1);
      RanStep(ops, states, changes, i - 1);
      StepKeepsForeign(states[i - 1], changes[i - 1], states[i], c);
    }
  }

  /** No free entry has a bit set outside its link. */
  ghost predicate NoStray(t: seq<nat>) {
    forall c :: 0 <= c < |t| && !FatChains.IsUsed(t[c]) ==> t[c] == 0
  }

  /** Clusters given back less clusters taken. */
  ghost function Returned(changes: seq<Change>): int {
    if changes == [] then 0
    else
      var ch := changes[|changes| - 1];
      Returned(changes[..|changes| - 1]) + |ch.before| - |ch.after|
  }

  /** Without stray bits at the start there are none later, and the count is exact throughout. */
  lemma {:induction false} RunConserves(ops: seq<Op>, states: seq<State>, changes: seq<Change>, i: nat)
    requires Ran(ops, states, changes) && Sound(states[0]) && NoStray(states[0].table) && i <= |ops|
    ensures NoStray(states[i].table)
    ensures FatChains.Count(states[i].table, FatChains.IsZero)
         == FatChains.Count(states[0].table, FatChains.IsZero) + Returned(changes[..i])
  {
    hide Does, Step, Sound, NoStray, FatChains.Count;
    if i > 0 {
      RunConserves(ops, states, changes, i - 1);
      RunSound(ops, states, changes, i - 1);
      assert changes[..i][..i - 1] == changes[..i - 1];
      RanStep(ops, states, changes, i - 1);
      StepConserves(states[i - 1], changes[i - 1], states[i]);
    }
  }

  lemma StepConserves(a: State, ch: Change, b: State)
    requires Sound(a) && Step(a, ch, b) && NoStray(a.table)
    ensures NoStray(b.table)
    ensures FatChains.Count(b.table, FatChains.IsZero)
         == FatChains.Count(a.table, FatChains.IsZero) + |ch.before| - |ch.after|
  {
    hide FatChains.Count, ZeroAmong, FatChains.Heap, FatChains.IsUsed, Sound;
    if ch.after != [] {
      FatChains.HeapHas(b.table, b.chains, ch.after);
      TakenZero(a, ch, b);
    }
    forall c | 0 <= c < |b.table| && !FatChains.IsUsed(b.table[c]) ensures b.table[c] == 0 {
      if c in ch.after { FatChains.ChainUsed(b.table, ch.after, c); }
    }
  }

  lemma TakenZero(a: State, ch: Change, b: State)
    requires Step(a, ch, b) && NoStray(a.table) && ch.after != [] && FatChains.Chain(b.table, ch.after)
    ensures ZeroAmong(a.table, Taken(ch)) == |ch.after| - |ch.before|
  {
    hide *;
    ChainDistinct(b.table, ch.after);
    TakenSize(a, ch, b);
    forall i | 0 <= i < |Taken(ch)| ensures Taken(ch)[i] < |a.table| && a.table[Taken(ch)[i]] == 0 {
      TakenFree(a, ch, b, i);
    }
    AllZero(a.table, Taken(ch));
  }

  lemma ChainDistinct(t: seq<nat>, s: seq<nat>)
    requires FatChains.Chain(t, s)
    ensures Distinct(s)
  {
  }

  lemma TakenSize(a: State, ch: Change, b: State)
    requires Step(a, ch, b) && ch.after != []
    ensures ch.before <= ch.after && |Taken(ch)| == |ch.after| - |ch.before|
  {
    hide FatChains.Heap, FatChains.Count, FatChains.IsUsed, ZeroAmong;
  }

  lemma TakenFree(a: State, ch: Change, b: State, i: nat)
    requires Step(a, ch, b) && NoStray(a.table) && Distinct(ch.after) && ch.after != [] && i < |Taken(ch)|
    ensures Taken(ch)[i] < |a.table| && a.table[Taken(ch)[i]] == 0
  {
    TakenSize(a, ch, b);
    hide FatChains.Heap, FatChains.Count, FatChains.IsUsed, ZeroAmong;
    var x := ch.after[|ch.before| + i];
    assert x in ch.after && x !in ch.before;
  }
}
