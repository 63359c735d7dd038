/** The busy flag: while a file is moved or copied, its locks stay. */
module LockBusy {
  import opened PathNames
  import opened LockTable

  // ---------- Busy files ----------

  function IdSeq(locks: seq<Lock>): (r: seq<int>)
    ensures |r| == |locks| && forall i :: 0 <= i < |r| ==> r[i] == locks[i].id
  {
    seq(|locks|, i requires 0 <= i < |locks| => locks[i].id)
  }

  /** `file` still has the locks `ids`, with newer ones at most in front of them. */
  predicate LockedWith(t: Table, file: string, ids: seq<int>) {
    var i := IndexOfFile(t.nodes, file);
    && i < |t.nodes|
    && |ids| <= |t.nodes[i].locks|
    && IdSeq(t.nodes[i].locks)[|t.nodes[i].locks| - |ids|..] == ids
  }

  predicate Busy(t: Table, file: string) {
    Locked(t, file) && t.nodes[IndexOfFile(t.nodes, file)].busy
  }

  predicate BusyWith(t: Table, file: string, ids: seq<int>) {
    Busy(t, file) && LockedWith(t, file, ids)
  }

  /** The locks of a file, newest first. */
  function LocksOf(t: Table, file: string): seq<int> {
    if Locked(t, file) then IdSeq(t.nodes[IndexOfFile(t.nodes, file)].locks) else []
  }

  /** One of the files is `file`, under one of its names. */
  predicate Names(files: seq<string>, file: string) {
    exists f :: f in files && SamePath(f, file)
  }

  /**
    A MOVE or COPY of the file ends, or fails to begin, or a DELETE of it is carried out: none of them
    asks who has raised the busy flag.
  */
  predicate EndsBusy(t: Table, s: Step, file: string) {
    match s
    case EndMoveCopy(held, gone) => Names(held, file) || Names(gone, file)
    case FailedMoveCopy(src, dst, ids) => MayFail(t, src, dst, ids) && Names([src, dst], file)
    case DeleteFileStep(f, ids) => SamePath(f, file) && CanPerform(t, f, [], ids)
    case _ => false
  }

  /** No step of the run is one of those. */
  predicate NeverEnds(t: Table, steps: seq<Step>, file: string)
    decreases |steps|
  {
    steps == [] || (!EndsBusy(t, steps[0], file) && NeverEnds(Apply(t, steps[0]), steps[1..], file))
  }

  /** The file is busy before and after every step of the run. */
  predicate StaysBusy(t: Table, steps: seq<Step>, file: string)
    decreases |steps|
  {
    Busy(t, file) && (steps == [] || StaysBusy(Apply(t, steps[0]), steps[1..], file))
  }

  /** The names of one file find one node. */
  lemma SameNode(nodes: seq<Node>, f: string, file: string)
    ensures SamePath(f, file) ==> IndexOfFile(nodes, f) == IndexOfFile(nodes, file)
    ensures !SamePath(f, file) && IndexOfFile(nodes, file) < |nodes| ==>
      IndexOfFile(nodes, f) != IndexOfFile(nodes, file)
  {
    hide SamePath;
    var i, k := IndexOfFile(nodes, f), IndexOfFile(nodes, file);
    if SamePath(f, file) {
      SamePathSymmetric(f, file);
      if i < |nodes| {
        SamePathTransitive(nodes[i].name, f, file);
      }
      if k < |nodes| {
        SamePathTransitive(nodes[k].name, file, f);
      }
    } else if i == k < |nodes| {
      SamePathSymmetric(nodes[k].name, f);
      SamePathTransitive(f, nodes[k].name, file);
    }
  }

  /** The first node for a file, before and after a change at i. */
  lemma IndexAfterChange(nodes: seq<Node>, i: nat, n: Node, file: string)
    requires i < |nodes| && n.name == nodes[i].name
    ensures IndexOfFile(nodes[i := n], file) == IndexOfFile(nodes, file)
  {
    var r := nodes[i := n];
    var a, b := IndexOfFile(nodes, file), IndexOfFile(r, file);
    assert a < |nodes| ==> SamePath(r[a].name, file);
    assert b < |r| ==> SamePath(nodes[b].name, file);
  }

  /** A change that leaves a node's flag, and its locks at the end of the list, keeps it busy. */
  lemma BusyByChange(t: Table, i: nat, n: Node, nextId: int, file: string, ids: seq<int>)
    requires i < |t.nodes| && n.name == t.nodes[i].name && BusyWith(t, file, ids)
    requires i == IndexOfFile(t.nodes, file) ==>
      && n.busy
      && |n.locks| >= |t.nodes[i].locks|
      && IdSeq(n.locks)[|n.locks| - |t.nodes[i].locks|..] == IdSeq(t.nodes[i].locks)
    ensures BusyWith(Table(t.nodes[i := n], nextId), file, ids)
  {
    IndexAfterChange(t.nodes, i, n, file);
    var k := IndexOfFile(t.nodes, file);
    if i == k {
      var before, after := IdSeq(t.nodes[i].locks), IdSeq(n.locks);
      assert after[|after| - |ids|..] == after[|after| - |before|..][|before| - |ids|..];
    }
  }

  lemma BusyByPush(t: Table, n: Node, nextId: int, file: string, ids: seq<int>)
    requires BusyWith(t, file, ids) && !SamePath(n.name, file)
    ensures BusyWith(Table([n] + t.nodes, nextId), file, ids)
  {
    var r := [n] + t.nodes;
    assert r[1..] == t.nodes;
    assert IndexOfFile(r, file) == 1 + IndexOfFile(t.nodes, file);
  }

  /** A busy file keeps its locks through a step of another request. */
  lemma BusyThroughLock(t: Table, s: Step, file: string, ids: seq<int>)
    requires s.LockStep? && BusyWith(t, file, ids)
    ensures BusyWith(Apply(t, s), file, ids)
  {
    var (t', g) := Create(t, s.file, s.mode, s.now, s.seconds, s.luck);
    var i, k := IndexOfFile(t.nodes, s.file), IndexOfFile(t.nodes, file);
    if g.Granted? && i < |t.nodes| {
      assert IdSeq(t'.nodes[i].locks)[1..] == IdSeq(t.nodes[i].locks);
      BusyByChange(t, i, t'.nodes[i], t'.nextId, file, ids);
    } else if g.Granted? {
      // The new node's file is another one: this one has a node already.
      if SamePath(s.file, file) {
        SamePathSymmetric(s.file, file);
        SamePathTransitive(t.nodes[k].name, file, s.file);
      }
      BusyByPush(t, t'.nodes[0], t'.nextId, file, ids);
    }
  }

  lemma BusyThroughRefresh(t: Table, s: Step, file: string, ids: seq<int>)
    requires s.RefreshStep? && BusyWith(t, file, ids)
    ensures BusyWith(Apply(t, s), file, ids)
  {
    var (t', ok) := Refresh(t, s.file, s.id, s.now, s.seconds);
    if ok {
      var i := IndexOfFile(t.nodes, s.file);
      assert IdSeq(t'.nodes[i].locks) == IdSeq(t.nodes[i].locks);
      BusyByChange(t, i, t'.nodes[i], t'.nextId, file, ids);
    }
  }

  lemma BusyThroughUnlock(t: Table, s: Step, file: string, ids: seq<int>)
    requires s.UnlockStep? && BusyWith(t, file, ids)
    ensures BusyWith(Apply(t, s), file, ids)
  {
    var (t', ok) := Delete(t, s.id);
    if ok {
      var i, k := IndexOfId(t.nodes, s.id), IndexOfFile(t.nodes, file);
      var n := t.nodes[i];
      var j := IndexOfLock(n.locks, s.id);
      var locks' := n.locks[..j] + n.locks[j + 1..];
      assert i != k;
      if locks' == [] {
        assert t'.nodes == t.nodes[..i] + t.nodes[i + 1..];
        BusyByRemoval(t, i, file, ids);
      } else {
        BusyByChange(t, i, n.(locks := locks'), t.nextId, file, ids);
      }
    }
  }

  lemma BusyByRemoval(t: Table, i: nat, file: string, ids: seq<int>)
    requires BusyWith(t, file, ids) && i < |t.nodes| && i != IndexOfFile(t.nodes, file)
    ensures BusyWith(t.(nodes := t.nodes[..i] + t.nodes[i + 1..]), file, ids)
  {
    IndexAfterRemoval(t.nodes, i, file);
  }

  lemma {:induction false} IndexAfterRemoval(nodes: seq<Node>, i: nat, file: string)
    requires i < |nodes| && IndexOfFile(nodes, file) < |nodes| && i != IndexOfFile(nodes, file)
    ensures var k, r := IndexOfFile(nodes, file), nodes[..i] + nodes[i + 1..];
      (i > k ==> IndexOfFile(r, file) == k) && (i < k ==> IndexOfFile(r, file) == k - 1)
  {
    var k, r := IndexOfFile(nodes, file), nodes[..i] + nodes[i + 1..];
    var k' := IndexOfFile(r, file);
    var at := if i > k then k else k - 1;
    assert r[at] == nodes[k];
    assert k' < |r| ==> r[k'] == nodes[if k' < i then k' else k' + 1];
  }

  lemma {:induction false} BusyThroughSweepNodes(nodes: seq<Node>, now: int, file: string)
    requires var k := IndexOfFile(nodes, file); k < |nodes| && nodes[k].busy && nodes[k].locks != []
    ensures var k' := IndexOfFile(SweepNodes(nodes, now), file);
      k' < |SweepNodes(nodes, now)| && SweepNodes(nodes, now)[k'] == nodes[IndexOfFile(nodes, file)]
  {
    var k, r := IndexOfFile(nodes, file), SweepNodes(nodes[1..], now);
    if k > 0 {
      assert nodes[1..][k - 1] == nodes[k];
      BusyThroughSweepNodes(nodes[1..], now, file);
      var n := Swept(nodes[0], now);
      if n.locks != [] {
        assert ([n] + r)[1..] == r;
      } else {
        assert [] + r == r;
      }
    }
  }

  /** Raising flags, or lowering those of other files. */
  lemma {:induction false} BusyThroughFlags(t: Table, files: seq<string>, busy: bool, file: string, ids: seq<int>)
    requires BusyWith(t, file, ids) && (busy || !Names(files, file))
    ensures BusyWith(SetAllBusy(t, files, busy), file, ids)
    decreases |files|
  {
    hide SamePath;
    if files != [] {
      var i := IndexOfFile(t.nodes, files[0]);
      SameNode(t.nodes, files[0], file);
      if i < |t.nodes| {
        BusyByChange(t, i, t.nodes[i].(busy := busy), t.nextId, file, ids);
      }
      BusyThroughFlags(SetBusy(t, files[0], busy), files[1..], busy, file, ids);
    }
  }

  lemma BusyThroughDrop(t: Table, f: string, file: string, ids: seq<int>)
    requires BusyWith(t, file, ids) && !SamePath(f, file)
    ensures BusyWith(Drop(t, f), file, ids)
  {
    hide SamePath;
    SameNode(t.nodes, f, file);
    if Locked(t, f) {
      BusyByRemoval(t, IndexOfFile(t.nodes, f), file, ids);
    }
  }

  lemma {:induction false} BusyThroughDrops(t: Table, files: seq<string>, file: string, ids: seq<int>)
    requires BusyWith(t, file, ids) && !Names(files, file)
    ensures BusyWith(DropAll(t, files), file, ids)
    decreases |files|
  {
    hide SamePath, BusyWith, Drop;
    if files != [] {
      BusyThroughDrop(t, files[0], file, ids);
      BusyThroughDrops(Drop(t, files[0]), files[1..], file, ids);
    }
  }

  /** A step that does not end it leaves a busy file busy, with all its locks. */
  lemma BusyThroughStep(t: Table, s: Step, file: string, ids: seq<int>)
    requires BusyWith(t, file, ids) && ids != [] && !EndsBusy(t, s, file)
    ensures BusyWith(Apply(t, s), file, ids)
  {
    hide Create, Refresh, Delete, Sweep, Drop, SetAllBusy, DropAll, CanPerform, Names;
    match s
    case LockStep(_, _, _, _, _) => BusyThroughLock(t, s, file, ids);
    case RefreshStep(_, _, _, _) => BusyThroughRefresh(t, s, file, ids);
    case UnlockStep(_) => BusyThroughUnlock(t, s, file, ids);
    case SweepStep(now) => BusyThroughSweep(t, now, file, ids);
    case DeleteFileStep(f, known) =>
      if CanPerform(t, f, [], known) {
        BusyThroughDrop(t, f, file, ids);
      }
    case BeginMoveCopy(src, dst, known) =>
      if CanPerform(t, src, [dst], known) {
        BusyThroughFlags(t, [src, dst], true, file, ids);
      }
    case FailedMoveCopy(src, dst, known) =>
      if MayFail(t, src, dst, known) {
        BusyThroughFlags(t, [src, dst], false, file, ids);
      }
    case EndMoveCopy(held, gone) =>
      BusyThroughFlags(t, held, false, file, ids);
      BusyThroughDrops(SetAllBusy(t, held, false), gone, file, ids);
  }

  lemma BusyThroughSweep(t: Table, now: int, file: string, ids: seq<int>)
    requires BusyWith(t, file, ids) && ids != []
    ensures BusyWith(Sweep(t, now), file, ids)
  {
    BusyThroughSweepNodes(t.nodes, now, file);
  }

  // ---------- What ends it ----------

  lemma FlagSet(t: Table, f: string, busy: bool, file: string)
    ensures var u := SetBusy(t, f, busy);
      && (Locked(u, file) <==> Locked(t, file))
      && (Busy(u, file) <==> if SamePath(f, file) then busy && Locked(t, file) else Busy(t, file))
  {
    hide SamePath;
    var i := IndexOfFile(t.nodes, f);
    SameNode(t.nodes, f, file);
    if i < |t.nodes| {
      IndexAfterChange(t.nodes, i, t.nodes[i].(busy := busy), file);
    }
  }

  lemma {:induction false} FlagsLowered(t: Table, files: seq<string>, file: string)
    ensures Busy(SetAllBusy(t, files, false), file) <==> Busy(t, file) && !Names(files, file)
    decreases |files|
  {
    hide SamePath, Busy, SetBusy, Locked;
    if files != [] {
      FlagSet(t, files[0], false, file);
      FlagsLowered(SetBusy(t, files[0], false), files[1..], file);
      assert Names(files, file) <==> SamePath(files[0], file) || Names(files[1..], file);
    }
  }

  lemma FileDropped(t: Table, f: string, file: string)
    requires Inv(t)
    ensures Busy(Drop(t, f), file) <==> Busy(t, file) && !SamePath(f, file)
  {
    hide SamePath;
    var i, k := IndexOfFile(t.nodes, f), IndexOfFile(t.nodes, file);
    SameNode(t.nodes, f, file);
    if i < |t.nodes| {
      if k == |t.nodes| || i == k {
        NoOtherNode(t, i, file);
      } else {
        IndexAfterRemoval(t.nodes, i, file);
      }
    }
  }

  /** Behind the removal of its node, or without one, a file has none. */
  lemma NoOtherNode(t: Table, i: nat, file: string)
    requires Inv(t) && i < |t.nodes| && (i == IndexOfFile(t.nodes, file) || !Locked(t, file))
    ensures !Locked(t.(nodes := t.nodes[..i] + t.nodes[i + 1..]), file)
  {
    hide SamePath;
    var r := t.nodes[..i] + t.nodes[i + 1..];
    assert forall a :: 0 <= a < |r| ==> r[a] == t.nodes[if a < i then a else a + 1];
    if Locked(t, file) {
      forall b | i < b < |t.nodes| ensures !SamePath(t.nodes[b].name, file) {
        assert Apart(t.nodes[i], t.nodes[b]);
        OtherName(t.nodes[i].name, t.nodes[b].name, file);
      }
    }
  }

  lemma OtherName(a: string, b: string, file: string)
    requires SamePath(a, file) && !SamePath(a, b)
    ensures !SamePath(b, file)
  {
    hide SamePath;
    if SamePath(b, file) {
      SamePathSymmetric(b, file);
      SamePathTransitive(a, file, b);
    }
  }

  lemma {:induction false} FilesDropped(t: Table, files: seq<string>, file: string)
    requires Inv(t)
    ensures Busy(DropAll(t, files), file) <==> Busy(t, file) && !Names(files, file)
    decreases |files|
  {
    hide SamePath, Busy, Drop, Inv;
    if files != [] {
      FileDropped(t, files[0], file);
      DropKeepsInv(t, files[0]);
      FilesDropped(Drop(t, files[0]), files[1..], file);
      assert Names(files, file) <==> SamePath(files[0], file) || Names(files[1..], file);
    }
  }

  /**
    What protects a busy file, exactly: one step leaves it busy if and only if the step neither ends a
    MOVE or COPY that names the file, nor is one that fails to begin, nor carries out a DELETE of the
    file; and then it keeps all its locks.
  */
  lemma BusyUntilEnded(t: Table, s: Step, file: string)
    requires Inv(t) && Busy(t, file)
    ensures Busy(Apply(t, s), file) <==> !EndsBusy(t, s, file)
    ensures !EndsBusy(t, s, file) ==> BusyWith(Apply(t, s), file, LocksOf(t, file))
  {
    hide SamePath, Drop, SetAllBusy, DropAll, CanPerform, Names, Create, Refresh, Delete, Sweep;
    BusyNow(t, file);
    if !EndsBusy(t, s, file) {
      BusyThroughStep(t, s, file, LocksOf(t, file));
    } else if s.DeleteFileStep? {
      FileDropped(t, s.file, file);
    } else if s.FailedMoveCopy? {
      FlagsLowered(t, [s.src, s.dst], file);
    } else {
      FlagsLowered(t, s.held, file);
      SetAllBusyKeepsInv(t, s.held, false);
      FilesDropped(SetAllBusy(t, s.held, false), s.gone, file);
    }
  }

  lemma BusyNow(t: Table, file: string)
    requires Inv(t) && Busy(t, file)
    ensures LocksOf(t, file) != [] && BusyWith(t, file, LocksOf(t, file))
  {
    assert NodeOk(t.nodes[IndexOfFile(t.nodes, file)], t.nextId);
    assert LocksOf(t, file)[0..] == LocksOf(t, file);
  }

  /** Over runs: a busy file stays busy at every point if and only if no step ends it. */
  lemma {:induction false} BusyThroughoutExactly(t: Table, steps: seq<Step>, file: string)
    requires Inv(t) && Busy(t, file)
    ensures StaysBusy(t, steps, file) <==> NeverEnds(t, steps, file)
    decreases |steps|
  {
    hide Busy, Inv, EndsBusy, Apply, LocksOf, BusyWith;
    if steps != [] {
      BusyUntilEnded(t, steps[0], file);
      StepKeepsInv(t, steps[0]);
      if Busy(Apply(t, steps[0]), file) {
        BusyThroughoutExactly(Apply(t, steps[0]), steps[1..], file);
      }
    }
  }

  lemma {:induction false} BusyThroughRun(t: Table, steps: seq<Step>, file: string, ids: seq<int>)
    requires BusyWith(t, file, ids) && ids != [] && NeverEnds(t, steps, file)
    ensures BusyWith(Run(t, steps), file, ids)
    decreases |steps|
  {
    hide BusyWith, Apply, EndsBusy;
    if steps != [] {
      BusyThroughStep(t, steps[0], file, ids);
      BusyThroughRun(Apply(t, steps[0]), steps[1..], file, ids);
    }
  }

  /** Setting the busy flag on some files: all else stays. */
  lemma {:induction false} SetAllBusySets(t: Table, files: seq<string>, busy: bool, file: string)
    ensures var k, u := IndexOfFile(t.nodes, file), SetAllBusy(t, files, busy);
      && |u.nodes| == |t.nodes| && IndexOfFile(u.nodes, file) == k
      && (k < |t.nodes| ==>
            && u.nodes[k].name == t.nodes[k].name
            && u.nodes[k].locks == t.nodes[k].locks && u.nodes[k].mode == t.nodes[k].mode
            && (file in files ==> u.nodes[k].busy == busy)
            && (t.nodes[k].busy == busy ==> u.nodes[k].busy == busy))
    decreases |files|
  {
    if files != [] {
      var u, i := SetBusy(t, files[0], busy), IndexOfFile(t.nodes, files[0]);
      if i < |t.nodes| {
        IndexAfterChange(t.nodes, i, t.nodes[i].(busy := busy), file);
      }
      SetAllBusySets(u, files[1..], busy, file);
    }
  }

  lemma BeginMakesBusy(t: Table, files: seq<string>, file: string)
    requires file in files && Locked(t, file)
    ensures BusyWith(SetAllBusy(t, files, true), file, LocksOf(t, file))
  {
    SetAllBusySets(t, files, true, file);
    assert LocksOf(t, file)[0..] == LocksOf(t, file);
  }

  lemma EndClears(t: Table, files: seq<string>, file: string, ids: seq<int>)
    requires LockedWith(t, file, ids)
    ensures LockedWith(SetAllBusy(t, files, false), file, ids)
    ensures file in files ==> !Busy(SetAllBusy(t, files, false), file)
  {
    SetAllBusySets(t, files, false, file);
  }

  /**
    Busy protection.  Once a MOVE or COPY has begun, each of its two files that is locked stays locked,
    with every lock it had, through any number of steps of other requests, unless one of them ends a
    MOVE or COPY of that file, fails to begin one, or deletes it; and it is still so when the busy flag
    is cleared.
  */
  lemma BusyProtects(t: Table, src: string, dst: string, ids: seq<int>, steps: seq<Step>, file: string,
      held: seq<string>)
    requires Inv(t) && CanPerform(t, src, [dst], ids) && file in [src, dst] && Locked(t, file)
    requires NeverEnds(Apply(t, BeginMoveCopy(src, dst, ids)), steps, file)
    ensures LocksOf(t, file) != []
    ensures var u := Run(Apply(t, BeginMoveCopy(src, dst, ids)), steps);
      && BusyWith(u, file, LocksOf(t, file))
      && LockedWith(Apply(u, EndMoveCopy(held, [])), file, LocksOf(t, file))
      && (file in held ==> !Busy(Apply(u, EndMoveCopy(held, [])), file))
  {
    hide SetAllBusy, Run, BusyWith, NeverEnds;
    assert NodeOk(t.nodes[IndexOfFile(t.nodes, file)], t.nextId);
    var b := Apply(t, BeginMoveCopy(src, dst, ids));
    assert b == SetAllBusy(t, [src, dst], true) by {
      hide IndexOfFile;
    }
    BeginMakesBusy(t, [src, dst], file);
    BusyThroughRun(b, steps, file, LocksOf(t, file));
    EndOfMoveCopy(Run(b, steps), held, file, LocksOf(t, file));
  }

  lemma EndOfMoveCopy(u: Table, held: seq<string>, file: string, ids: seq<int>)
    requires BusyWith(u, file, ids)
    ensures LockedWith(Apply(u, EndMoveCopy(held, [])), file, ids)
    ensures file in held ==> !Busy(Apply(u, EndMoveCopy(held, [])), file)
  {
    EndClears(u, held, file, ids);
  }

  /**
    The flag does not count its holders: of two copies of one file, the first to end clears it for
    both, and the other's lock can be taken away under it.
  */
  lemma SecondCopyUnprotected(file: string, dst1: string, dst2: string, now: int)
    requires !SamePath(file, dst1) && !SamePath(file, dst2)
    ensures var t := Create(Table([], 1), file, Exclusive, now, 60, AllGood).0;
      var one := Apply(t, BeginMoveCopy(file, dst1, [1]));
      var two := Apply(one, BeginMoveCopy(file, dst2, [1]));
      var ended := Apply(two, EndMoveCopy([file], []));
      && CanPerform(t, file, [dst1], [1]) && CanPerform(one, file, [dst2], [1])
      && Busy(two, file) && !Busy(ended, file) && Apply(ended, UnlockStep(1)).nodes == []
  {
    hide Create, Delete, CanPerform, SetAllBusy;
    var idle := Node(file, Exclusive, false, [Lock(1, Expiry(now, 60), 60)]);
    var busy := idle.(busy := true);
    SamePathReflexive(file);
    FirstLock(file, now);
    BeginOn(idle, dst1);
    BeginOn(busy, dst2);
    EndOn(busy);
    OnlyLockGoes(idle);
  }

  lemma FirstLock(file: string, now: int)
    ensures Create(Table([], 1), file, Exclusive, now, 60, AllGood).0
      == Table([Node(file, Exclusive, false, [Lock(1, Expiry(now, 60), 60)])], 2)
  {
  }

  lemma EndOn(n: Node)
    requires SamePath(n.name, n.name)
    ensures Apply(Table([n], 2), EndMoveCopy([n.name], [])) == Table([n.(busy := false)], 2)
  {
    var t, u := Table([n], 2), Table([n.(busy := false)], 2);
    assert SetBusy(t, n.name, false) == u && [n.name][1..] == [];
    assert SetAllBusy(t, [n.name], false) == SetAllBusy(u, [], false);
    assert Apply(t, EndMoveCopy([n.name], [])) == DropAll(u, []);
  }

  lemma OnlyLockGoes(n: Node)
    requires |n.locks| == 1 && n.locks[0].id == 1 && !n.busy
    ensures Apply(Table([n], 2), UnlockStep(1)).nodes == []
  {
    assert n.locks[0] in n.locks && [n][..0] + [n][1..] == [];
  }

  lemma BeginOn(n: Node, dst: string)
    requires |n.locks| == 1 && n.locks[0].id == 1 && SamePath(n.name, n.name) && !SamePath(n.name, dst)
    ensures var t := Table([n], 2);
      CanPerform(t, n.name, [dst], [1])
      && Apply(t, BeginMoveCopy(n.name, dst, [1])) == Table([n.(busy := true)], 2)
  {
    var t := Table([n], 2);
    assert n.locks[0] in n.locks && 1 in [1];
    assert HoldsOneOf(n, [1]);
    assert [n][1..] == [] && IndexOfFile([n], dst) == 1;
    assert [n.name, dst][1..] == [dst] && [dst][1..] == [];
    var u := SetBusy(t, n.name, true);
    assert u == Table([n.(busy := true)], 2) && u.nodes[1..] == [];
    assert SetBusy(u, dst, true) == u;
    assert SetAllBusy(u, [dst], true) == u;
  }
}
