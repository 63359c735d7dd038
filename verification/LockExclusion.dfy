/** Lock ids over whole runs: none comes back, and an exclusive lock excludes. */
module LockExclusion {
  import opened PathNames
  import opened LockTable

  // ---------- How nodes change ----------

  /**
    Where a node comes from: it is one of the nodes before, with the same file and mode and some of
    its locks, new ones added only if it is shared; or it has new locks only.
  */
  predicate Stems(n: Node, m: Node, nextId: int) {
    && n.name == m.name && n.mode == m.mode
    && (forall id :: id in Ids(n.locks) ==> id in Ids(m.locks) || (id >= nextId && m.mode == Shared))
  }

  predicate New(n: Node, nextId: int) {
    forall id :: id in Ids(n.locks) ==> id >= nextId
  }

  predicate Evolves(before: seq<Node>, nextId: int, after: seq<Node>) {
    forall n :: n in after ==> New(n, nextId) || exists m :: m in before && Stems(n, m, nextId)
  }

  lemma EvolvesByChange(nodes: seq<Node>, nextId: int, i: nat, n: Node)
    requires i < |nodes| && Stems(n, nodes[i], nextId)
    ensures Evolves(nodes, nextId, nodes[i := n])
  {
    var r := nodes[i := n];
    forall x | x in r ensures New(x, nextId) || exists m :: m in nodes && Stems(x, m, nextId) {
      var k :| 0 <= k < |r| && r[k] == x;
      assert nodes[k] in nodes;
      assert Stems(x, nodes[k], nextId);
    }
  }

  lemma EvolvesByLoss(nodes: seq<Node>, nextId: int, after: seq<Node>)
    requires forall n :: n in after ==> n in nodes
    ensures Evolves(nodes, nextId, after)
  {
    forall n | n in after ensures exists m :: m in nodes && Stems(n, m, nextId) {
      assert Stems(n, n, nextId);
    }
  }

  lemma EvolvesTwice(a: seq<Node>, nextId: int, b: seq<Node>, c: seq<Node>)
    requires Evolves(a, nextId, b) && Evolves(b, nextId, c)
    ensures Evolves(a, nextId, c)
  {
    forall n | n in c && !New(n, nextId) ensures exists m :: m in a && Stems(n, m, nextId) {
      var m :| m in b && Stems(n, m, nextId);
      if New(m, nextId) {
        assert New(n, nextId);
      } else {
        var o :| o in a && Stems(m, o, nextId);
        assert Stems(n, o, nextId);
      }
    }
  }

  lemma CreateEvolves(t: Table, file: string, mode: Mode, now: int, seconds: nat, luck: Luck)
    ensures Evolves(t.nodes, t.nextId, Create(t, file, mode, now, seconds, luck).0.nodes)
  {
    var (t', g) := Create(t, file, mode, now, seconds, luck);
    var i := IndexOfFile(t.nodes, file);
    if !g.Granted? {
      EvolvesByLoss(t.nodes, t.nextId, t'.nodes);
    } else if i < |t.nodes| {
      EvolvesByChange(t.nodes, t.nextId, i, t'.nodes[i]);
    } else {
      assert New(t'.nodes[0], t.nextId);
      EvolvesByLoss(t.nodes, t.nextId, t'.nodes[1..]);
      assert forall n :: n in t'.nodes ==> n == t'.nodes[0] || n in t'.nodes[1..];
    }
  }

  lemma RefreshEvolves(t: Table, file: string, id: int, now: int, seconds: nat)
    ensures Evolves(t.nodes, t.nextId, Refresh(t, file, id, now, seconds).0.nodes)
  {
    var (t', ok) := Refresh(t, file, id, now, seconds);
    if ok {
      var i := IndexOfFile(t.nodes, file);
      SameIds(t.nodes[i].locks, t'.nodes[i].locks);
      EvolvesByChange(t.nodes, t.nextId, i, t'.nodes[i]);
    } else {
      EvolvesByLoss(t.nodes, t.nextId, t'.nodes);
    }
  }

  lemma DeleteEvolves(t: Table, id: int)
    ensures Evolves(t.nodes, t.nextId, Delete(t, id).0.nodes)
  {
    var (t', ok) := Delete(t, id);
    var i := IndexOfId(t.nodes, id);
    if ok && |t'.nodes| == |t.nodes| {
      EvolvesByChange(t.nodes, t.nextId, i, t'.nodes[i]);
    } else {
      EvolvesByLoss(t.nodes, t.nextId, t'.nodes);
    }
  }

  lemma {:induction false} SweepEvolves(nodes: seq<Node>, nextId: int, now: int)
    ensures Evolves(nodes, nextId, SweepNodes(nodes, now))
  {
    if nodes != [] {
      SweepEvolves(nodes[1..], nextId, now);
      assert Stems(Swept(nodes[0], now), nodes[0], nextId);
    }
  }

  lemma {:induction false} SetAllBusyEvolves(t: Table, files: seq<string>, busy: bool)
    ensures Evolves(t.nodes, t.nextId, SetAllBusy(t, files, busy).nodes)
    ensures SetAllBusy(t, files, busy).nextId == t.nextId
    decreases |files|
  {
    if files == [] {
      EvolvesByLoss(t.nodes, t.nextId, t.nodes);
    } else {
      var u, i := SetBusy(t, files[0], busy), IndexOfFile(t.nodes, files[0]);
      if i < |t.nodes| {
        EvolvesByChange(t.nodes, t.nextId, i, u.nodes[i]);
      } else {
        EvolvesByLoss(t.nodes, t.nextId, u.nodes);
      }
      SetAllBusyEvolves(u, files[1..], busy);
      EvolvesTwice(t.nodes, t.nextId, u.nodes, SetAllBusy(t, files, busy).nodes);
    }
  }

  lemma {:induction false} DropAllEvolves(t: Table, files: seq<string>)
    ensures Evolves(t.nodes, t.nextId, DropAll(t, files).nodes)
    decreases |files|
  {
    EvolvesByLoss(t.nodes, t.nextId, t.nodes);
    if files != [] {
      var u := Drop(t, files[0]);
      EvolvesByLoss(t.nodes, t.nextId, u.nodes);
      DropAllEvolves(u, files[1..]);
      EvolvesTwice(t.nodes, t.nextId, u.nodes, DropAll(t, files).nodes);
    }
  }

  lemma StepEvolves(t: Table, s: Step)
    ensures Evolves(t.nodes, t.nextId, Apply(t, s).nodes)
  {
    hide Evolves, Create, Refresh, Delete, Drop, SetAllBusy, DropAll, CanPerform;
    match s
    case LockStep(file, mode, now, seconds, luck) => CreateEvolves(t, file, mode, now, seconds, luck);
    case RefreshStep(file, id, now, seconds) => RefreshEvolves(t, file, id, now, seconds);
    case UnlockStep(id) => DeleteEvolves(t, id);
    case SweepStep(now) => SweepEvolves(t.nodes, t.nextId, now);
    case DeleteFileStep(file, ids) =>
      DropOneEvolves(t, file);
      EvolvesByLoss(t.nodes, t.nextId, t.nodes);
    case BeginMoveCopy(src, dst, ids) =>
      SetAllBusyEvolves(t, [src, dst], true);
      EvolvesByLoss(t.nodes, t.nextId, t.nodes);
    case FailedMoveCopy(src, dst, ids) =>
      SetAllBusyEvolves(t, [src, dst], false);
      EvolvesByLoss(t.nodes, t.nextId, t.nodes);
    case EndMoveCopy(held, gone) =>
      SetAllBusyEvolves(t, held, false);
      DropAllEvolves(SetAllBusy(t, held, false), gone);
      EvolvesTwice(t.nodes, t.nextId, SetAllBusy(t, held, false).nodes, Apply(t, s).nodes);
  }

  lemma DropOneEvolves(t: Table, file: string)
    ensures Evolves(t.nodes, t.nextId, Drop(t, file).nodes)
  {
    EvolvesByLoss(t.nodes, t.nextId, Drop(t, file).nodes);
  }

  // ---------- Ids are never reused ----------

  lemma {:induction false} NoIdComesBack(t: Table, steps: seq<Step>, id: int)
    requires Inv(t) && id < t.nextId && !Held(t.nodes, id)
    ensures !Held(Run(t, steps).nodes, id)
    decreases |steps|
  {
    if steps != [] {
      StepEvolves(t, steps[0]);
      StepKeepsInv(t, steps[0]);
      NoIdComesBack(Apply(t, steps[0]), steps[1..], id);
    }
  }

  // ---------- Mutual exclusion ----------

  /** `file` is locked exclusively, by lock k and no other. */
  predicate HeldAlone(t: Table, file: string, k: int) {
    exists n :: n in t.nodes && SamePath(n.name, file) && n.mode == Exclusive && Ids(n.locks) == {k}
  }

  lemma GrantHoldsAlone(t: Table, file: string, now: int, seconds: nat, luck: Luck)
    ensures var (t', g) := Create(t, file, Exclusive, now, seconds, luck);
      g.Granted? ==> HeldAlone(t', file, g.id)
  {
    var (t', g) := Create(t, file, Exclusive, now, seconds, luck);
    if g.Granted? {
      SamePathReflexive(file);
      assert t'.nodes[0] in t'.nodes;
      assert Ids(t'.nodes[0].locks) == {g.id};
    }
  }

  /** In a table, two nodes that share a lock are one, and so are two for one file. */
  lemma OneNode(t: Table, n: Node, m: Node)
    requires Inv(t) && n in t.nodes && m in t.nodes
    requires (exists id :: id in Ids(n.locks) && id in Ids(m.locks))
      || SamePath(n.name, m.name) || SamePath(m.name, n.name)
    ensures n == m
  {
    var i :| 0 <= i < |t.nodes| && t.nodes[i] == n;
    var j :| 0 <= j < |t.nodes| && t.nodes[j] == m;
    if i < j {
      assert Apart(t.nodes[i], t.nodes[j]);
      if SamePath(m.name, n.name) { SamePathSymmetric(m.name, n.name); }
    } else if j < i {
      assert Apart(t.nodes[j], t.nodes[i]);
      if SamePath(n.name, m.name) { SamePathSymmetric(n.name, m.name); }
    }
  }

  lemma AloneOrGone(t: Table, s: Step, file: string, k: int)
    requires Inv(t) && HeldAlone(t, file, k)
    ensures HeldAlone(Apply(t, s), file, k) || !Held(Apply(t, s).nodes, k)
  {
    hide Apply, Inv;
    StepEvolves(t, s);
    var t' := Apply(t, s);
    var n :| n in t.nodes && SamePath(n.name, file) && n.mode == Exclusive && Ids(n.locks) == {k};
    IdsBelowNext(t, n, k);
    if Held(t'.nodes, k) {
      var n' :| n' in t'.nodes && k in Ids(n'.locks);
      assert !New(n', t.nextId);
      var m :| m in t.nodes && Stems(n', m, t.nextId);
      OneNode(t, n, m);
      assert Ids(n'.locks) == {k};
    }
  }

  lemma IdsBelowNext(t: Table, n: Node, id: int)
    requires Inv(t) && n in t.nodes && id in Ids(n.locks)
    ensures id < t.nextId
  {
    var i :| 0 <= i < |t.nodes| && t.nodes[i] == n;
    assert NodeOk(t.nodes[i], t.nextId);
  }

  lemma {:induction false} AloneUntilGone(t: Table, steps: seq<Step>, file: string, k: int)
    requires Inv(t) && HeldAlone(t, file, k)
    ensures HeldAlone(Run(t, steps), file, k) || !Held(Run(t, steps).nodes, k)
    decreases |steps|
  {
    hide Inv, Apply, HeldAlone, Held;
    if steps != [] {
      var t' := Apply(t, steps[0]);
      AloneOrGone(t, steps[0], file, k);
      StepKeepsInv(t, steps[0]);
      if HeldAlone(t', file, k) {
        AloneUntilGone(t', steps[1..], file, k);
      } else {
        AloneIsKnown(t, file, k);
        NoIdComesBack(t', steps[1..], k);
      }
    }
  }

  lemma AloneIsKnown(t: Table, file: string, k: int)
    requires Inv(t) && HeldAlone(t, file, k)
    ensures k < t.nextId
  {
    var n :| n in t.nodes && SamePath(n.name, file) && n.mode == Exclusive && Ids(n.locks) == {k};
    IdsBelowNext(t, n, k);
  }

  /** A file held alone refuses every other lock, and every operation by clients that do not know the lock. */
  lemma AloneExcludes(t: Table, file: string, k: int, name: string, mode: Mode, now: int, seconds: nat, luck: Luck,
                      file1: string, file2: seq<string>, ids: seq<int>)
    requires Inv(t) && HeldAlone(t, file, k) && |file2| <= 1
    ensures SamePath(name, file) ==> Create(t, name, mode, now, seconds, luck) == (t, Refused)
    ensures CanPerform(t, file1, file2, ids) && (SamePath(file1, file) || (file2 != [] && SamePath(file2[0], file))) ==>
      k in ids
  {
    if SamePath(name, file) {
      var i := AloneIsFound(t, file, k, name);
    }
    if SamePath(file1, file) {
      var i := AloneIsFound(t, file, k, file1);
    }
    if file2 != [] && SamePath(file2[0], file) {
      var i := AloneIsFound(t, file, k, file2[0]);
    }
  }

  lemma AloneIsFound(t: Table, file: string, k: int, name: string) returns (i: nat)
    requires Inv(t) && HeldAlone(t, file, k) && SamePath(name, file)
    ensures i == IndexOfFile(t.nodes, name) < |t.nodes| && t.nodes[i].mode == Exclusive && Ids(t.nodes[i].locks) == {k}
  {
    var n :| n in t.nodes && SamePath(n.name, file) && n.mode == Exclusive && Ids(n.locks) == {k};
    SamePathSymmetric(name, file);
    SamePathTransitive(n.name, file, name);
    i := IndexOfFile(t.nodes, name);
    var j :| 0 <= j < |t.nodes| && t.nodes[j] == n;
    if i < |t.nodes| {
      SamePathSymmetric(t.nodes[i].name, name);
      SamePathTransitive(n.name, name, t.nodes[i].name);
      OneNode(t, n, t.nodes[i]);
    }
  }

  /**
    Mutual exclusion over whole runs.  From the grant of an exclusive lock on a file until that lock
    is gone, every LOCK of the file is refused, and no client changes the file without the lock's id.
  */
  lemma MutualExclusion(t: Table, file: string, now: int, seconds: nat, luck: Luck, steps: seq<Step>,
                        name: string, mode: Mode, now': int, seconds': nat, luck': Luck,
                        file1: string, file2: seq<string>, ids: seq<int>)
    requires Inv(t) && Create(t, file, Exclusive, now, seconds, luck).1.Granted? && |file2| <= 1
    ensures var (t', g) := Create(t, file, Exclusive, now, seconds, luck);
      var u := Run(t', steps);
      Held(u.nodes, g.id) ==>
        && (SamePath(name, file) ==> Create(u, name, mode, now', seconds', luck') == (u, Refused))
        && (CanPerform(u, file1, file2, ids) && (SamePath(file1, file) || (file2 != [] && SamePath(file2[0], file))) ==>
              g.id in ids)
  {
    hide Inv, Create, HeldAlone, CanPerform, Run;
    var (t', g) := Create(t, file, Exclusive, now, seconds, luck);
    CreateKeepsInv(t, file, Exclusive, now, seconds, luck);
    GrantHoldsAlone(t, file, now, seconds, luck);
    AloneUntilGone(t', steps, file, g.id);
    RunKeepsInv(t', steps);
    if Held(Run(t', steps).nodes, g.id) {
      AloneExcludes(Run(t', steps), file, g.id, name, mode, now', seconds', luck', file1, file2, ids);
    }
  }
}
