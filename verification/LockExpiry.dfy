/** How locks end, over any run: at their time at the latest, and before it only by those who know them. */
module LockExpiry {
  import opened PathNames
  import opened LockTable
  import opened LockExclusion
  import opened LockLeases

  predicate HasLock(nodes: seq<Node>, l: Lock) {
    exists n :: n in nodes && l in n.locks
  }

  /** The lock that step s writes into the table: a new one, or the one it refreshes. */
  predicate Writes(t: Table, s: Step, l: Lock) {
    match s
    case LockStep(_, _, now, seconds, _) => l == Lock(t.nextId, Expiry(now, seconds), seconds)
    case RefreshStep(_, id, now, seconds) => l == Lock(id, Expiry(now, seconds), seconds)
    case _ => false
  }

  // ---------- Where locks come from ----------

  lemma LockByChange(nodes: seq<Node>, i: nat, n: Node, l: Lock)
    requires i < |nodes| && HasLock(nodes[i := n], l)
    ensures HasLock(nodes, l) || l in n.locks
  {
    var m :| m in nodes[i := n] && l in m.locks;
    assert m == n || m in nodes;
  }

  lemma LockByLoss(nodes: seq<Node>, after: seq<Node>, l: Lock)
    requires HasLock(after, l) && forall n :: n in after ==> n in nodes
    ensures HasLock(nodes, l)
  {
    var n :| n in after && l in n.locks;
    assert n in nodes;
  }

  lemma LockOf(nodes: seq<Node>, i: nat, l: Lock)
    requires i < |nodes| && l in nodes[i].locks
    ensures HasLock(nodes, l)
  {
    assert nodes[i] in nodes;
  }

  lemma LocksAfterCreate(t: Table, s: Step, l: Lock)
    requires s.LockStep? && HasLock(Apply(t, s).nodes, l)
    ensures HasLock(t.nodes, l) || Writes(t, s, l)
  {
    hide HasLock, Expiry;
    var (t', g) := Create(t, s.file, s.mode, s.now, s.seconds, s.luck);
    var i := IndexOfFile(t.nodes, s.file);
    if g.Granted? && i < |t.nodes| {
      LockByChange(t.nodes, i, t'.nodes[i], l);
      if l in t.nodes[i].locks {
        LockOf(t.nodes, i, l);
      }
    } else if g.Granted? {
      LockByPush(t.nodes, t'.nodes[0], l);
    }
  }

  lemma LockByPush(nodes: seq<Node>, n: Node, l: Lock)
    requires HasLock([n] + nodes, l)
    ensures HasLock(nodes, l) || l in n.locks
  {
    var m :| m in [n] + nodes && l in m.locks;
    assert m == n || m in nodes;
  }

  lemma LocksAfterRefresh(t: Table, s: Step, l: Lock)
    requires s.RefreshStep? && HasLock(Apply(t, s).nodes, l)
    ensures HasLock(t.nodes, l) || Writes(t, s, l)
  {
    hide HasLock, Expiry;
    var (t', ok) := Refresh(t, s.file, s.id, s.now, s.seconds);
    if ok {
      var i := IndexOfFile(t.nodes, s.file);
      LockByChange(t.nodes, i, t'.nodes[i], l);
      if l in t.nodes[i].locks {
        LockOf(t.nodes, i, l);
      }
    }
  }

  lemma LocksAfterDelete(t: Table, s: Step, l: Lock)
    requires s.UnlockStep? && HasLock(Apply(t, s).nodes, l)
    ensures HasLock(t.nodes, l)
  {
    hide HasLock;
    var (t', ok) := Delete(t, s.id);
    var i := IndexOfId(t.nodes, s.id);
    if ok && |t'.nodes| == |t.nodes| {
      LockByChange(t.nodes, i, t'.nodes[i], l);
      if l in t.nodes[i].locks {
        LockOf(t.nodes, i, l);
      }
    } else {
      LockByLoss(t.nodes, t'.nodes, l);
    }
  }

  lemma LocksAfterSweep(t: Table, s: Step, l: Lock)
    requires s.SweepStep? && HasLock(Apply(t, s).nodes, l)
    ensures HasLock(t.nodes, l)
  {
    var n :| n in SweepNodes(t.nodes, s.now) && l in n.locks;
    SweepExactly(t.nodes, s.now, n.name, l);
  }

  lemma {:induction false} LocksAfterFlags(t: Table, files: seq<string>, busy: bool, l: Lock)
    requires HasLock(SetAllBusy(t, files, busy).nodes, l)
    ensures HasLock(t.nodes, l)
    decreases |files|
  {
    hide HasLock;
    if files != [] {
      LocksAfterFlags(SetBusy(t, files[0], busy), files[1..], busy, l);
      var i := IndexOfFile(t.nodes, files[0]);
      if i < |t.nodes| {
        LockByChange(t.nodes, i, t.nodes[i].(busy := busy), l);
        if l in t.nodes[i].locks {
          LockOf(t.nodes, i, l);
        }
      }
    }
  }

  lemma {:induction false} LocksAfterDrops(t: Table, files: seq<string>, l: Lock)
    requires HasLock(DropAll(t, files).nodes, l)
    ensures HasLock(t.nodes, l)
    decreases |files|
  {
    hide HasLock;
    if files != [] {
      LocksAfterDrops(Drop(t, files[0]), files[1..], l);
      LockByLoss(t.nodes, Drop(t, files[0]).nodes, l);
    }
  }

  /** A step makes up no lock but the one that LOCK grants or refreshes. */
  lemma LocksAfterStep(t: Table, s: Step, l: Lock)
    requires HasLock(Apply(t, s).nodes, l)
    ensures HasLock(t.nodes, l) || Writes(t, s, l)
  {
    hide HasLock, Create, Refresh, Delete, Drop, SetAllBusy, DropAll, CanPerform, Writes, SweepNodes;
    match s
    case LockStep(_, _, _, _, _) => LocksAfterCreate(t, s, l);
    case RefreshStep(_, _, _, _) => LocksAfterRefresh(t, s, l);
    case UnlockStep(_) => LocksAfterDelete(t, s, l);
    case SweepStep(_) => LocksAfterSweep(t, s, l);
    case DeleteFileStep(file, ids) =>
      if CanPerform(t, file, [], ids) {
        LockByLossOf(t, file, l);
      }
    case BeginMoveCopy(src, dst, ids) =>
      if CanPerform(t, src, [dst], ids) {
        LocksAfterFlags(t, [src, dst], true, l);
      }
    case FailedMoveCopy(src, dst, ids) =>
      if MayFail(t, src, dst, ids) {
        LocksAfterFlags(t, [src, dst], false, l);
      }
    case EndMoveCopy(held, gone) =>
      LocksAfterDrops(SetAllBusy(t, held, false), gone, l);
      LocksAfterFlags(t, held, false, l);
  }

  lemma LockByLossOf(t: Table, file: string, l: Lock)
    requires HasLock(Drop(t, file).nodes, l)
    ensures HasLock(t.nodes, l)
  {
    LockByLoss(t.nodes, Drop(t, file).nodes, l);
  }

  // ---------- Leases end ----------

  /** Lock `id` expires at `until` at the latest, if it is held at all. */
  ghost predicate Due(t: Table, id: int, until: int) {
    forall l :: HasLock(t.nodes, l) && l.id == id ==> l.expires <= until
  }

  /** The step gives the lock a new lease beyond `until`. */
  predicate Prolongs(s: Step, id: int, until: int) {
    s.RefreshStep? && s.id == id && Expiry(s.now, s.seconds) > until
  }

  lemma StillDue(t: Table, s: Step, id: int, until: int)
    requires Inv(t) && id < t.nextId && Due(t, id, until) && !Prolongs(s, id, until)
    ensures Due(Apply(t, s), id, until) && id < Apply(t, s).nextId
  {
    hide HasLock, Apply, Inv, Expiry;
    StepKeepsInv(t, s);
    forall l | HasLock(Apply(t, s).nodes, l) && l.id == id ensures l.expires <= until {
      LocksAfterStep(t, s, l);
    }
  }

  lemma {:induction false} DueAfterRun(t: Table, steps: seq<Step>, id: int, until: int)
    requires Inv(t) && id < t.nextId && Due(t, id, until)
    requires forall s :: s in steps ==> !Prolongs(s, id, until)
    ensures Inv(Run(t, steps)) && Due(Run(t, steps), id, until) && id < Run(t, steps).nextId
    decreases |steps|
  {
    hide Inv, Due, Apply, Prolongs;
    if steps != [] {
      StillDue(t, steps[0], id, until);
      StepKeepsInv(t, steps[0]);
      DueAfterRun(Apply(t, steps[0]), steps[1..], id, until);
    }
  }

  /** The file of lock `id` is not being moved or copied. */
  predicate Idle(t: Table, id: int) {
    forall n :: n in t.nodes && id in Ids(n.locks) ==> !n.busy
  }

  lemma SweepTakes(t: Table, now: int, id: int, until: int)
    requires Due(t, id, until) && Idle(t, id) && until < now
    ensures !Held(Sweep(t, now).nodes, id)
  {
    hide SweepNodes;
    forall n | n in SweepNodes(t.nodes, now) ensures id !in Ids(n.locks) {
      forall l | l in n.locks ensures l.id != id {
        SweepExactly(t.nodes, now, n.name, l);
        var m :| m in t.nodes && m.name == n.name && l in m.locks && (m.busy || now <= l.expires);
        assert HasLock(t.nodes, l);
        assert l.id in Ids(m.locks);
      }
    }
  }

  /**
    A lock does not outlive its time: if it is due at `until` and no step gives it more time, then the
    first sweep behind `until` that finds its file idle takes it away, and it never comes back.
  */
  lemma LeaseEnds(t: Table, before: seq<Step>, now: int, after: seq<Step>, id: int, until: int)
    requires Inv(t) && id < t.nextId && Due(t, id, until)
    requires forall s :: s in before ==> !Prolongs(s, id, until)
    requires until < now && Idle(Run(t, before), id)
    ensures !Held(Run(Sweep(Run(t, before), now), after).nodes, id)
  {
    hide Inv, Due, Held, Idle, Sweep;
    var u := Run(t, before);
    DueAfterRun(t, before, id, until);
    SweepTakes(u, now, id, until);
    assert Apply(u, SweepStep(now)) == Sweep(u, now);
    StepKeepsInv(u, SweepStep(now));
    NoIdComesBack(Sweep(u, now), after, id);
  }

  lemma GrantIsDue(t: Table, file: string, mode: Mode, now: int, seconds: nat, luck: Luck)
    requires Inv(t) && seconds * 1000 < 0x1_0000_0000
    ensures var (t', g) := Create(t, file, mode, now, seconds, luck);
      g.Granted? ==> Inv(t') && g.id < t'.nextId && Due(t', g.id, now + seconds * 10_000_000)
  {
    hide Inv, Held, Create, Expiry;
    var (t', g) := Create(t, file, mode, now, seconds, luck);
    CreateKeepsInv(t, file, mode, now, seconds, luck);
    LeaseIsExact(now, seconds);
    if g.Granted? {
      var s := LockStep(file, mode, now, seconds, luck);
      assert Apply(t, s) == t';
      forall l | HasLock(t'.nodes, l) && l.id == g.id ensures l.expires <= now + seconds * 10_000_000 {
        LocksAfterStep(t, s, l);
        NotHeld(t.nodes, g.id, l);
      }
    }
  }

  lemma NotHeld(nodes: seq<Node>, id: int, l: Lock)
    requires !Held(nodes, id) && l.id == id
    ensures !HasLock(nodes, l)
  {
    assert forall n :: n in nodes && l in n.locks ==> l.id in Ids(n.locks);
  }

  lemma OnePlace(locks: seq<Lock>, i: nat, j: nat)
    requires DistinctIds(locks) && i < |locks| && j < |locks| && locks[i].id == locks[j].id
    ensures i == j
  {
  }

  /** In a table an id is on one file and there on one lock. */
  lemma OneLock(t: Table, a: Lock, b: Lock)
    requires Inv(t) && HasLock(t.nodes, a) && HasLock(t.nodes, b) && a.id == b.id
    ensures a == b
  {
    var n :| n in t.nodes && a in n.locks;
    var m :| m in t.nodes && b in m.locks;
    assert a.id in Ids(n.locks) && a.id in Ids(m.locks);
    OneNode(t, n, m);
    var k :| 0 <= k < |t.nodes| && t.nodes[k] == n;
    assert NodeOk(t.nodes[k], t.nextId);
    var i :| 0 <= i < |n.locks| && n.locks[i] == a;
    var j :| 0 <= j < |n.locks| && n.locks[j] == b;
    OnePlace(n.locks, i, j);
  }

  lemma RefreshIsDue(t: Table, file: string, id: int, now: int, seconds: nat)
    requires Inv(t) && seconds * 1000 < 0x1_0000_0000
    ensures var (t', ok) := Refresh(t, file, id, now, seconds);
      ok ==> Inv(t') && id < t'.nextId && Due(t', id, now + seconds * 10_000_000)
  {
    hide Inv, HasLock, Expiry;
    var (t', ok) := Refresh(t, file, id, now, seconds);
    RefreshKeepsInv(t, file, id, now, seconds);
    LeaseIsExact(now, seconds);
    if ok {
      var i := IndexOfFile(t.nodes, file);
      var j := IndexOfLock(t.nodes[i].locks, id);
      var lease := Lock(id, Expiry(now, seconds), seconds);
      assert t'.nodes[i].locks[j] == lease;
      LockOf(t'.nodes, i, lease);
      assert id in Ids(t.nodes[i].locks) && t.nodes[i] in t.nodes;
      IdsBelowNext(t, t.nodes[i], id);
      forall l | HasLock(t'.nodes, l) && l.id == id ensures l.expires <= now + seconds * 10_000_000 {
        OneLock(t', l, lease);
      }
    }
  }

  /** What LeaseEnds says of a lock just granted. */
  lemma GrantEnds(t: Table, file: string, mode: Mode, granted: int, seconds: nat, luck: Luck,
                  before: seq<Step>, now: int, after: seq<Step>)
    requires Inv(t) && seconds * 1000 < 0x1_0000_0000
    ensures var (t', g) := Create(t, file, mode, granted, seconds, luck);
      var until := granted + seconds * 10_000_000;
      && g.Granted? && until < now
      && (forall s :: s in before ==> !Prolongs(s, g.id, until))
      && Idle(Run(t', before), g.id) ==>
        !Held(Run(Sweep(Run(t', before), now), after).nodes, g.id)
  {
    hide Inv, Due, Held, Create, Prolongs, Idle;
    var (t', g) := Create(t, file, mode, granted, seconds, luck);
    var until := granted + seconds * 10_000_000;
    GrantIsDue(t, file, mode, granted, seconds, luck);
    if g.Granted? && until < now && (forall s :: s in before ==> !Prolongs(s, g.id, until))
      && Idle(Run(t', before), g.id)
    {
      LeaseEnds(t', before, now, after, g.id, until);
    }
  }

  /** What LeaseEnds says of a lock just refreshed. */
  lemma RefreshEnds(t: Table, file: string, id: int, refreshed: int, seconds: nat,
                    before: seq<Step>, now: int, after: seq<Step>)
    requires Inv(t) && seconds * 1000 < 0x1_0000_0000
    ensures var (t', ok) := Refresh(t, file, id, refreshed, seconds);
      var until := refreshed + seconds * 10_000_000;
      && ok && until < now
      && (forall s :: s in before ==> !Prolongs(s, id, until))
      && Idle(Run(t', before), id) ==>
        !Held(Run(Sweep(Run(t', before), now), after).nodes, id)
  {
    hide Inv, Due, Held, Refresh, Prolongs, Idle;
    var (t', ok) := Refresh(t, file, id, refreshed, seconds);
    var until := refreshed + seconds * 10_000_000;
    RefreshIsDue(t, file, id, refreshed, seconds);
    if ok && until < now && (forall s :: s in before ==> !Prolongs(s, id, until)) && Idle(Run(t', before), id) {
      LeaseEnds(t', before, now, after, id, until);
    }
  }

  // ---------- Nobody else ends a lock ----------

  /**
    A step that cannot end lock `id` of `file` before `until`, if nobody else has a lock there: it does not
    unlock it, shorten it, come after its time, or end a MOVE of the file; and a DELETE of the file does not
    come from a client that knows the lock.
  */
  predicate Foreign(s: Step, file: string, id: int, until: int) {
    match s
    case DeleteFileStep(f, ids) => SamePath(file, f) ==> id !in ids
    case _ => Spares(s, file, id, until)
  }

  lemma ForeignStep(t: Table, s: Step, file: string, id: int, until: int)
    requires Inv(t) && HeldAlone(t, file, id) && Leased(t, file, id, until) && Foreign(s, file, id, until)
    ensures HeldAlone(Apply(t, s), file, id) && Leased(Apply(t, s), file, id, until)
  {
    hide Inv, HeldAlone, Leased, Drop, CanPerform, SamePath;
    if s.DeleteFileStep? && SamePath(file, s.file) {
      SamePathSymmetric(file, s.file);
      AloneExcludes(t, file, id, file, Exclusive, 0, 0, AllGood, s.file, [], s.ids);
      assert Apply(t, s) == t;
    } else {
      LeaseSurvivesStep(t, s, file, id, until);
      LeasedIsHeld(Apply(t, s), file, id, until);
      AloneOrGone(t, s, file, id);
    }
  }

  lemma LeasedIsHeld(t: Table, file: string, id: int, until: int)
    requires Leased(t, file, id, until)
    ensures Held(t.nodes, id)
  {
    var n, l :| n in t.nodes && SamePath(n.name, file) && l in n.locks && l.id == id && l.expires >= until;
    assert l.id in Ids(n.locks);
  }

  /**
    An exclusive lock lasts its time against everyone: whatever clients do that do not know it, whatever they
    try to lock, delete, move or copy, the file stays locked by it alone.
  */
  lemma {:induction false} LastsAgainstOthers(t: Table, steps: seq<Step>, file: string, id: int, until: int)
    requires Inv(t) && HeldAlone(t, file, id) && Leased(t, file, id, until)
    requires forall s :: s in steps ==> Foreign(s, file, id, until)
    ensures HeldAlone(Run(t, steps), file, id) && Leased(Run(t, steps), file, id, until)
    decreases |steps|
  {
    hide Inv, HeldAlone, Leased, Apply, Foreign;
    if steps != [] {
      ForeignStep(t, steps[0], file, id, until);
      StepKeepsInv(t, steps[0]);
      LastsAgainstOthers(Apply(t, steps[0]), steps[1..], file, id, until);
    }
  }
}
