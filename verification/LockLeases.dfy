/** How long locks last: what a sweep removes, and what no run of steps can take away in time. */
module LockLeases {
  import opened PathNames
  import opened LockTable

  // ---------- Leases ----------

  /** The 32-bit product in Expiry is exact just for leases under 2^32 milliseconds; a second has 10^7 ticks. */
  lemma LeaseIsExact(now: int, seconds: nat)
    ensures Expiry(now, seconds) == now + seconds * 10_000_000 <==> seconds * 1000 < 0x1_0000_0000
    ensures exists k: nat ::
      && 0 <= seconds * 1000 - k * 0x1_0000_0000 < 0x1_0000_0000
      && Expiry(now, seconds) == now + (seconds * 1000 - k * 0x1_0000_0000) * 10_000
  {
    var p := seconds * 1000;
    assert p % 0x1_0000_0000 == p <==> p < 0x1_0000_0000;
    var k: nat := p / 0x1_0000_0000;
    assert p - k * 0x1_0000_0000 == p % 0x1_0000_0000;
  }

  /** A lock survives a sweep if and only if its file is busy or its time has not passed. */
  lemma {:induction false} SweepExactly(nodes: seq<Node>, now: int, name: string, l: Lock)
    ensures (exists n :: n in SweepNodes(nodes, now) && n.name == name && l in n.locks)
       <==> (exists n :: n in nodes && n.name == name && l in n.locks && (n.busy || now <= l.expires))
  {
    if nodes != [] {
      SweepExactly(nodes[1..], now, name, l);
      var n, r := Swept(nodes[0], now), SweepNodes(nodes[1..], now);
      assert forall m :: m in nodes <==> m == nodes[0] || m in nodes[1..];
      assert forall m :: m in SweepNodes(nodes, now) <==> (m == n && n.locks != []) || m in r;
    }
  }

  /** The nodes a sweep keeps are those that keep a lock. */
  lemma {:induction false} SweepKeepsNodes(nodes: seq<Node>, now: int, n: Node)
    ensures n in SweepNodes(nodes, now) <==> n.locks != [] && exists m :: m in nodes && Swept(m, now) == n
  {
    if nodes != [] {
      SweepKeepsNodes(nodes[1..], now, n);
      assert forall m :: m in nodes <==> m == nodes[0] || m in nodes[1..];
    }
  }

  /** Files, and the locks of a file, stay in order: a sweep works on the parts of a list separately. */
  lemma {:induction false} SweepInOrder(a: seq<Node>, b: seq<Node>, now: int)
    ensures SweepNodes(a + b, now) == SweepNodes(a, now) + SweepNodes(b, now)
  {
    if a == [] {
      assert a + b == b;
    } else {
      SweepInOrder(a[1..], b, now);
      assert (a + b)[1..] == a[1..] + b && (a + b)[0] == a[0];
      var n := Swept(a[0], now);
      var first := if n.locks == [] then [] else [n];
      assert first + SweepNodes(a[1..], now) + SweepNodes(b, now)
        == first + (SweepNodes(a[1..], now) + SweepNodes(b, now));
    }
  }

  lemma {:induction false} UnexpiredInOrder(a: seq<Lock>, b: seq<Lock>, now: int)
    ensures Unexpired(a + b, now) == Unexpired(a, now) + Unexpired(b, now)
  {
    if a == [] {
      assert a + b == b;
    } else {
      UnexpiredInOrder(a[1..], b, now);
      assert (a + b)[1..] == a[1..] + b && (a + b)[0] == a[0];
    }
  }

  /** Two sweeps in a row do what the later one does alone. */
  lemma {:induction false} SweepTwice(nodes: seq<Node>, now: int, later: int)
    requires now <= later && forall n :: n in nodes ==> n.locks != []
    ensures SweepNodes(SweepNodes(nodes, now), later) == SweepNodes(nodes, later)
  {
    if nodes != [] {
      SweepTwice(nodes[1..], now, later);
      UnexpiredTwice(nodes[0].locks, now, later);
      var n, r := Swept(nodes[0], now), SweepNodes(nodes[1..], now);
      if n.locks != [] {
        assert ([n] + r)[1..] == r;
      } else {
        assert [] + r == r;
      }
    }
  }

  lemma {:induction false} UnexpiredTwice(locks: seq<Lock>, now: int, later: int)
    requires now <= later
    ensures Unexpired(Unexpired(locks, now), later) == Unexpired(locks, later)
  {
    if locks != [] {
      UnexpiredTwice(locks[1..], now, later);
      var r := Unexpired(locks[1..], now);
      assert ([locks[0]] + r)[1..] == r;
    }
  }

  /** Lock `id` is held on `file` at least until `until`. */
  predicate Leased(t: Table, file: string, id: int, until: int) {
    exists n, l :: n in t.nodes && SamePath(n.name, file) && l in n.locks && l.id == id && l.expires >= until
  }

  /** A step that neither gives the lock up, nor deletes its file, nor comes after its time. */
  predicate Spares(s: Step, file: string, id: int, until: int) {
    match s
    case LockStep(_, _, _, _, _) => true
    case RefreshStep(_, i, now, seconds) => i == id ==> Expiry(now, seconds) >= until
    case UnlockStep(i) => i != id
    case SweepStep(now) => now <= until
    case DeleteFileStep(f, _) => !SamePath(file, f)
    case BeginMoveCopy(_, _, _) => true
    case FailedMoveCopy(_, _, _) => true
    case EndMoveCopy(_, gone) => forall f :: f in gone ==> !SamePath(file, f)
  }

  lemma LeaseByChange(t: Table, i: nat, n: Node, nextId: int, file: string, id: int, until: int)
    requires i < |t.nodes| && n.name == t.nodes[i].name && Leased(t, file, id, until)
    requires forall l :: l in t.nodes[i].locks && l.id == id && l.expires >= until ==>
      exists l' :: l' in n.locks && l'.id == id && l'.expires >= until
    ensures Leased(Table(t.nodes[i := n], nextId), file, id, until)
  {
    var r := t.nodes[i := n];
    var m, l :| m in t.nodes && SamePath(m.name, file) && l in m.locks && l.id == id && l.expires >= until;
    var k :| 0 <= k < |t.nodes| && t.nodes[k] == m;
    assert r[k] in r;
    if k == i {
      var l' :| l' in n.locks && l'.id == id && l'.expires >= until;
      assert r[k] == n && l' in r[k].locks;
    } else {
      assert r[k] == m;
    }
  }

  lemma LeaseSurvivesLock(t: Table, s: Step, file: string, id: int, until: int)
    requires s.LockStep? && Leased(t, file, id, until)
    ensures Leased(Apply(t, s), file, id, until)
  {
    var (t', g) := Create(t, s.file, s.mode, s.now, s.seconds, s.luck);
    var i := IndexOfFile(t.nodes, s.file);
    if g.Granted? && i < |t.nodes| {
      LeaseByChange(t, i, t'.nodes[i], t'.nextId, file, id, until);
    } else if g.Granted? {
      assert forall n :: n in t.nodes ==> n in t'.nodes;
    }
  }

  lemma LeaseSurvivesRefresh(t: Table, s: Step, file: string, id: int, until: int)
    requires s.RefreshStep? && Leased(t, file, id, until) && Spares(s, file, id, until)
    ensures Leased(Apply(t, s), file, id, until)
  {
    var (t', ok) := Refresh(t, s.file, s.id, s.now, s.seconds);
    if ok {
      var i := IndexOfFile(t.nodes, s.file);
      var locks := t.nodes[i].locks;
      var j := IndexOfLock(locks, s.id);
      var locks' := t'.nodes[i].locks;
      forall l | l in locks && l.id == id && l.expires >= until
        ensures exists l' :: l' in locks' && l'.id == id && l'.expires >= until
      {
        var k :| 0 <= k < |locks| && locks[k] == l;
        assert locks'[k] in locks';
      }
      LeaseByChange(t, i, t'.nodes[i], t'.nextId, file, id, until);
    }
  }

  lemma LeaseSurvivesUnlock(t: Table, s: Step, file: string, id: int, until: int)
    requires s.UnlockStep? && s.id != id && Leased(t, file, id, until)
    ensures Leased(Apply(t, s), file, id, until)
  {
    var (t', ok) := Delete(t, s.id);
    if ok {
      var i := IndexOfId(t.nodes, s.id);
      var n := t.nodes[i];
      var j := IndexOfLock(n.locks, s.id);
      var locks' := n.locks[..j] + n.locks[j + 1..];
      assert forall l :: l in n.locks ==> l == n.locks[j] || l in locks';
      if locks' != [] {
        LeaseByChange(t, i, n.(locks := locks'), t'.nextId, file, id, until);
      } else {
        assert forall l :: l in n.locks ==> l.id != id;
        assert forall m :: m in t.nodes && m != n ==> m in t'.nodes;
      }
    }
  }

  lemma LeaseSurvivesSweep(t: Table, s: Step, file: string, id: int, until: int)
    requires s.SweepStep? && s.now <= until && Leased(t, file, id, until)
    ensures Leased(Apply(t, s), file, id, until)
  {
    var n, l :| n in t.nodes && SamePath(n.name, file) && l in n.locks && l.id == id && l.expires >= until;
    SweepExactly(t.nodes, s.now, n.name, l);
  }

  lemma {:induction false} LeaseSurvivesDrops(t: Table, files: seq<string>, file: string, id: int, until: int)
    requires Leased(t, file, id, until) && forall f :: f in files ==> !SamePath(file, f)
    ensures Leased(DropAll(t, files), file, id, until)
    decreases |files|
  {
    if files != [] {
      LeaseSurvivesDrop(t, files[0], file, id, until);
      LeaseSurvivesDrops(Drop(t, files[0]), files[1..], file, id, until);
    }
  }

  lemma LeaseSurvivesDrop(t: Table, f: string, file: string, id: int, until: int)
    requires Leased(t, file, id, until) && !SamePath(file, f)
    ensures Leased(Drop(t, f), file, id, until)
  {
    var n, l :| n in t.nodes && SamePath(n.name, file) && l in n.locks && l.id == id && l.expires >= until;
    var i := IndexOfFile(t.nodes, f);
    if i < |t.nodes| {
      if t.nodes[i] == n {
        SamePathSymmetric(n.name, file);
        SamePathTransitive(file, n.name, f);
      }
      var k :| 0 <= k < |t.nodes| && t.nodes[k] == n;
      var r := t.nodes[..i] + t.nodes[i + 1..];
      assert r[if k < i then k else k - 1] == n;
    }
  }

  lemma {:induction false} LeaseSurvivesBusy(t: Table, files: seq<string>, busy: bool, file: string, id: int,
      until: int)
    requires Leased(t, file, id, until)
    ensures Leased(SetAllBusy(t, files, busy), file, id, until)
    decreases |files|
  {
    if files != [] {
      var i := IndexOfFile(t.nodes, files[0]);
      if i < |t.nodes| {
        LeaseByChange(t, i, t.nodes[i].(busy := busy), t.nextId, file, id, until);
      }
      LeaseSurvivesBusy(SetBusy(t, files[0], busy), files[1..], busy, file, id, until);
    }
  }

  lemma LeaseSurvivesStep(t: Table, s: Step, file: string, id: int, until: int)
    requires Leased(t, file, id, until) && Spares(s, file, id, until)
    ensures Leased(Apply(t, s), file, id, until)
  {
    match s
    case LockStep(_, _, _, _, _) => LeaseSurvivesLock(t, s, file, id, until);
    case RefreshStep(_, _, _, _) => LeaseSurvivesRefresh(t, s, file, id, until);
    case UnlockStep(_) => LeaseSurvivesUnlock(t, s, file, id, until);
    case SweepStep(_) => LeaseSurvivesSweep(t, s, file, id, until);
    case DeleteFileStep(f, _) => LeaseSurvivesDrop(t, f, file, id, until);
    case BeginMoveCopy(src, dst, _) => LeaseSurvivesBusy(t, [src, dst], true, file, id, until);
    case FailedMoveCopy(src, dst, _) => LeaseSurvivesBusy(t, [src, dst], false, file, id, until);
    case EndMoveCopy(held, gone) =>
      LeaseSurvivesBusy(t, held, false, file, id, until);
      LeaseSurvivesDrops(SetAllBusy(t, held, false), gone, file, id, until);
  }

  /**
    A lease over whole runs: a lock granted for some seconds, under 2^32 milliseconds, is there after
    every run whose sweeps come no later than that, unless it is given up or its file is deleted.
  */
  lemma {:induction false} LeaseHolds(t: Table, steps: seq<Step>, file: string, id: int, until: int)
    requires Leased(t, file, id, until) && forall s :: s in steps ==> Spares(s, file, id, until)
    ensures Leased(Run(t, steps), file, id, until)
    decreases |steps|
  {
    hide Leased, Apply, Spares;
    if steps != [] {
      LeaseSurvivesStep(t, steps[0], file, id, until);
      LeaseHolds(Apply(t, steps[0]), steps[1..], file, id, until);
    }
  }

  lemma GrantLeases(t: Table, file: string, mode: Mode, now: int, seconds: nat, luck: Luck)
    requires seconds * 1000 < 0x1_0000_0000
    ensures var (t', g) := Create(t, file, mode, now, seconds, luck);
      g.Granted? ==> Leased(t', file, g.id, now + seconds * 10_000_000)
  {
    LeaseIsExact(now, seconds);
    var (t', g) := Create(t, file, mode, now, seconds, luck);
    if g.Granted? {
      var i := IndexOfFile(t.nodes, file);
      SamePathReflexive(file);
      var n := t'.nodes[if i < |t.nodes| then i else 0];
      assert n in t'.nodes && SamePath(n.name, file);
      assert n.locks[0] in n.locks;
    }
  }

  lemma RefreshLeases(t: Table, file: string, id: int, now: int, seconds: nat)
    requires seconds * 1000 < 0x1_0000_0000
    ensures var (t', ok) := Refresh(t, file, id, now, seconds);
      ok ==> Leased(t', file, id, now + seconds * 10_000_000)
  {
    LeaseIsExact(now, seconds);
    var (t', ok) := Refresh(t, file, id, now, seconds);
    if ok {
      var i := IndexOfFile(t.nodes, file);
      var j := IndexOfLock(t.nodes[i].locks, id);
      assert t'.nodes[i] in t'.nodes;
      assert t'.nodes[i].locks[j] in t'.nodes[i].locks;
    }
  }
}
