/** What each step does to the table, said in terms of which file holds which lock. */
module LockEffects {
  import opened PathNames
  import opened LockTable
  import opened LockBusy

  /** In a table that keeps the invariant, a file has one node. */
  lemma OneNodePerFile(t: Table, k: nat, file: string)
    requires Inv(t) && k < |t.nodes| && SamePath(t.nodes[k].name, file)
    ensures IndexOfFile(t.nodes, file) == k
  {
    var i := IndexOfFile(t.nodes, file);
    if i < k {
      assert Apart(t.nodes[i], t.nodes[k]);
      SamePathSymmetric(t.nodes[k].name, file);
      SamePathTransitive(t.nodes[i].name, file, t.nodes[k].name);
    }
  }

  lemma SameFileSameNode(t: Table, a: string, b: string)
    requires Inv(t) && SamePath(a, b)
    ensures IndexOfFile(t.nodes, a) == IndexOfFile(t.nodes, b)
  {
    var i, j := IndexOfFile(t.nodes, a), IndexOfFile(t.nodes, b);
    if i < |t.nodes| {
      SamePathTransitive(t.nodes[i].name, a, b);
      OneNodePerFile(t, i, b);
    } else if j < |t.nodes| {
      SamePathSymmetric(a, b);
      SamePathTransitive(t.nodes[j].name, b, a);
    }
  }

  /**
    LOCK is refused exactly for a locked file of which one side wants to be alone; then, and when it
    fails, no lock changes.
  */
  lemma GrantedExactly(t: Table, file: string, mode: Mode, now: int, seconds: nat, luck: Luck)
    requires Inv(t)
    ensures var (u, g) := Create(t, file, mode, now, seconds, luck);
      var i := IndexOfFile(t.nodes, file);
      && (g == Refused <==> Locked(t, file) && (mode == Exclusive || t.nodes[i].mode == Exclusive))
      && (g.Granted? <==> g != Refused && luck != NoLock && (luck == AllGood || Locked(t, file)))
      && (!g.Granted? ==> u.nodes == t.nodes)
      && (g.Granted? ==> g.id == t.nextId)
      && u.nextId == t.nextId + if g.Granted? || (g == Failed && luck == NoLock) then 1 else 0
  {
  }

  /** A granted lock is held on its file, by any of its names, and that is all that changes. */
  lemma GrantAddsOne(t: Table, file: string, mode: Mode, now: int, seconds: nat, luck: Luck, f: string, id: int)
    requires Inv(t)
    ensures var (u, g) := Create(t, file, mode, now, seconds, luck);
      Associated(u, f, id) <==> Associated(t, f, id) || (g.Granted? && SamePath(file, f) && id == g.id)
  {
    hide Inv;
    var (u, g) := Create(t, file, mode, now, seconds, luck);
    var i := IndexOfFile(t.nodes, file);
    if SamePath(file, f) {
      SameFileSameNode(t, file, f);
    }
    if g.Granted? {
      if i < |t.nodes| {
        GrantToNode(t, i, u.nodes[i], u.nextId, f, id, g.id);
        if IndexOfFile(t.nodes, f) == i {
          SamePathSymmetric(t.nodes[i].name, file);
          SamePathTransitive(file, t.nodes[i].name, f);
        }
      } else {
        var n := u.nodes[0];
        assert n.locks[0] in n.locks && Ids(n.locks) == {g.id};
        assert u.nodes[1..] == t.nodes;
      }
    }
  }

  lemma GrantToNode(t: Table, i: nat, n: Node, nextId: int, f: string, id: int, granted: int)
    requires i < |t.nodes| && n.name == t.nodes[i].name && n.locks != []
    requires n.locks[0].id == granted && n.locks[1..] == t.nodes[i].locks
    ensures Associated(Table(t.nodes[i := n], nextId), f, id) <==>
      Associated(t, f, id) || (IndexOfFile(t.nodes, f) == i && id == granted)
  {
    IndexAfterChange(t.nodes, i, n, f);
    assert forall l :: l in n.locks <==> l == n.locks[0] || l in n.locks[1..];
  }

  /** A new lease takes no lock away and gives none. */
  lemma RefreshMovesNone(t: Table, file: string, x: int, now: int, seconds: nat, f: string, id: int)
    ensures var (u, ok) := Refresh(t, file, x, now, seconds);
      && (ok <==> Associated(t, file, x))
      && (Associated(u, f, id) <==> Associated(t, f, id))
  {
    var i := IndexOfFile(t.nodes, file);
    if i < |t.nodes| {
      var locks := t.nodes[i].locks;
      var j := IndexOfLock(locks, x);
      if j < |locks| {
        var l := Lock(x, Expiry(now, seconds), seconds);
        SameIds(locks, locks[j := l]);
        IndexAfterChange(t.nodes, i, t.nodes[i].(locks := locks[j := l]), f);
        assert locks[j] in locks;
      }
    }
  }

  /**
    UNLOCK works exactly for a lock that is held on a file that is not busy; it takes that lock, and
    no other, away.
  */
  lemma UnlockTakesOne(t: Table, x: int, f: string, id: int)
    requires Inv(t)
    ensures var (u, ok) := Delete(t, x);
      && (ok <==> IndexOfId(t.nodes, x) < |t.nodes| && !t.nodes[IndexOfId(t.nodes, x)].busy)
      && (Associated(u, f, id) <==> Associated(t, f, id) && !(ok && id == x))
  {
    hide Inv;
    var i := IndexOfId(t.nodes, x);
    if i < |t.nodes| && !t.nodes[i].busy {
      var n := t.nodes[i];
      var j := IndexOfLock(n.locks, x);
      LockIsThere(n.locks, x);
      var n' := n.(locks := n.locks[..j] + n.locks[j + 1..]);
      NodeIsOk(t, i);
      IdsWithout(n.locks, j);
      OnlyThere(t, i, x, f);
      if n'.locks == [] {
        WithoutNode(t, i, f, id);
      } else {
        IndexAfterChange(t.nodes, i, n', f);
      }
    }
  }

  lemma LockIsThere(locks: seq<Lock>, id: int)
    requires id in Ids(locks)
    ensures IndexOfLock(locks, id) < |locks|
  {
    var k :| 0 <= k < |locks| && locks[k].id == id;
  }

  lemma NodeIsOk(t: Table, i: nat)
    requires Inv(t) && i < |t.nodes|
    ensures NodeOk(t.nodes[i], t.nextId)
  {
  }

  lemma IdsWithout(locks: seq<Lock>, j: nat)
    requires DistinctIds(locks) && j < |locks|
    ensures Ids(locks[..j] + locks[j + 1..]) == Ids(locks) - {locks[j].id}
  {
    var r := locks[..j] + locks[j + 1..];
    forall id ensures id in Ids(r) <==> id in Ids(locks) && id != locks[j].id {
      if id in Ids(r) {
        var k :| 0 <= k < |r| && r[k].id == id;
        assert r[k] == locks[if k < j then k else k + 1] && r[k] in locks;
      }
      if id in Ids(locks) && id != locks[j].id {
        var k :| 0 <= k < |locks| && locks[k].id == id;
        assert r[if k < j then k else k - 1] == locks[k];
        assert locks[k] in r;
      }
    }
  }

  /** A lock is held on one file only. */
  lemma OnlyThere(t: Table, i: nat, x: int, f: string)
    requires Inv(t) && i < |t.nodes| && x in Ids(t.nodes[i].locks)
    ensures Associated(t, f, x) ==> IndexOfFile(t.nodes, f) == i
  {
    var k := IndexOfFile(t.nodes, f);
    if k < i {
      assert Apart(t.nodes[k], t.nodes[i]);
    } else if i < k < |t.nodes| {
      assert Apart(t.nodes[i], t.nodes[k]);
    }
  }

  lemma WithoutNode(t: Table, i: nat, f: string, id: int)
    requires Inv(t) && i < |t.nodes|
    ensures Associated(t.(nodes := t.nodes[..i] + t.nodes[i + 1..]), f, id) <==>
      Associated(t, f, id) && IndexOfFile(t.nodes, f) != i
  {
    var k := IndexOfFile(t.nodes, f);
    var u := t.(nodes := t.nodes[..i] + t.nodes[i + 1..]);
    RemovalKeepsOk(t.nodes, t.nextId, i);
    var m := IndexOfFile(u.nodes, f);
    if m < |u.nodes| {
      OneNodePerFile(t, if m < i then m else m + 1, f);
    }
    if k < |t.nodes| && k != i {
      OneNodePerFile(u, if k < i then k else k - 1, f);
    }
  }

  /** Deleting a file takes its locks away, and no others. */
  lemma DropTakesFile(t: Table, file: string, f: string, id: int)
    requires Inv(t)
    ensures Associated(Drop(t, file), f, id) <==> Associated(t, f, id) && !SamePath(file, f)
  {
    hide Inv;
    var i := IndexOfFile(t.nodes, file);
    if SamePath(file, f) {
      SameFileSameNode(t, file, f);
    }
    if i < |t.nodes| {
      WithoutNode(t, i, f, id);
      if IndexOfFile(t.nodes, f) == i {
        SamePathSymmetric(t.nodes[i].name, file);
        SamePathTransitive(file, t.nodes[i].name, f);
      }
    }
  }

  /** The client knows a lock of the file. */
  predicate Knows(t: Table, file: string, ids: seq<int>) {
    exists id :: id in ids && Associated(t, file, id)
  }

  /**
    Who may change two files: without lock ids anyone if neither is locked; with some, just those who
    know a lock of each of the two that is locked, and at least one of them has to be.
  */
  lemma MayPerform(t: Table, file1: string, file2: string, ids: seq<int>)
    ensures CanPerform(t, file1, [file2], ids) <==>
      if ids == [] then !Locked(t, file1) && !Locked(t, file2)
      else (
        && (Locked(t, file1) || Locked(t, file2))
        && (Locked(t, file1) ==> Knows(t, file1, ids)) && (Locked(t, file2) ==> Knows(t, file2, ids)))
  {
    hide IndexOfFile;
    forall file | Locked(t, file)
      ensures HoldsOneOf(t.nodes[IndexOfFile(t.nodes, file)], ids) <==>
        exists id :: id in ids && Associated(t, file, id)
    {
      forall id ensures Associated(t, file, id) <==> id in Ids(t.nodes[IndexOfFile(t.nodes, file)].locks) {
      }
    }
  }

  /** A DELETE takes the locks of its file, if the client knows one of them; otherwise it takes nothing. */
  lemma DeleteExactly(t: Table, file: string, ids: seq<int>, f: string, id: int)
    requires Inv(t)
    ensures Associated(Apply(t, DeleteFileStep(file, ids)), f, id)
      <==> Associated(t, f, id) && !(SamePath(file, f) && Knows(t, file, ids))
  {
    hide Inv, Drop, Associated, SamePath;
    DropTakesFile(t, file, f, id);
    KnowsExactly(t, file, ids);
    if SamePath(file, f) && !Locked(t, file) {
      NotLocked(t, file, f, id);
    }
  }

  lemma KnowsExactly(t: Table, file: string, ids: seq<int>)
    ensures Knows(t, file, ids) <==> ids != [] && Locked(t, file) && CanPerform(t, file, [], ids)
  {
    hide IndexOfFile;
    forall id ensures Locked(t, file) ==>
      (Associated(t, file, id) <==> id in Ids(t.nodes[IndexOfFile(t.nodes, file)].locks))
    {
    }
  }

  lemma NotLocked(t: Table, file: string, f: string, id: int)
    requires Inv(t) && SamePath(file, f) && !Locked(t, file)
    ensures !Associated(t, f, id)
  {
    SameFileSameNode(t, file, f);
  }

  /** A MOVE or COPY that the client may not do changes nothing, whether it would begin or fail to. */
  lemma DeniedDoesNothing(t: Table, src: string, dst: string, ids: seq<int>)
    requires if ids == [] then Locked(t, src) || Locked(t, dst)
      else
        || (!Locked(t, src) && !Locked(t, dst))
        || (Locked(t, src) && !Knows(t, src, ids)) || (Locked(t, dst) && !Knows(t, dst, ids))
    ensures Apply(t, BeginMoveCopy(src, dst, ids)) == t == Apply(t, FailedMoveCopy(src, dst, ids))
  {
    hide Locked, Associated, CanPerform;
    MayPerform(t, src, dst, ids);
  }
}
