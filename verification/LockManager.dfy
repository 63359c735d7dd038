/**
  The lock manager's linked lists: files in a list, and the locks of each file in a list of their own.
  Every method carries out one step of module LockTable on the table the lists stand for.
*/
module LockManager {
  import opened CStrings
  import opened PathNames
  import opened LockTable
  import opened LockLeases
  import opened LockBusy

  /** CWebDavLock. */
  class LockCell {
    var next: LockCell?
    var id: int
    var expires: int
    var baseTimeout: nat

    constructor (id: int, now: int, seconds: nat)
      ensures next == null && Value() == Lock(id, Expiry(now, seconds), seconds)
    {
      next := null;
      this.id := id;
      new;
      SetTimeout(now, seconds);
    }

    ghost function Value(): Lock
      reads this
    {
      Lock(id, expires, baseTimeout)
    }

    method SetTimeout(now: int, seconds: nat)
      modifies this`expires, this`baseTimeout
      ensures Value() == Lock(id, Expiry(now, seconds), seconds)
    {
      expires := now + seconds * 1000 % 0x1_0000_0000 * TICKS_PER_MILLISECOND;
      baseTimeout := seconds;
    }

    predicate HasLockExpired(now: int)
      reads this
      ensures HasLockExpired(now) <==> !(now <= expires)
    {
      now > expires
    }
  }

  /** The cell behind position i, or null. */
  ghost function CellAfter(cells: seq<LockCell>, i: nat): LockCell? {
    if i + 1 < |cells| then cells[i + 1] else null
  }

  /** `cells` are the cells one meets from `head` on, and `locks` what they hold. */
  ghost predicate CellChain(head: LockCell?, cells: seq<LockCell>, locks: seq<Lock>)
    reads cells
  {
    && head == (if cells == [] then null else cells[0])
    && |locks| == |cells|
    && (forall i {:trigger cells[i].next} :: 0 <= i < |cells| ==> cells[i].next == CellAfter(cells, i))
    && (forall i {:trigger locks[i]} :: 0 <= i < |cells| ==> cells[i].Value() == locks[i])
    && (forall i, j :: 0 <= i < j < |cells| ==> cells[i] != cells[j])
  }

  lemma PushCell(c: LockCell, head: LockCell?, cells: seq<LockCell>, locks: seq<Lock>)
    requires CellChain(head, cells, locks) && c.next == head && c !in cells
    ensures CellChain(c, [c] + cells, [c.Value()] + locks)
  {
  }

  /** A chain around whose element at `at` one link leads. */
  lemma CutCell(head: LockCell?, cells: seq<LockCell>, locks: seq<Lock>, at: nat)
    requires at < |cells| == |locks| && forall i, j :: 0 <= i < j < |cells| ==> cells[i] != cells[j]
    requires forall i {:trigger locks[i]} :: 0 <= i < |cells| ==> cells[i].Value() == locks[i]
    requires forall i {:trigger cells[i].next} ::
      0 <= i < |cells| && i != at && i + 1 != at ==> cells[i].next == CellAfter(cells, i)
    requires if at == 0 then head == CellAfter(cells, at)
      else head == cells[0] && cells[at - 1].next == CellAfter(cells, at)
    ensures CellChain(head, cells[..at] + cells[at + 1..], locks[..at] + locks[at + 1..])
  {
    var r := cells[..at] + cells[at + 1..];
    forall i | 0 <= i < |r| ensures r[i].next == CellAfter(r, i) {
      assert r[i] == cells[if i < at then i else i + 1];
    }
  }

  /** CWebDavFileNode. */
  class FileNode {
    var next: FileNode?
    var lockList: LockCell?
    const fileName: string
    const shareMode: Mode
    var busy: bool
    /** The cells of lockList, and the locks they hold, in order. */
    ghost var cells: seq<LockCell>
    ghost var locks: seq<Lock>

    ghost predicate Valid()
      reads this`lockList, this`cells, this`locks, cells
    {
      CellChain(lockList, cells, locks) && NoNul(fileName)
    }

    ghost function CellSet(): set<LockCell>
      reads this`cells
    {
      set c | c in cells
    }

    ghost function Value(): Node
      reads this`busy, this`locks
    {
      Node(fileName, shareMode, busy, locks)
    }

    constructor (fileName: string, shareMode: Mode)
      requires NoNul(fileName)
      ensures Valid() && cells == [] && next == null && Value() == Node(fileName, shareMode, false, [])
    {
      this.fileName, this.shareMode := fileName, shareMode;
      next, lockList, busy, cells, locks := null, null, false, [], [];
    }

    method AddLock(id: int, now: int, seconds: nat)
      requires Valid()
      modifies this`lockList, this`cells, this`locks
      ensures Valid() && fresh(CellSet() - old(CellSet()))
      ensures locks == [Lock(id, Expiry(now, seconds), seconds)] + old(locks)
    {
      var lock := new LockCell(id, now, seconds);
      lock.next := lockList;
      PushCell(lock, lockList, cells, locks);
      lockList := lock;
      cells, locks := [lock] + cells, [lock.Value()] + locks;
    }

    /** The cell of lock `id`, if the file has it. */
    method FindLock(id: int) returns (lock: LockCell?, ghost at: nat)
      requires Valid()
      ensures |cells| == |locks|
        && lock == if IndexOfLock(locks, id) < |cells| then cells[IndexOfLock(locks, id)] else null
      ensures at == IndexOfLock(locks, id)
    {
      hide IndexOfLock;
      lock, at := lockList, 0;
      while lock != null
        invariant at <= |cells| && lock == if at < |cells| then cells[at] else null
        invariant forall k :: 0 <= k < at ==> locks[k].id != id
        decreases |cells| - at
      {
        assert lock.Value() == locks[at];
        if lock.id == id {
          break;
        }
        lock, at := lock.next, at + 1;
      }
      IndexOfLockIs(locks, id, at);
    }

    method HasLockId(id: int) returns (has: bool)
      requires Valid()
      ensures has <==> id in Ids(locks)
    {
      ghost var at;
      var lock;
      lock, at := FindLock(id);
      IndexOfLockIs(locks, id, at);
      has := lock != null;
    }

    method HasLockIdInArray(ids: seq<int>) returns (has: bool)
      requires Valid()
      ensures has <==> HoldsOneOf(Value(), ids)
    {
      for i := 0 to |ids|
        invariant forall k :: 0 <= k < i ==> ids[k] !in Ids(locks)
      {
        has := HasLockId(ids[i]);
        if has {
          assert ids[i] in ids;
          return;
        }
      }
      has := false;
    }

    method RefreshLock(lock: LockCell, now: int, seconds: nat, ghost at: nat)
      requires Valid() && at < |cells| && cells[at] == lock
      modifies this`locks, lock
      ensures Valid() && at < |old(locks)|
      ensures locks == old(locks)[at := Lock(old(locks)[at].id, Expiry(now, seconds), seconds)]
    {
      assert lock.Value() == locks[at];
      lock.SetTimeout(now, seconds);
      locks := locks[at := lock.Value()];
    }

    /** Takes the cell behind `follow` (or, without one, the first cell) out of the list. */
    method Unlink(follow: LockCell?, behind: LockCell?, ghost at: nat)
      requires Valid() && at < |cells|
      requires follow == (if at == 0 then null else cells[at - 1]) && behind == CellAfter(cells, at)
      modifies this`lockList, this`cells, this`locks, CellSet()
      ensures Valid() && |old(locks)| == |old(cells)| && locks == old(locks)[..at] + old(locks)[at + 1..]
      ensures cells == old(cells)[..at] + old(cells)[at + 1..] && CellSet() <= old(CellSet())
    {
      if follow != null {
        follow.next := behind;
      } else {
        lockList := behind;
      }
      CutCell(lockList, cells, locks, at);
      cells, locks := cells[..at] + cells[at + 1..], locks[..at] + locks[at + 1..];
    }

    /** Removes a lock, unless the file is busy. */
    method DeleteLock(lock: LockCell, ghost at: nat) returns (ok: bool)
      requires Valid() && at < |cells| && cells[at] == lock
      modifies this`lockList, this`cells, this`locks, CellSet()
      ensures Valid() && ok == !busy && CellSet() <= old(CellSet()) && at < |old(locks)|
      ensures locks == if ok then old(locks)[..at] + old(locks)[at + 1..] else old(locks)
    {
      if busy {
        return false;
      }
      var trav, follow: LockCell? := lockList, null;
      ghost var i := 0;
      while trav != null && trav != lock
        invariant i <= at && trav == cells[i] && follow == if i == 0 then null else cells[i - 1]
        decreases at - i
      {
        follow := trav;
        trav := trav.next;
        i := i + 1;
      }
      Unlink(follow, trav.next, at);
      return true;
    }

    /** The sweep has looked at `done` of the original locks; `at` of them are kept, and trav and follow point there. */
    ghost predicate Sweeping(values: seq<Lock>, done: nat, now: int, at: nat, trav: LockCell?, follow: LockCell?)
      reads this, cells
    {
      && Valid() && done <= |values| && at <= |cells|
      && locks == Unexpired(values[..done], now) + values[done..]
      && at == |Unexpired(values[..done], now)|
      && trav == (if at < |cells| then cells[at] else null)
      && follow == (if at == 0 then null else cells[at - 1])
    }

    /** One lock of the sweep. */
    method SweepOne(trav: LockCell, follow: LockCell?, now: int, ghost values: seq<Lock>, ghost done: nat,
        ghost at: nat)
      returns (next: LockCell?, last: LockCell?, ghost at': nat)
      requires Sweeping(values, done, now, at, trav, follow)
      modifies this`lockList, this`cells, this`locks, CellSet()
      ensures done < |values| && Sweeping(values, done + 1, now, at', next, last)
      ensures CellSet() <= old(CellSet())
    {
      hide Unexpired;
      next := trav.next;
      ghost var before, was := Unexpired(values[..done], now), locks;
      assert |was| == |before| + (|values| - done);
      UnexpiredNext(values, done, now);
      assert values[done..] == [values[done]] + values[done + 1..];
      assert trav.Value() == was[at] == values[done];
      if trav.HasLockExpired(now) {
        Unlink(follow, next, at);
        assert was[..at] == before && was[at + 1..] == values[done + 1..];
        last, at' := follow, at;
      } else {
        last, at' := trav, at + 1;
        assert before + [values[done]] + values[done + 1..] == was;
      }
    }

    /** Removes the expired locks, unless the file is busy. */
    method RemoveTimedOutLocks(now: int)
      requires Valid()
      modifies this`lockList, this`cells, this`locks, CellSet()
      ensures Valid() && Value() == Swept(old(Value()), now)
      ensures forall l :: l in locks <==> l in old(locks) && (busy || now <= l.expires)
      ensures CellSet() <= old(CellSet())
    {
      hide Unexpired, Sweeping, Valid;
      if busy {
        return;
      }
      ghost var values, done, at := locks, 0, 0;
      var trav, follow: LockCell? := lockList, null;
      SweepStarts(now);
      while trav != null
        invariant done <= |values| && Sweeping(values, done, now, at, trav, follow)
        invariant CellSet() <= old(CellSet())
        decreases |values| - done
      {
        trav, follow, at := SweepOne(trav, follow, now, values, done, at);
        done := done + 1;
      }
      SweepEnds(values, done, now, at, follow);
    }

    lemma SweepStarts(now: int)
      requires Valid()
      ensures Sweeping(locks, 0, now, 0, lockList, null)
    {
      UnexpiredOfNone(locks[..0], now);
    }

    lemma SweepEnds(values: seq<Lock>, done: nat, now: int, at: nat, follow: LockCell?)
      requires done <= |values| && Sweeping(values, done, now, at, null, follow)
      ensures Valid() && locks == Unexpired(values, now)
    {
      hide Unexpired;
      assert |locks| == |Unexpired(values[..done], now)| + (|values| - done);
      assert values[..done] == values && values[done..] == [];
    }
  }

  /** One lock further. */
  lemma UnexpiredNext(locks: seq<Lock>, i: nat, now: int)
    requires i < |locks|
    ensures Unexpired(locks[..i + 1], now)
      == Unexpired(locks[..i], now) + (if Expired(locks[i], now) then [] else [locks[i]])
  {
    UnexpiredInOrder(locks[..i], [locks[i]], now);
    assert locks[..i] + [locks[i]] == locks[..i + 1];
    assert [locks[i]][1..] == [];
  }

  lemma UnexpiredOfNone(locks: seq<Lock>, now: int)
    requires locks == []
    ensures Unexpired(locks, now) == []
  {
  }

  lemma IndexOfLockIs(locks: seq<Lock>, id: int, at: nat)
    requires at <= |locks| && (at < |locks| ==> locks[at].id == id)
    requires forall k :: 0 <= k < at ==> locks[k].id != id
    ensures at == IndexOfLock(locks, id)
    ensures at < |locks| <==> id in Ids(locks)
  {
    var i := IndexOfLock(locks, id);
    if at < |locks| {
      assert locks[at] in locks;
    }
  }

  // ---------- The list of files ----------

  ghost function NodeAfter(nodes: seq<FileNode>, i: nat): FileNode? {
    if i + 1 < |nodes| then nodes[i + 1] else null
  }

  ghost predicate NodeChain(head: FileNode?, nodes: seq<FileNode>)
    reads (set n | n in nodes)`next
  {
    && head == (if nodes == [] then null else nodes[0])
    && (forall i {:trigger nodes[i].next} :: 0 <= i < |nodes| ==> nodes[i].next == NodeAfter(nodes, i))
    && (forall i, j :: 0 <= i < j < |nodes| ==> nodes[i] != nodes[j])
  }

  lemma PushNode(n: FileNode, head: FileNode?, nodes: seq<FileNode>)
    requires NodeChain(head, nodes) && n.next == head && n !in nodes
    ensures NodeChain(n, [n] + nodes)
  {
  }

  lemma CutNode(head: FileNode?, nodes: seq<FileNode>, at: nat)
    requires at < |nodes| && forall i, j :: 0 <= i < j < |nodes| ==> nodes[i] != nodes[j]
    requires forall i {:trigger nodes[i].next} ::
      0 <= i < |nodes| && i != at && i + 1 != at ==> nodes[i].next == NodeAfter(nodes, i)
    requires if at == 0 then head == NodeAfter(nodes, at)
      else head == nodes[0] && nodes[at - 1].next == NodeAfter(nodes, at)
    ensures NodeChain(head, nodes[..at] + nodes[at + 1..])
  {
    var r := nodes[..at] + nodes[at + 1..];
    forall i | 0 <= i < |r| ensures r[i].next == NodeAfter(r, i) {
      assert r[i] == nodes[if i < at then i else i + 1];
    }
  }

  /** The nodes are well-formed, hold `values`, and own their cells; all cells are among `cells`. */
  ghost predicate Contents(nodes: seq<FileNode>, values: seq<Node>, cells: set<LockCell>)
    reads (set n | n in nodes)`lockList, (set n | n in nodes)`busy,
      (set n | n in nodes)`cells, (set n | n in nodes)`locks, cells
  {
    && |values| == |nodes|
    && (forall i {:trigger nodes[i]} :: 0 <= i < |nodes| ==>
          nodes[i].CellSet() <= cells && nodes[i].Valid() && nodes[i].Value() == values[i])
    && (forall i, j :: 0 <= i < j < |nodes| ==> nodes[i].CellSet() !! nodes[j].CellSet())
  }

  lemma CutContents(nodes: seq<FileNode>, values: seq<Node>, cells: set<LockCell>, at: nat)
    requires Contents(nodes, values, cells) && at < |nodes|
    ensures |values| == |nodes|
    ensures Contents(nodes[..at] + nodes[at + 1..], values[..at] + values[at + 1..], cells)
  {
    var r, v := nodes[..at] + nodes[at + 1..], values[..at] + values[at + 1..];
    forall i | 0 <= i < |r| ensures r[i].CellSet() <= cells && r[i].Valid() && r[i].Value() == v[i] {
      assert r[i] == nodes[if i < at then i else i + 1];
    }
    forall i, j | 0 <= i < j < |r| ensures r[i].CellSet() !! r[j].CellSet() {
      assert r[i] == nodes[if i < at then i else i + 1] && r[j] == nodes[if j < at then j else j + 1];
    }
  }

  lemma PushContents(n: FileNode, nodes: seq<FileNode>, values: seq<Node>, cells: set<LockCell>)
    requires Contents(nodes, values, cells) && n.Valid() && n.CellSet() !! cells
    ensures Contents([n] + nodes, [n.Value()] + values, cells + n.CellSet())
  {
    var r := [n] + nodes;
    assert forall i :: 0 < i < |r| ==> r[i] == nodes[i - 1];
  }

  /** Contents of all the nodes but one. */
  ghost predicate Others(nodes: seq<FileNode>, values: seq<Node>, cells: set<LockCell>, node: FileNode)
    reads (set n | n in nodes && n != node), cells
  {
    && |values| == |nodes|
    && (forall i {:trigger nodes[i]} :: 0 <= i < |nodes| && nodes[i] != node ==>
          nodes[i].CellSet() <= cells && nodes[i].Valid() && nodes[i].Value() == values[i])
    && (forall i, j :: 0 <= i < j < |nodes| && nodes[i] != node && nodes[j] != node ==>
          nodes[i].CellSet() !! nodes[j].CellSet())
  }

  lemma SetNodeAside(head: FileNode?, nodes: seq<FileNode>, values: seq<Node>, cells: set<LockCell>, at: nat)
    requires NodeChain(head, nodes) && Contents(nodes, values, cells) && at < |nodes|
    ensures Others(nodes, values, cells - nodes[at].CellSet(), nodes[at])
    ensures nodes[at].Valid() && nodes[at].Value() == values[at] && nodes[at].CellSet() <= cells
  {
    hide CellChain;
    forall i | 0 <= i < |nodes| && nodes[i] != nodes[at] ensures nodes[i].CellSet() !! nodes[at].CellSet() {
      assert if i < at then nodes[i].CellSet() !! nodes[at].CellSet() else nodes[at].CellSet() !! nodes[i].CellSet();
    }
  }

  lemma PutNodeBack(head: FileNode?, nodes: seq<FileNode>, values: seq<Node>, rest: set<LockCell>, at: nat)
    requires NodeChain(head, nodes) && at < |nodes| && Others(nodes, values, rest, nodes[at])
    requires nodes[at].Valid() && nodes[at].CellSet() !! rest
    ensures |values| == |nodes|
    ensures Contents(nodes, values[at := nodes[at].Value()], rest + nodes[at].CellSet())
  {
    hide CellChain;
    forall i, j | 0 <= i < j < |nodes| ensures nodes[i].CellSet() !! nodes[j].CellSet() {
    }
  }

  /** CWebDavFileLockManager. */
  class FileLockManager {
    var fileList: FileNode?
    var nextId: int
    /** The nodes of fileList and what they hold, in order; and their cells, perhaps with cells freed meanwhile. */
    ghost var nodes: seq<FileNode>
    ghost var values: seq<Node>
    ghost var cells: set<LockCell>

    ghost predicate Valid()
      reads this, nodes, cells
    {
      NodeChain(fileList, nodes) && Contents(nodes, values, cells)
    }

    /** The lock table these lists stand for. */
    ghost function Table(): Table
      reads this
    {
      LockTable.Table(values, nextId)
    }

    ghost function NodeSet(): set<FileNode>
      reads this
    {
      set n | n in nodes
    }

    constructor ()
      ensures Valid() && nodes == [] && cells == {} && Table() == LockTable.Table([], 0x32_0000_0032)
    {
      fileList, nextId, nodes, values, cells := null, INITIAL_LOCK_ID, [], [], {};
    }

    // ---------- Lookup ----------

    lemma Owned(at: nat)
      requires Valid() && at < |nodes|
      ensures nodes[at] in NodeSet() && nodes[at].CellSet() <= cells && |values| == |nodes|
      ensures nodes[at].Valid() && nodes[at].Value() == values[at]
    {
    }

    lemma Lengths()
      requires Valid()
      ensures |values| == |nodes|
    {
    }

    /** The node of a file, and where it is in the list. */
    method GetNodeFromFileName(file: string) returns (node: FileNode?, ghost at: nat)
      requires Valid() && NoNul(file)
      ensures |values| == |nodes|
        && node == if IndexOfFile(values, file) < |nodes| then nodes[IndexOfFile(values, file)] else null
      ensures at == IndexOfFile(values, file)
    {
      hide IndexOfFile;
      node, at := fileList, 0;
      while node != null
        invariant at <= |nodes| && node == if at < |nodes| then nodes[at] else null
        invariant forall k :: 0 <= k < at ==> !SamePath(values[k].name, file)
        decreases |nodes| - at
      {
        assert node.Value() == values[at] && node.Valid();
        var order := PathNameCompare(node.fileName, file);
        if order == 0 {
          break;
        }
        node, at := node.next, at + 1;
      }
      IndexOfFileIs(values, file, at);
    }

    /** The node that has lock `id`, and the lock. */
    method GetNodeFromID(id: int) returns (node: FileNode?, lock: LockCell?, ghost at: nat, ghost lockAt: nat)
      requires Valid()
      ensures |values| == |nodes|
        && node == if IndexOfId(values, id) < |nodes| then nodes[IndexOfId(values, id)] else null
      ensures at == IndexOfId(values, id)
      ensures node != null ==>
        lockAt < |node.cells| && lock == node.cells[lockAt] && lockAt == IndexOfLock(values[at].locks, id)
    {
      hide IndexOfId, IndexOfLock;
      node, lock, at, lockAt := fileList, null, 0, 0;
      while node != null
        invariant at <= |nodes| && node == if at < |nodes| then nodes[at] else null
        invariant forall k :: 0 <= k < at ==> id !in Ids(values[k].locks)
        decreases |nodes| - at
      {
        assert node.Value() == values[at] && node.Valid();
        lock, lockAt := node.FindLock(id);
        IndexOfLockIs(node.locks, id, lockAt);
        if lock != null {
          break;
        }
        node, at := node.next, at + 1;
      }
      IndexOfIdIs(values, id, at);
    }

    method IsFileAssociatedWithLockId(file: string, id: int) returns (associated: bool)
      requires Valid() && NoNul(file)
      ensures associated <==> Associated(Table(), file, id)
    {
      hide IndexOfFile;
      var node;
      ghost var at;
      node, at := GetNodeFromFileName(file);
      associated := false;
      if node != null {
        assert node.Value() == values[at] && node.Valid();
        associated := node.HasLockId(id);
      }
    }

    /** Whether a client with the lock ids `ids` may change the files, and their nodes. */
    method CanPerformLockedOperation(file1: string, file2: seq<string>, ids: seq<int>)
      returns (ok: bool, node1: FileNode?, node2: FileNode?, ghost at1: nat, ghost at2: nat)
      requires Valid() && NoNul(file1) && |file2| <= 1 && (file2 != [] ==> NoNul(file2[0]))
      ensures ok <==> CanPerform(Table(), file1, file2, ids)
      ensures |values| == |nodes|
      ensures at1 == IndexOfFile(values, file1) && node1 == if at1 < |nodes| then nodes[at1] else null
      ensures at2 == if file2 == [] then |nodes| else IndexOfFile(values, file2[0])
      ensures node2 == if at2 < |nodes| then nodes[at2] else null
    {
      hide IndexOfFile, HoldsOneOf, CanPerform;
      node1, at1 := GetNodeFromFileName(file1);
      node2, at2 := null, |nodes|;
      if file2 != [] {
        node2, at2 := GetNodeFromFileName(file2[0]);
      }
      CanPerformIs(Table(), file1, file2, ids);
      if |ids| == 0 {
        if node1 != null || node2 != null {
          return false, node1, node2, at1, at2;
        }
        return true, node1, node2, at1, at2;
      }
      if node1 == null && node2 == null {
        return false, node1, node2, at1, at2;
      }
      if node1 != null {
        assert node1.Value() == values[at1] && node1.Valid();
        ok := node1.HasLockIdInArray(ids);
        if !ok {
          return;
        }
      }
      if node2 != null {
        assert node2.Value() == values[at2] && node2.Valid();
        ok := node2.HasLockIdInArray(ids);
        if !ok {
          return;
        }
      }
      ok := true;
    }

    // ---------- Steps ----------

    /** Takes the node behind `follow` (or, without one, the first node) out of the list. */
    method UnlinkNode(follow: FileNode?, behind: FileNode?, ghost at: nat)
      requires Valid() && at < |nodes|
      requires follow == (if at == 0 then null else nodes[at - 1]) && behind == NodeAfter(nodes, at)
      modifies this`fileList, this`nodes, this`values, NodeSet()`next
      ensures Valid() && nodes == old(nodes)[..at] + old(nodes)[at + 1..]
      ensures |old(values)| == |old(nodes)| && values == old(values)[..at] + old(values)[at + 1..]
      ensures NodeSet() <= old(NodeSet())
    {
      hide NodeChain, Contents;
      Relink(follow, behind, at);
      CutContents(nodes, values, cells, at);
      nodes, values := nodes[..at] + nodes[at + 1..], values[..at] + values[at + 1..];
    }

    method Relink(follow: FileNode?, behind: FileNode?, ghost at: nat)
      requires Valid() && at < |nodes|
      requires follow == (if at == 0 then null else nodes[at - 1]) && behind == NodeAfter(nodes, at)
      modifies this`fileList, NodeSet()`next
      ensures NodeChain(fileList, nodes[..at] + nodes[at + 1..]) && Contents(nodes, values, cells)
    {
      hide Contents;
      if follow != null {
        follow.next := behind;
      } else {
        fileList := behind;
      }
      CutNode(fileList, nodes, at);
    }

    method RemoveFileNodeFromLinkedList(node: FileNode, ghost at: nat)
      requires Valid() && at < |nodes| && nodes[at] == node
      modifies this`fileList, this`nodes, this`values, NodeSet()`next
      ensures Valid() && nodes == old(nodes)[..at] + old(nodes)[at + 1..]
      ensures |old(values)| == |old(nodes)| && values == old(values)[..at] + old(values)[at + 1..]
    {
      var trav, follow: FileNode? := fileList, null;
      ghost var i := 0;
      while trav != node
        invariant i <= at && trav == nodes[i] && follow == if i == 0 then null else nodes[i - 1]
        decreases at - i
      {
        follow := trav;
        trav := trav.next;
        i := i + 1;
      }
      UnlinkNode(follow, trav.next, at);
    }

    /** LOCK: another lock for the file, or the first one. */
    method CreateLock(file: string, mode: Mode, now: int, seconds: nat, luck: Luck) returns (grant: Grant)
      requires Valid() && NoNul(file)
      modifies this, NodeSet()
      ensures Valid() && (Table(), grant) == Create(old(Table()), file, mode, now, seconds, luck)
    {
      hide IndexOfFile, Create, NodeChain, Contents;
      CreateIs(Table(), file, mode, now, seconds, luck);
      var node;
      ghost var at;
      node, at := GetNodeFromFileName(file);
      if node != null {
        Owned(at);
        if node.shareMode == Exclusive || mode == Exclusive {
          return Refused;
        }
        grant := GrantLock(node, at, now, seconds, luck);
        return;
      }
      if luck == NoFile || luck == NoNode {
        return Failed;
      }
      node := new FileNode(file, mode);
      grant := GrantFirstLock(node, now, seconds, luck);
    }

    method GrantLock(node: FileNode, ghost at: nat, now: int, seconds: nat, luck: Luck) returns (grant: Grant)
      requires Valid() && at < |nodes| && node == nodes[at]
      modifies this`nextId, this`cells, this`values, NodeSet()
      ensures Valid() && |old(values)| == |nodes| && nextId == old(nextId) + 1
      ensures grant == if luck == NoLock then Failed else Granted(old(nextId))
      ensures values == if luck == NoLock then old(values) else
        old(values)[at := old(values)[at].(locks := [Lock(old(nextId), Expiry(now, seconds), seconds)]
          + old(values)[at].locks)]
    {
      var id := nextId;
      nextId := nextId + 1;
      if luck == NoLock {
        return Failed;
      }
      Owned(at);
      AddLockTo(node, at, id, now, seconds);
      return Granted(id);
    }

    method GrantFirstLock(node: FileNode, now: int, seconds: nat, luck: Luck) returns (grant: Grant)
      requires Valid() && node.Valid() && node.cells == [] && node.locks == [] && node !in nodes
      modifies this, node
      ensures Valid() && nextId == old(nextId) + 1
      ensures grant == if luck == NoLock then Failed else Granted(old(nextId))
      ensures values == if luck == NoLock then old(values) else
        [old(node.Value()).(locks := [Lock(old(nextId), Expiry(now, seconds), seconds)])] + old(values)
    {
      var id := nextId;
      nextId := nextId + 1;
      if luck == NoLock {
        return Failed;
      }
      AddNode(node, id, now, seconds);
      return Granted(id);
    }

    /** Another lock on a file that has some. */
    method AddLockTo(node: FileNode, ghost at: nat, id: int, now: int, seconds: nat)
      requires Valid() && at < |nodes| && node == nodes[at]
      modifies this`cells, this`values, node`lockList, node`cells, node`locks
      ensures Valid() && |old(values)| == |nodes|
      ensures values == old(values)[at := old(values)[at].(locks := [Lock(id, Expiry(now, seconds), seconds)]
        + old(values)[at].locks)]
    {
      hide NodeChain, Contents, Others, FileNode.Valid;
      SetNodeAside(fileList, nodes, values, cells, at);
      ghost var rest := cells - node.CellSet();
      node.AddLock(id, now, seconds);
      PutNodeBack(fileList, nodes, values, rest, at);
      cells, values := rest + node.CellSet(), values[at := node.Value()];
    }

    /** The first lock on a file: a new node in front of the list. */
    method AddNode(node: FileNode, id: int, now: int, seconds: nat)
      requires Valid() && node.Valid() && node.cells == [] && node.locks == [] && node !in nodes
      modifies this`fileList, this`nodes, this`values, this`cells, node
      ensures Valid()
      ensures values == [old(node.Value()).(locks := [Lock(id, Expiry(now, seconds), seconds)])] + old(values)
    {
      hide NodeChain, Contents, FileNode.Valid;
      node.AddLock(id, now, seconds);
      assert node.locks == [Lock(id, Expiry(now, seconds), seconds)];
      node.next := fileList;
      PushNode(node, fileList, nodes);
      PushContents(node, nodes, values, cells);
      fileList := node;
      nodes, values, cells := [node] + nodes, [node.Value()] + values, cells + node.CellSet();
    }

    /** LOCK with a token: a new lease for one lock. */
    method RefreshLock(file: string, id: int, now: int, seconds: nat) returns (ok: bool)
      requires Valid() && NoNul(file)
      modifies this`values, cells, NodeSet()`locks
      ensures Valid() && (Table(), ok) == Refresh(old(Table()), file, id, now, seconds)
    {
      hide IndexOfFile, IndexOfLock;
      var node;
      ghost var at;
      node, at := GetNodeFromFileName(file);
      if node == null {
        return false;
      }
      assert node.Value() == values[at] && node.Valid();
      var lock;
      ghost var lockAt;
      lock, lockAt := node.FindLock(id);
      if lock == null {
        return false;
      }
      RefreshCell(node, at, lock, lockAt, now, seconds);
      return true;
    }

    method RefreshCell(node: FileNode, ghost at: nat, lock: LockCell, ghost lockAt: nat, now: int, seconds: nat)
      requires Valid() && at < |nodes| && node == nodes[at] && lockAt < |node.cells| && lock == node.cells[lockAt]
      modifies this`values, lock, node`locks
      ensures Valid() && |old(values)| == |nodes| && lockAt < |old(values)[at].locks|
      ensures values == old(values)[at := old(values)[at].(locks := old(values)[at].locks[lockAt :=
        Lock(old(values)[at].locks[lockAt].id, Expiry(now, seconds), seconds)])]
    {
      hide NodeChain, Contents, Others, FileNode.Valid;
      SetNodeAside(fileList, nodes, values, cells, at);
      assert lock in node.CellSet();
      ghost var rest := cells - node.CellSet();
      node.RefreshLock(lock, now, seconds, lockAt);
      PutNodeBack(fileList, nodes, values, rest, at);
      assert rest + node.CellSet() == cells;
      values := values[at := node.Value()];
    }

    /** UNLOCK. */
    method DeleteLock(id: int) returns (ok: bool)
      requires Valid()
      modifies this`fileList, this`nodes, this`values, NodeSet(), cells
      ensures Valid() && (Table(), ok) == Delete(old(Table()), id)
    {
      hide IndexOfId, IndexOfLock, NodeChain, Contents;
      var node, lock;
      ghost var at, lockAt;
      node, lock, at, lockAt := GetNodeFromID(id);
      if node == null {
        return false;
      }
      Owned(at);
      ok := DeleteLockOf(node, at, lock, lockAt);
      if ok && node.lockList == null {
        RemoveFileNodeFromLinkedList(node, at);
      }
    }

    method DeleteLockOf(node: FileNode, ghost at: nat, lock: LockCell, ghost lockAt: nat) returns (ok: bool)
      requires Valid() && at < |nodes| && node == nodes[at] && lockAt < |node.cells| && lock == node.cells[lockAt]
      modifies this`values, node`lockList, node`cells, node`locks, node.CellSet()
      ensures Valid() && |old(values)| == |nodes| && lockAt < |old(values)[at].locks|
      ensures ok == !old(values)[at].busy
      ensures values == if !ok then old(values) else
        old(values)[at := old(values)[at].(locks := old(values)[at].locks[..lockAt]
          + old(values)[at].locks[lockAt + 1..])]
      ensures node.lockList == null <==> values[at].locks == []
    {
      hide NodeChain, Contents, Others;
      SetNodeAside(fileList, nodes, values, cells, at);
      ghost var rest := cells - node.CellSet();
      ok := node.DeleteLock(lock, lockAt);
      PutNodeBack(fileList, nodes, values, rest, at);
      WidenContents(nodes, values[at := node.Value()], rest + node.CellSet(), cells);
      values := values[at := node.Value()];
    }

    /**
      The cleanup thread has looked at `done` of the original files; `at` of them are kept, and trav
      and follow point there.
    */
    ghost predicate Sweeping(before: seq<Node>, done: nat, now: int, at: nat, trav: FileNode?, follow: FileNode?)
      reads this, nodes, cells
    {
      && Valid() && done <= |before| && at <= |nodes| == |values|
      && values == SweepNodes(before[..done], now) + before[done..]
      && at == |SweepNodes(before[..done], now)|
      && trav == (if at < |nodes| then nodes[at] else null)
      && follow == (if at == 0 then null else nodes[at - 1])
    }

    method SweepOne(trav: FileNode, follow: FileNode?, now: int, ghost before: seq<Node>, ghost done: nat,
        ghost at: nat)
      returns (next: FileNode?, last: FileNode?, ghost at': nat)
      requires Sweeping(before, done, now, at, trav, follow)
      modifies this`fileList, this`nodes, this`values, NodeSet(), cells
      ensures done < |before| && Sweeping(before, done + 1, now, at', next, last)
      ensures NodeSet() <= old(NodeSet())
    {
      hide SweepNodes, Swept, NodeChain, Contents;
      ghost var kept, was := SweepNodes(before[..done], now), values;
      assert |was| == |kept| + (|before| - done);
      SweepNodesNext(before, done, now);
      assert before[done..] == [before[done]] + before[done + 1..];
      next := NextNode(trav, at);
      Owned(at);
      SweepNode(trav, at, now);
      if trav.lockList == null {
        UnlinkNode(follow, next, at);
        assert was[..at] == kept && was[at + 1..] == before[done + 1..];
        last, at' := follow, at;
      } else {
        last, at' := trav, at + 1;
        assert kept + [Swept(before[done], now)] + before[done + 1..] == values;
      }
    }

    method NextNode(node: FileNode, ghost at: nat) returns (next: FileNode?)
      requires Valid() && at < |nodes| && node == nodes[at]
      ensures next == NodeAfter(nodes, at)
    {
      next := node.next;
    }

    method SweepNode(node: FileNode, ghost at: nat, now: int)
      requires Valid() && at < |nodes| && node == nodes[at]
      modifies this`values, node`lockList, node`cells, node`locks, node.CellSet()
      ensures Valid() && |old(values)| == |nodes| && values == old(values)[at := Swept(old(values)[at], now)]
      ensures node.lockList == null <==> values[at].locks == []
    {
      hide NodeChain, Contents, Others, Unexpired;
      SetNodeAside(fileList, nodes, values, cells, at);
      ghost var rest := cells - node.CellSet();
      node.RemoveTimedOutLocks(now);
      PutNodeBack(fileList, nodes, values, rest, at);
      WidenContents(nodes, values[at := node.Value()], rest + node.CellSet(), cells);
      values := values[at := node.Value()];
    }

    /** The cleanup thread's sweep. */
    method RemoveTimedOutLocks(now: int)
      requires Valid()
      modifies this`fileList, this`nodes, this`values, NodeSet(), cells
      ensures Valid() && Table() == Sweep(old(Table()), now)
    {
      hide SweepNodes, Sweeping, Valid, NodeChain, Contents;
      ghost var before, done, at := values, 0, 0;
      var trav, follow: FileNode? := fileList, null;
      SweepStarts(now);
      while trav != null
        invariant done <= |before| && Sweeping(before, done, now, at, trav, follow)
        invariant NodeSet() <= old(NodeSet()) && cells == old(cells)
        decreases |before| - done
      {
        trav, follow, at := SweepOne(trav, follow, now, before, done, at);
        done := done + 1;
      }
      SweepEnds(before, done, now, at, follow);
    }

    lemma SweepStarts(now: int)
      requires Valid()
      ensures Sweeping(values, 0, now, 0, fileList, null)
    {
      Lengths();
      SweepNodesOfNone(values[..0], now);
    }

    lemma SweepEnds(before: seq<Node>, done: nat, now: int, at: nat, follow: FileNode?)
      requires done <= |before| && Sweeping(before, done, now, at, null, follow)
      ensures Valid() && values == SweepNodes(before, now)
    {
      hide SweepNodes, NodeChain, Contents;
      assert |values| == |SweepNodes(before[..done], now)| + (|before| - done);
      assert before[..done] == before && before[done..] == [];
    }


    // ---------- Files that are moved, copied or deleted ----------

    method SetBusy(node: FileNode, ghost at: nat, busy: bool)
      requires Valid() && at < |nodes| && node == nodes[at]
      modifies this`values, node`busy
      ensures Valid() && |old(values)| == |nodes| && values == old(values)[at := old(values)[at].(busy := busy)]
    {
      hide NodeChain, Contents, Others, CellChain;
      SetNodeAside(fileList, nodes, values, cells, at);
      ghost var rest := cells - node.CellSet();
      node.busy := busy;
      PutNodeBack(fileList, nodes, values, rest, at);
      assert rest + node.CellSet() == cells;
      values := values[at := node.Value()];
    }

    /**
      A MOVE or COPY that is locked out by the files' own locks begins: both files are marked.  A file
      without a lock has to be opened; if it does not open, the marks of both are taken off again.
    */
    method BeginMoveCopy(src: string, dst: string, ids: seq<int>, srcOpens: bool, dstOpens: bool)
      returns (ok: bool, srcNode: FileNode?, dstNode: FileNode?, ghost srcAt: nat, ghost dstAt: nat)
      requires Valid() && NoNul(src) && NoNul(dst)
      modifies this`values, NodeSet()`busy
      ensures Valid()
      ensures var t := old(Table());
        var opens := (Locked(t, src) || srcOpens) && (Locked(t, dst) || dstOpens);
        && ok == (CanPerform(t, src, [dst], ids) && opens)
        && Table() == Apply(t, if opens then LockTable.BeginMoveCopy(src, dst, ids) else FailedMoveCopy(src, dst, ids))
      ensures srcAt == IndexOfFile(values, src) && srcNode == if srcAt < |nodes| then nodes[srcAt] else null
      ensures dstAt == IndexOfFile(values, dst) && dstNode == if dstAt < |nodes| then nodes[dstAt] else null
    {
      hide IndexOfFile, CanPerform, NodeChain, Contents;
      ok, srcNode, dstNode, srcAt, dstAt := CanPerformLockedOperation(src, [dst], ids);
      if !ok {
        return;
      }
      SetBothBusy(Table(), src, dst, true);
      SetBothBusy(Table(), src, dst, false);
      ghost var before := values;
      var bothOpen := srcNode != null || srcOpens;
      if bothOpen {
        Mark(srcNode, srcAt, true);
        bothOpen := dstNode != null || dstOpens;
        if bothOpen {
          Mark(dstNode, dstAt, true);
          FlaggedBoth(before, srcAt, dstAt, true, src, dst);
          return;
        }
        FlaggedTwice(before, srcAt, true, false);
      }
      Mark(srcNode, srcAt, false);
      Mark(dstNode, dstAt, false);
      FlaggedBoth(before, srcAt, dstAt, false, src, dst);
      ok := false;
    }

    /** Sets the flag of a file that is locked. */
    method Mark(node: FileNode?, ghost at: nat, busy: bool)
      requires Valid() && node == if at < |nodes| then nodes[at] else null
      modifies this`values, NodeSet()`busy
      ensures Valid() && values == Flagged(old(values), at, busy)
    {
      hide NodeChain, Contents;
      Lengths();
      if node != null {
        Owned(at);
        SetBusy(node, at, busy);
      }
    }

    /** It ends; `moved` says that the source goes with its locks. */
    method EndMoveCopy(src: string, dst: string, srcNode: FileNode?, dstNode: FileNode?, moved: bool,
        ghost srcAt: nat, ghost dstAt: nat)
      requires Valid()
      requires srcNode != null ==> srcAt == IndexOfFile(values, src) < |nodes| && srcNode == nodes[srcAt]
      requires dstNode != null ==> dstAt == IndexOfFile(values, dst) < |nodes| && dstNode == nodes[dstAt]
      modifies this`fileList, this`nodes, this`values, NodeSet()`busy, NodeSet()`next
      ensures Valid()
      ensures Table() == Apply(old(Table()), LockTable.EndMoveCopy(
        (if srcNode != null then [src] else []) + (if dstNode != null then [dst] else []),
        if moved && srcNode != null then [src] else []))
    {
      hide IndexOfFile, NodeChain, Contents;
      Lengths();
      ClearBoth(Table(), src, dst, srcNode != null, dstNode != null, moved);
      if srcNode != null {
        Owned(srcAt);
        SetBusy(srcNode, srcAt, false);
      }
      if dstNode != null {
        Owned(dstAt);
        SetBusy(dstNode, dstAt, false);
      }
      if moved && srcNode != null {
        RemoveFileNodeFromLinkedList(srcNode, srcAt);
      }
    }

    /** DELETE of a locked file. */
    method DeleteFileAndFileLock(file: string, ids: seq<int>) returns (ok: bool)
      requires Valid() && NoNul(file)
      modifies this`fileList, this`nodes, this`values, NodeSet()`next
      ensures Valid() && ok == CanPerform(old(Table()), file, [], ids)
      ensures Table() == Apply(old(Table()), DeleteFileStep(file, ids))
    {
      hide IndexOfFile, CanPerform, NodeChain, Contents;
      var node, other;
      ghost var at, otherAt;
      ok, node, other, at, otherAt := CanPerformLockedOperation(file, [], ids);
      if ok && node != null {
        RemoveFileNodeFromLinkedList(node, at);
      }
    }
  }

  function Flagged(nodes: seq<Node>, i: nat, busy: bool): (r: seq<Node>)
    ensures |r| == |nodes|
  {
    if i < |nodes| then nodes[i := nodes[i].(busy := busy)] else nodes
  }

  lemma FlaggedIndex(nodes: seq<Node>, i: nat, busy: bool, file: string)
    ensures IndexOfFile(Flagged(nodes, i, busy), file) == IndexOfFile(nodes, file)
  {
    if i < |nodes| {
      IndexAfterChange(nodes, i, nodes[i].(busy := busy), file);
    }
  }

  lemma FlaggedTwice(nodes: seq<Node>, i: nat, a: bool, b: bool)
    ensures Flagged(Flagged(nodes, i, a), i, b) == Flagged(nodes, i, b)
  {
  }

  lemma FlaggedBoth(nodes: seq<Node>, i: nat, j: nat, busy: bool, src: string, dst: string)
    ensures var r := Flagged(Flagged(nodes, i, busy), j, busy);
      IndexOfFile(r, src) == IndexOfFile(nodes, src) && IndexOfFile(r, dst) == IndexOfFile(nodes, dst)
  {
    hide IndexOfFile, Flagged;
    FlaggedIndex(nodes, i, busy, src);
    FlaggedIndex(nodes, i, busy, dst);
    FlaggedIndex(Flagged(nodes, i, busy), j, busy, src);
    FlaggedIndex(Flagged(nodes, i, busy), j, busy, dst);
  }

  lemma SetOneBusy(t: Table, file: string, busy: bool)
    ensures SetAllBusy(t, [file], busy) == t.(nodes := Flagged(t.nodes, IndexOfFile(t.nodes, file), busy))
  {
    hide IndexOfFile;
    assert [file][1..] == [];
    assert SetAllBusy(SetBusy(t, file, busy), [], busy) == SetBusy(t, file, busy);
  }

  /** SetAllBusy on two files, by position. */
  lemma SetBothBusy(t: Table, src: string, dst: string, busy: bool)
    ensures SetAllBusy(t, [src, dst], busy) ==
      t.(nodes := Flagged(Flagged(t.nodes, IndexOfFile(t.nodes, src), busy), IndexOfFile(t.nodes, dst), busy))
  {
    var u := SetBusy(t, src, busy);
    assert u == t.(nodes := Flagged(t.nodes, IndexOfFile(t.nodes, src), busy));
    FlaggedIndex(t.nodes, IndexOfFile(t.nodes, src), busy, dst);
    hide IndexOfFile, Flagged;
    SetOneBusy(u, dst, busy);
    assert [src, dst][1..] == [dst];
  }

  /** The nodes after the end of a MOVE or COPY. */
  function Cleared(nodes: seq<Node>, i: nat, j: nat, clearSrc: bool, clearDst: bool): (r: seq<Node>)
    ensures |r| == |nodes|
  {
    var a := if clearSrc then Flagged(nodes, i, false) else nodes;
    if clearDst then Flagged(a, j, false) else a
  }

  lemma ClearHeld(t: Table, src: string, dst: string, clearSrc: bool, clearDst: bool)
    ensures var i, j := IndexOfFile(t.nodes, src), IndexOfFile(t.nodes, dst);
      var b := Cleared(t.nodes, i, j, clearSrc, clearDst);
      && SetAllBusy(t, (if clearSrc then [src] else []) + (if clearDst then [dst] else []), false) == t.(nodes := b)
      && IndexOfFile(b, src) == i && IndexOfFile(b, dst) == j
  {
    hide IndexOfFile, Flagged;
    var i, j := IndexOfFile(t.nodes, src), IndexOfFile(t.nodes, dst);
    var a := if clearSrc then Flagged(t.nodes, i, false) else t.nodes;
    FlaggedIndex(t.nodes, i, false, src);
    FlaggedIndex(t.nodes, i, false, dst);
    FlaggedIndex(a, j, false, src);
    FlaggedIndex(a, j, false, dst);
    if clearSrc && clearDst {
      SetBothBusy(t, src, dst, false);
      assert [src] + [dst] == [src, dst];
    } else if clearSrc {
      SetOneBusy(t, src, false);
      assert [src] + [] == [src];
    } else if clearDst {
      SetOneBusy(t, dst, false);
      assert [] + [dst] == [dst];
    }
  }

  lemma ClearBoth(t: Table, src: string, dst: string, clearSrc: bool, clearDst: bool, moved: bool)
    requires clearSrc ==> IndexOfFile(t.nodes, src) < |t.nodes|
    ensures var i, j := IndexOfFile(t.nodes, src), IndexOfFile(t.nodes, dst);
      var b := Cleared(t.nodes, i, j, clearSrc, clearDst);
      Apply(t, LockTable.EndMoveCopy((if clearSrc then [src] else []) + (if clearDst then [dst] else []),
        if moved && clearSrc then [src] else []))
      == t.(nodes := if moved && clearSrc then b[..i] + b[i + 1..] else b)
  {
    hide IndexOfFile, Cleared, SetAllBusy;
    ClearHeld(t, src, dst, clearSrc, clearDst);
    var u := t.(nodes := Cleared(t.nodes, IndexOfFile(t.nodes, src), IndexOfFile(t.nodes, dst), clearSrc, clearDst));
    if moved && clearSrc {
      assert [src][1..] == [];
      assert DropAll(Drop(u, src), []) == Drop(u, src);
    } else {
      assert DropAll(u, []) == u;
    }
  }

  lemma WidenContents(nodes: seq<FileNode>, values: seq<Node>, cells: set<LockCell>, more: set<LockCell>)
    requires Contents(nodes, values, cells) && cells <= more
    ensures Contents(nodes, values, more)
  {
  }

  lemma SweepNodesNext(nodes: seq<Node>, i: nat, now: int)
    requires i < |nodes|
    ensures var n := Swept(nodes[i], now);
      SweepNodes(nodes[..i + 1], now) == SweepNodes(nodes[..i], now) + (if n.locks == [] then [] else [n])
  {
    SweepInOrder(nodes[..i], [nodes[i]], now);
    assert nodes[..i] + [nodes[i]] == nodes[..i + 1];
    assert [nodes[i]][1..] == [];
  }

  lemma SweepNodesOfNone(nodes: seq<Node>, now: int)
    requires nodes == []
    ensures SweepNodes(nodes, now) == []
  {
  }

  lemma IndexOfFileIs(nodes: seq<Node>, file: string, at: nat)
    requires at <= |nodes| && (at < |nodes| ==> SamePath(nodes[at].name, file))
    requires forall k :: 0 <= k < at ==> !SamePath(nodes[k].name, file)
    ensures at == IndexOfFile(nodes, file)
  {
    var i := IndexOfFile(nodes, file);
  }

  lemma IndexOfIdIs(nodes: seq<Node>, id: int, at: nat)
    requires at <= |nodes| && (at < |nodes| ==> id in Ids(nodes[at].locks))
    requires forall k :: 0 <= k < at ==> id !in Ids(nodes[k].locks)
    ensures at == IndexOfId(nodes, id)
  {
    var i := IndexOfId(nodes, id);
  }

  lemma CreateIs(t: Table, file: string, mode: Mode, now: int, seconds: nat, luck: Luck)
    ensures var i, r := IndexOfFile(t.nodes, file), Create(t, file, mode, now, seconds, luck);
      var lock := Lock(t.nextId, Expiry(now, seconds), seconds);
      && (i < |t.nodes| && (t.nodes[i].mode == Exclusive || mode == Exclusive) ==> r == (t, Refused))
      && (i < |t.nodes| && t.nodes[i].mode == Shared && mode == Shared && luck != NoLock ==>
            r == (LockTable.Table(t.nodes[i := t.nodes[i].(locks := [lock] + t.nodes[i].locks)], t.nextId + 1),
              Granted(t.nextId)))
      && (i < |t.nodes| && t.nodes[i].mode == Shared && mode == Shared && luck == NoLock ==>
            r == (t.(nextId := t.nextId + 1), Failed))
      && (i == |t.nodes| && (luck == NoFile || luck == NoNode) ==> r == (t, Failed))
      && (i == |t.nodes| && luck == NoLock ==> r == (t.(nextId := t.nextId + 1), Failed))
      && (i == |t.nodes| && luck == AllGood ==>
            r == (LockTable.Table([Node(file, mode, false, [lock])] + t.nodes, t.nextId + 1), Granted(t.nextId)))
  {
  }

  lemma CanPerformIs(t: Table, file1: string, file2: seq<string>, ids: seq<int>)
    requires |file2| <= 1
    ensures var i := IndexOfFile(t.nodes, file1);
      var j := if file2 == [] then |t.nodes| else IndexOfFile(t.nodes, file2[0]);
      CanPerform(t, file1, file2, ids) <==>
        if ids == [] || (i == |t.nodes| && j == |t.nodes|) then ids == [] && i == |t.nodes| && j == |t.nodes|
        else (i == |t.nodes| || HoldsOneOf(t.nodes[i], ids)) && (j == |t.nodes| || HoldsOneOf(t.nodes[j], ids))
  {
  }
}
