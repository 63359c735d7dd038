/**
  The WebDAV lock table as a value, the atomic steps on it, and what every run of those steps keeps.
  Each critical section of the lock manager is one step; LockManager.dfy has the linked lists that
  carry the steps out.
*/
module LockTable {
  import opened PathNames

  datatype Mode = Shared | Exclusive

  /** One granted lock; times count 100-nanosecond ticks. */
  datatype Lock = Lock(id: int, expires: int, timeout: nat)

  /** A locked file: the newest lock first. */
  datatype Node = Node(name: string, mode: Mode, busy: bool, locks: seq<Lock>)

  /** The newest file first. */
  datatype Table = Table(nodes: seq<Node>, nextId: int)

  /** ((__int64)50 << 32) + 50. */
  const INITIAL_LOCK_ID: int := 50 * 0x1_0000_0000 + 50
  const TICKS_PER_MILLISECOND: int := 10000
  const MAX_LOCK_TIMEOUT: nat := 86400

  // ---------- Lookup ----------

  function Ids(locks: seq<Lock>): set<int> {
    set l | l in locks :: l.id
  }

  /** Lock `id` is held on some file. */
  predicate Held(nodes: seq<Node>, id: int) {
    exists n :: n in nodes && id in Ids(n.locks)
  }

  /** The position of the first node whose file is `name`, or the length of the list. */
  function IndexOfFile(nodes: seq<Node>, name: string): (i: nat)
    ensures i <= |nodes|
    ensures i < |nodes| ==> SamePath(nodes[i].name, name)
    ensures forall k :: 0 <= k < i ==> !SamePath(nodes[k].name, name)
  {
    if nodes == [] || SamePath(nodes[0].name, name) then 0 else 1 + IndexOfFile(nodes[1..], name)
  }

  function IndexOfLock(locks: seq<Lock>, id: int): (i: nat)
    ensures i <= |locks|
    ensures i < |locks| ==> locks[i].id == id
    ensures forall k :: 0 <= k < i ==> locks[k].id != id
  {
    if locks == [] || locks[0].id == id then 0 else 1 + IndexOfLock(locks[1..], id)
  }

  /** The position of the first node that has a lock `id`. */
  function IndexOfId(nodes: seq<Node>, id: int): (i: nat)
    ensures i <= |nodes|
    ensures i < |nodes| ==> id in Ids(nodes[i].locks)
    ensures forall k :: 0 <= k < i ==> id !in Ids(nodes[k].locks)
  {
    if nodes == [] || id in Ids(nodes[0].locks) then 0 else 1 + IndexOfId(nodes[1..], id)
  }

  /** Lock `id` is held on `file`. */
  predicate Associated(t: Table, file: string, id: int) {
    var i := IndexOfFile(t.nodes, file);
    i < |t.nodes| && id in Ids(t.nodes[i].locks)
  }

  predicate Locked(t: Table, file: string) {
    IndexOfFile(t.nodes, file) < |t.nodes|
  }

  // ---------- The steps ----------

  /** When a lock granted now for `seconds` expires; the product with 1000 is a 32-bit one. */
  function Expiry(now: int, seconds: nat): int {
    now + seconds * 1000 % 0x1_0000_0000 * TICKS_PER_MILLISECOND
  }

  /** What the outside world may do to a LOCK request: fail to open the file, or to allocate memory. */
  datatype Luck = AllGood | NoFile | NoNode | NoLock

  /** Refused: someone holds a conflicting lock; Failed: see Luck. */
  datatype Grant = Granted(id: int) | Refused | Failed

  /** LOCK: another lock on the file if all are shared, or a new node in front. */
  function Create(t: Table, file: string, mode: Mode, now: int, seconds: nat, luck: Luck): (Table, Grant) {
    var i := IndexOfFile(t.nodes, file);
    var lock := Lock(t.nextId, Expiry(now, seconds), seconds);
    if i < |t.nodes| && (t.nodes[i].mode == Exclusive || mode == Exclusive) then (t, Refused)
    else if i == |t.nodes| && (luck == NoFile || luck == NoNode) then (t, Failed)
    else if luck == NoLock then (t.(nextId := t.nextId + 1), Failed)
    else if i < |t.nodes| then
      (Table(t.nodes[i := t.nodes[i].(locks := [lock] + t.nodes[i].locks)], t.nextId + 1), Granted(t.nextId))
    else
      (Table([Node(file, mode, false, [lock])] + t.nodes, t.nextId + 1), Granted(t.nextId))
  }

  /** LOCK with a token: gives lock `id` of the file a new lease. */
  function Refresh(t: Table, file: string, id: int, now: int, seconds: nat): (Table, bool) {
    var i := IndexOfFile(t.nodes, file);
    if i == |t.nodes| then (t, false)
    else
      var locks := t.nodes[i].locks;
      var j := IndexOfLock(locks, id);
      if j == |locks| then (t, false)
      else
        var lock := Lock(id, Expiry(now, seconds), seconds);
        (t.(nodes := t.nodes[i := t.nodes[i].(locks := locks[j := lock])]), true)
  }

  /** The list without its element at i, or with `n` in its place if n still has locks. */
  function Replaced(nodes: seq<Node>, i: nat, n: Node): seq<Node>
    requires i < |nodes|
  {
    if n.locks == [] then nodes[..i] + nodes[i + 1..] else nodes[i := n]
  }

  /** UNLOCK: takes lock `id` away, and its file's node with the last one; a busy node is left alone. */
  function Delete(t: Table, id: int): (Table, bool) {
    var i := IndexOfId(t.nodes, id);
    if i == |t.nodes| || t.nodes[i].busy then (t, false)
    else
      var n := t.nodes[i];
      var j := IndexOfLock(n.locks, id);
      if j == |n.locks| then (t, false)
      else (t.(nodes := Replaced(t.nodes, i, n.(locks := n.locks[..j] + n.locks[j + 1..]))), true)
  }

  predicate Expired(l: Lock, now: int) {
    now > l.expires
  }

  function Unexpired(locks: seq<Lock>, now: int): (r: seq<Lock>)
    ensures forall l :: l in r <==> l in locks && now <= l.expires
  {
    if locks == [] then []
    else if Expired(locks[0], now) then Unexpired(locks[1..], now)
    else [locks[0]] + Unexpired(locks[1..], now)
  }

  /** A node after the sweep at `now`. */
  function Swept(n: Node, now: int): Node {
    if n.busy then n else n.(locks := Unexpired(n.locks, now))
  }

  function SweepNodes(nodes: seq<Node>, now: int): seq<Node> {
    if nodes == [] then []
    else
      var n := Swept(nodes[0], now);
      (if n.locks == [] then [] else [n]) + SweepNodes(nodes[1..], now)
  }

  /** The cleanup thread: drops expired locks, and nodes left without any. */
  function Sweep(t: Table, now: int): Table {
    t.(nodes := SweepNodes(t.nodes, now))
  }

  predicate HoldsOneOf(n: Node, ids: seq<int>) {
    exists id :: id in ids && id in Ids(n.locks)
  }

  /** Whether a client that knows the lock ids `ids` may change the files; file2 is optional. */
  predicate CanPerform(t: Table, file1: string, file2: seq<string>, ids: seq<int>)
    requires |file2| <= 1
  {
    var i := IndexOfFile(t.nodes, file1);
    var j := if file2 == [] then |t.nodes| else IndexOfFile(t.nodes, file2[0]);
    if ids == [] then i == |t.nodes| && j == |t.nodes|
    else
      && (i < |t.nodes| || j < |t.nodes|)
      && (i < |t.nodes| ==> HoldsOneOf(t.nodes[i], ids))
      && (j < |t.nodes| ==> HoldsOneOf(t.nodes[j], ids))
  }

  function SetBusy(t: Table, file: string, busy: bool): Table {
    var i := IndexOfFile(t.nodes, file);
    if i == |t.nodes| then t else t.(nodes := t.nodes[i := t.nodes[i].(busy := busy)])
  }

  /** DELETE, or the end of a MOVE: the file goes, and its locks with it. */
  function Drop(t: Table, file: string): Table {
    var i := IndexOfFile(t.nodes, file);
    if i == |t.nodes| then t else t.(nodes := t.nodes[..i] + t.nodes[i + 1..])
  }

  // ---------- The invariant ----------

  /** Two nodes of the table: different files, no common lock. */
  predicate Apart(a: Node, b: Node) {
    !SamePath(a.name, b.name) && Ids(a.locks) !! Ids(b.locks)
  }

  predicate DistinctIds(locks: seq<Lock>) {
    forall i, j :: 0 <= i < j < |locks| ==> locks[i].id != locks[j].id
  }

  predicate NodeOk(n: Node, nextId: int) {
    && n.locks != []
    && (n.mode == Exclusive ==> |n.locks| == 1)
    && DistinctIds(n.locks)
    && forall id :: id in Ids(n.locks) ==> id < nextId
  }

  predicate NodesOk(nodes: seq<Node>, nextId: int) {
    && (forall i :: 0 <= i < |nodes| ==> NodeOk(nodes[i], nextId))
    && (forall i, j :: 0 <= i < j < |nodes| ==> Apart(nodes[i], nodes[j]))
  }

  predicate Inv(t: Table) {
    NodesOk(t.nodes, t.nextId)
  }

  // ---------- Every step ----------

  /** The atomic steps of the lock manager, and of one MOVE or COPY under it. */
  datatype Step =
    | LockStep(file: string, mode: Mode, now: int, seconds: nat, luck: Luck)
    | RefreshStep(file: string, id: int, now: int, seconds: nat)
    | UnlockStep(id: int)
    | SweepStep(now: int)
    | DeleteFileStep(file: string, ids: seq<int>)
    | BeginMoveCopy(src: string, dst: string, ids: seq<int>)
    | FailedMoveCopy(src: string, dst: string, ids: seq<int>)
    | EndMoveCopy(held: seq<string>, gone: seq<string>)

  function SetAllBusy(t: Table, files: seq<string>, busy: bool): Table
    decreases |files|
  {
    if files == [] then t else SetAllBusy(SetBusy(t, files[0], busy), files[1..], busy)
  }

  function DropAll(t: Table, files: seq<string>): Table
    decreases |files|
  {
    if files == [] then t else DropAll(Drop(t, files[0]), files[1..])
  }

  /** A MOVE or COPY that the client may do fails to begin if one of the files has no lock, and cannot be opened. */
  predicate MayFail(t: Table, src: string, dst: string, ids: seq<int>) {
    CanPerform(t, src, [dst], ids) && !(Locked(t, src) && Locked(t, dst))
  }

  /** A failing MOVE or COPY lowers the flags of both files, whoever has raised them. */
  function Apply(t: Table, s: Step): Table {
    match s
    case LockStep(file, mode, now, seconds, luck) => Create(t, file, mode, now, seconds, luck).0
    case RefreshStep(file, id, now, seconds) => Refresh(t, file, id, now, seconds).0
    case UnlockStep(id) => Delete(t, id).0
    case SweepStep(now) => Sweep(t, now)
    case DeleteFileStep(file, ids) => if CanPerform(t, file, [], ids) then Drop(t, file) else t
    case BeginMoveCopy(src, dst, ids) => if CanPerform(t, src, [dst], ids) then SetAllBusy(t, [src, dst], true) else t
    case FailedMoveCopy(src, dst, ids) =>
      if MayFail(t, src, dst, ids) then SetAllBusy(t, [src, dst], false) else t
    case EndMoveCopy(held, gone) => DropAll(SetAllBusy(t, held, false), gone)
  }

  function Run(t: Table, steps: seq<Step>): Table
    decreases |steps|
  {
    if steps == [] then t else Run(Apply(t, steps[0]), steps[1..])
  }

  /** A run takes its steps one after the other, each from where the others have led. */
  lemma {:induction false} RunOneMore(t: Table, steps: seq<Step>, s: Step)
    ensures Run(t, steps + [s]) == Apply(Run(t, steps), s)
    decreases |steps|
  {
    hide Apply;
    if steps == [] {
      assert ([] + [s])[1..] == [];
    } else {
      assert (steps + [s])[1..] == steps[1..] + [s];
      RunOneMore(Apply(t, steps[0]), steps[1..], s);
    }
  }

  // ---------- Shapes of change ----------

  /** One node changes in place: its file stays, and its locks change within bounds. */
  lemma ChangeKeepsOk(nodes: seq<Node>, nextId: int, i: nat, n: Node, nextId': int)
    requires NodesOk(nodes, nextId) && i < |nodes| && nextId <= nextId'
    requires NodeOk(n, nextId') && n.name == nodes[i].name
    requires forall id :: id in Ids(n.locks) ==> id in Ids(nodes[i].locks) || id >= nextId
    ensures NodesOk(nodes[i := n], nextId')
  {
    var r := nodes[i := n];
    forall a, b | 0 <= a < b < |r| ensures Apart(r[a], r[b]) {
      assert Apart(nodes[a], nodes[b]);
      assert NodeOk(nodes[a], nextId) && NodeOk(nodes[b], nextId);
    }
  }

  lemma RemovalKeepsOk(nodes: seq<Node>, nextId: int, i: nat)
    requires NodesOk(nodes, nextId) && i < |nodes|
    ensures NodesOk(nodes[..i] + nodes[i + 1..], nextId)
  {
    var r := nodes[..i] + nodes[i + 1..];
    forall a, b | 0 <= a < b < |r| ensures Apart(r[a], r[b]) {
      assert Apart(nodes[if a < i then a else a + 1], nodes[if b < i then b else b + 1]);
    }
  }

  lemma PushKeepsOk(nodes: seq<Node>, nextId: int, n: Node, nextId': int)
    requires NodesOk(nodes, nextId) && NodeOk(n, nextId') && nextId <= nextId'
    requires forall i :: 0 <= i < |nodes| ==> Apart(n, nodes[i])
    ensures NodesOk([n] + nodes, nextId')
  {
    var r := [n] + nodes;
    forall i | 0 <= i < |r| ensures NodeOk(r[i], nextId') {
      assert i > 0 ==> NodeOk(nodes[i - 1], nextId);
    }
    forall a, b | 0 <= a < b < |r| ensures Apart(r[a], r[b]) {
      assert a > 0 ==> Apart(nodes[a - 1], nodes[b - 1]);
    }
  }

  // ---------- The invariant is kept ----------

  lemma CreateKeepsInv(t: Table, file: string, mode: Mode, now: int, seconds: nat, luck: Luck)
    requires Inv(t)
    ensures var (t', g) := Create(t, file, mode, now, seconds, luck);
      && Inv(t') && t.nextId <= t'.nextId
      && (!g.Granted? ==> t'.nodes == t.nodes)
      && (g.Granted? ==> g.id == t.nextId < t'.nextId && !Held(t.nodes, g.id))
  {
    var i := IndexOfFile(t.nodes, file);
    var lock := Lock(t.nextId, Expiry(now, seconds), seconds);
    assert forall n :: n in t.nodes ==> NodeOk(n, t.nextId);
    if i < |t.nodes| {
      var n := t.nodes[i];
      assert NodeOk(n, t.nextId);
      if n.mode == Shared && mode == Shared && luck != NoLock {
        var n' := n.(locks := [lock] + n.locks);
        assert forall l :: l in n.locks ==> l.id in Ids(n.locks);
        ChangeKeepsOk(t.nodes, t.nextId, i, n', t.nextId + 1);
      }
    } else if luck == AllGood {
      var n := Node(file, mode, false, [lock]);
      assert Ids(n.locks) == {t.nextId};
      forall k | 0 <= k < |t.nodes| ensures Apart(n, t.nodes[k]) {
        assert NodeOk(t.nodes[k], t.nextId);
        if SamePath(n.name, t.nodes[k].name) {
          SamePathSymmetric(n.name, t.nodes[k].name);
        }
      }
      PushKeepsOk(t.nodes, t.nextId, n, t.nextId + 1);
    }
  }

  lemma RefreshKeepsInv(t: Table, file: string, id: int, now: int, seconds: nat)
    requires Inv(t)
    ensures Inv(Refresh(t, file, id, now, seconds).0)
    ensures Refresh(t, file, id, now, seconds).0.nextId == t.nextId
  {
    var i := IndexOfFile(t.nodes, file);
    if i < |t.nodes| {
      var n := t.nodes[i];
      var j := IndexOfLock(n.locks, id);
      assert NodeOk(n, t.nextId);
      if j < |n.locks| {
        var lock := Lock(id, Expiry(now, seconds), seconds);
        var n' := n.(locks := n.locks[j := lock]);
        SameIds(n.locks, n'.locks);
        ChangeKeepsOk(t.nodes, t.nextId, i, n', t.nextId);
      }
    }
  }

  lemma SameIds(a: seq<Lock>, b: seq<Lock>)
    requires |a| == |b| && forall i :: 0 <= i < |a| ==> a[i].id == b[i].id
    ensures Ids(a) == Ids(b) && (DistinctIds(a) ==> DistinctIds(b))
  {
    forall id | id in Ids(a) ensures id in Ids(b) {
      var i :| 0 <= i < |a| && a[i].id == id;
      assert b[i] in b;
    }
    forall id | id in Ids(b) ensures id in Ids(a) {
      var i :| 0 <= i < |b| && b[i].id == id;
      assert a[i] in a;
    }
  }

  lemma ReplacedKeepsOk(nodes: seq<Node>, nextId: int, i: nat, n: Node)
    requires NodesOk(nodes, nextId) && i < |nodes|
    requires n.name == nodes[i].name && n.mode == nodes[i].mode
    requires |n.locks| <= |nodes[i].locks| && DistinctIds(n.locks) && Ids(n.locks) <= Ids(nodes[i].locks)
    ensures NodesOk(Replaced(nodes, i, n), nextId)
  {
    assert NodeOk(nodes[i], nextId);
    if n.locks == [] {
      RemovalKeepsOk(nodes, nextId, i);
    } else {
      ChangeKeepsOk(nodes, nextId, i, n, nextId);
    }
  }

  lemma DeleteKeepsInv(t: Table, id: int)
    requires Inv(t)
    ensures Inv(Delete(t, id).0)
  {
    var i := IndexOfId(t.nodes, id);
    if i < |t.nodes| && !t.nodes[i].busy {
      var n := t.nodes[i];
      var j := IndexOfLock(n.locks, id);
      assert NodeOk(n, t.nextId);
      if j < |n.locks| {
        ReplacedKeepsOk(t.nodes, t.nextId, i, n.(locks := n.locks[..j] + n.locks[j + 1..]));
      }
    }
  }

  lemma {:induction false} UnexpiredKeepsDistinct(locks: seq<Lock>, now: int)
    requires DistinctIds(locks)
    ensures DistinctIds(Unexpired(locks, now)) && |Unexpired(locks, now)| <= |locks|
    ensures Ids(Unexpired(locks, now)) <= Ids(locks)
  {
    if locks != [] {
      UnexpiredKeepsDistinct(locks[1..], now);
      DistinctFront(locks, Unexpired(locks[1..], now));
    }
  }

  lemma DistinctFront(locks: seq<Lock>, r: seq<Lock>)
    requires locks != [] && DistinctIds(locks) && DistinctIds(r) && Ids(r) <= Ids(locks[1..])
    ensures DistinctIds([locks[0]] + r)
  {
    forall k | 0 <= k < |r| ensures r[k].id != locks[0].id {
      assert r[k].id in Ids(r);
      var l :| l in locks[1..] && l.id == r[k].id;
      var m :| 0 <= m < |locks| - 1 && locks[1..][m] == l;
      assert locks[m + 1] == l;
    }
  }

  /** A node of the swept list is a node of the list with some of its locks. */
  predicate ComesFrom(n: Node, m: Node) {
    n.name == m.name && n.mode == m.mode && n.busy == m.busy && Ids(n.locks) <= Ids(m.locks)
  }

  lemma {:induction false} SweepKeepsOk(nodes: seq<Node>, nextId: int, now: int)
    requires NodesOk(nodes, nextId)
    ensures NodesOk(SweepNodes(nodes, now), nextId)
    ensures forall n :: n in SweepNodes(nodes, now) ==> exists m :: m in nodes && ComesFrom(n, m)
  {
    if nodes != [] {
      var rest, r, n := nodes[1..], SweepNodes(nodes[1..], now), Swept(nodes[0], now);
      forall i, j | 0 <= i < j < |rest| ensures Apart(rest[i], rest[j]) {
        assert Apart(nodes[i + 1], nodes[j + 1]);
      }
      SweepKeepsOk(rest, nextId, now);
      assert NodeOk(nodes[0], nextId);
      UnexpiredKeepsDistinct(nodes[0].locks, now);
      assert ComesFrom(n, nodes[0]);
      forall k | 0 <= k < |r| ensures Apart(n, r[k]) {
        assert r[k] in r;
        var m :| m in rest && ComesFrom(r[k], m);
        var j :| 0 <= j < |rest| && rest[j] == m;
        assert Apart(nodes[0], nodes[j + 1]);
      }
      if n.locks != [] {
        PushKeepsOk(r, nextId, n, nextId);
      }
    }
  }

  lemma SetBusyKeepsInv(t: Table, file: string, busy: bool)
    requires Inv(t)
    ensures Inv(SetBusy(t, file, busy)) && SetBusy(t, file, busy).nextId == t.nextId
  {
    var i := IndexOfFile(t.nodes, file);
    if i < |t.nodes| {
      assert NodeOk(t.nodes[i], t.nextId);
      var n := t.nodes[i].(busy := busy);
      ChangeKeepsOk(t.nodes, t.nextId, i, n, t.nextId);
    }
  }

  lemma DropKeepsInv(t: Table, file: string)
    requires Inv(t)
    ensures Inv(Drop(t, file)) && Drop(t, file).nextId == t.nextId
  {
    var i := IndexOfFile(t.nodes, file);
    if i < |t.nodes| {
      RemovalKeepsOk(t.nodes, t.nextId, i);
    }
  }

  lemma {:induction false} SetAllBusyKeepsInv(t: Table, files: seq<string>, busy: bool)
    requires Inv(t)
    ensures Inv(SetAllBusy(t, files, busy)) && SetAllBusy(t, files, busy).nextId == t.nextId
    decreases |files|
  {
    if files != [] {
      SetBusyKeepsInv(t, files[0], busy);
      SetAllBusyKeepsInv(SetBusy(t, files[0], busy), files[1..], busy);
    }
  }

  lemma {:induction false} DropAllKeepsInv(t: Table, files: seq<string>)
    requires Inv(t)
    ensures Inv(DropAll(t, files)) && DropAll(t, files).nextId == t.nextId
    decreases |files|
  {
    if files != [] {
      DropKeepsInv(t, files[0]);
      DropAllKeepsInv(Drop(t, files[0]), files[1..]);
    }
  }

  lemma StepKeepsInv(t: Table, s: Step)
    requires Inv(t)
    ensures Inv(Apply(t, s)) && t.nextId <= Apply(t, s).nextId
  {
    hide Inv, Create, Refresh, Delete, Sweep, Drop, SetAllBusy, DropAll, CanPerform;
    match s
    case LockStep(file, mode, now, seconds, luck) => CreateKeepsInv(t, file, mode, now, seconds, luck);
    case RefreshStep(file, id, now, seconds) => RefreshKeepsInv(t, file, id, now, seconds);
    case UnlockStep(id) =>
      DeleteKeepsInv(t, id);
      DeleteKeepsNextId(t, id);
    case SweepStep(now) => SweepKeepsInv(t, now);
    case DeleteFileStep(file, ids) => DropKeepsInv(t, file);
    case BeginMoveCopy(src, dst, ids) => SetAllBusyKeepsInv(t, [src, dst], true);
    case FailedMoveCopy(src, dst, ids) => SetAllBusyKeepsInv(t, [src, dst], false);
    case EndMoveCopy(held, gone) =>
      SetAllBusyKeepsInv(t, held, false);
      DropAllKeepsInv(SetAllBusy(t, held, false), gone);
  }

  lemma DeleteKeepsNextId(t: Table, id: int)
    ensures Delete(t, id).0.nextId == t.nextId
  {
  }

  lemma SweepKeepsInv(t: Table, now: int)
    requires Inv(t)
    ensures Inv(Sweep(t, now)) && Sweep(t, now).nextId == t.nextId
  {
    SweepKeepsOk(t.nodes, t.nextId, now);
  }

  /**
    Over every run: files stay pairwise different, every file has a lock, an exclusive one just one,
    and no id occurs twice.
  */
  lemma {:induction false} RunKeepsInv(t: Table, steps: seq<Step>)
    requires Inv(t)
    ensures Inv(Run(t, steps)) && t.nextId <= Run(t, steps).nextId
    decreases |steps|
  {
    if steps != [] {
      StepKeepsInv(t, steps[0]);
      RunKeepsInv(Apply(t, steps[0]), steps[1..]);
    }
  }
}
