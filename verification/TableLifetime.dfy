/**
  Who holds which table of virtual roots.  Requests keep the table they started with while the web
  sites' tables are replaced under them; a table lives as long as it is held or published.  Each method
  is one critical section (g_CritSect), or touches only the fields of one request, which belong to its
  thread; so any interleaving of threads is a sequence of these methods.
*/
module TableLifetime {
  import opened Options

  /** CVRoots, as far as its life goes; `deleted` is set by "delete this". */
  class CVRoots {
    var refCount: int
    var deleted: bool
    const count: nat

    constructor (count: nat)
      ensures refCount == 0 && !deleted && this.count == count
    {
      refCount, deleted, this.count := 0, false, count;
    }

    method AddRef()
      requires !deleted
      modifies this
      ensures refCount == old(refCount) + 1 && !deleted
    {
      refCount := refCount + 1;
    }

    method DelRef()
      requires !deleted
      modifies this
      ensures refCount == old(refCount) - 1 && deleted == (refCount == 0)
    {
      refCount := refCount - 1;
      if refCount == 0 {
        deleted := true;
      }
    }
  }

  /** A pointer into a table. */
  datatype Root = Root(table: CVRoots, index: nat)

  /** A request as a value; see HttpRequest for its fields. */
  datatype Seat = Seat(table: CVRoots?, vroot: Option<Root>, website: nat, resolved: bool, dying: bool)

  const NEW_SEAT: Seat := Seat(null, None, 0, false, false)

  /** CHttpRequest. */
  class HttpRequest {
    var next: HttpRequest?
    var table: CVRoots?
    var vroot: Option<Root>
    var website: nat
    var resolved: bool
    /** Where the request's thread is: in the destructor. */
    var dying: bool

    constructor ()
      ensures next == null && table == null && vroot == None && website == 0 && !resolved && !dying
    {
      next, table, vroot, website, resolved, dying := null, null, None, 0, false, false;
    }

    ghost function Value(): Seat
      reads this`table, this`vroot, this`website, this`resolved, this`dying
    {
      Seat(table, vroot, website, resolved, dying)
    }

    ghost predicate Ok(sites: nat)
      reads this`table, this`vroot, this`website, this`resolved, this`dying
    {
      && website < sites && (!resolved ==> table == null)
      && (!dying && vroot.Some? ==> table == vroot.value.table && vroot.value.index < vroot.value.table.count)
    }
  }

  /** What one thread does under the lock, or with its own request; requests are named by their place in the list. */
  datatype Step =
    | Connect(secureAllowed: bool, scheduled: bool)
    | Again(at: nat)
    | Swap(at: nat)
    | Map(at: nat, mapped: Option<nat>)
    | Resolve(at: nat, root: Option<nat>)
    | LetGo(at: nat)
    | Leave(at: nat)
    | Refresh(site: nat, registry: bool, count: nat)

  // ---------- The steps on values ----------

  /** The requests in the list, the newest first, and what the web sites publish; `room` is maxConnections. */
  datatype State = State(seats: seq<Seat>, published: seq<CVRoots?>, room: nat)

  /** What a step does to the seat of its own request. */
  function SeatNext(published: seq<CVRoots?>, q: Seat, s: Step): Seat {
    if q.dying then q
    else
      match s
      case Again(_) => q.(vroot := None)
      case Swap(_) =>
        if q.vroot == None && q.table != null && q.website < |published| then q.(table := published[q.website]) else q
      case Map(_, Some(site)) =>
        if !q.resolved && site < |published| then q.(table := published[site], website := site, resolved := true) else q
      case Map(_, None) => if q.resolved then q else q.(website := 0)
      case Resolve(_, Some(root)) =>
        if q.table != null && root < q.table.count then q.(vroot := Some(Root(q.table, root))) else q
      case Resolve(_, None) => if q.table != null then q.(vroot := None) else q
      case LetGo(_) => q.(table := null, dying := true)
      case _ => q
  }

  predicate Accepts(st: State, s: Step) {
    s.Connect? && |st.seats| < st.room && s.secureAllowed && s.scheduled
  }

  /** The request at which s is a step of its own thread. */
  predicate Acts(st: State, s: Step) {
    !s.Connect? && !s.Refresh? && s.at < |st.seats|
  }

  predicate Departs(st: State, s: Step) {
    Acts(st, s) && s.Leave? && st.seats[s.at].dying && st.seats[s.at].table == null
  }

  predicate Publishes(st: State, s: Step) {
    s.Refresh? && s.registry && s.site < |st.published|
  }

  /** One step; `made` is the table that a refresh publishes. */
  function Next(st: State, s: Step, made: CVRoots?): State {
    if Accepts(st, s) then st.(seats := [NEW_SEAT] + st.seats)
    else if Publishes(st, s) then st.(published := st.published[s.site := made])
    else if Departs(st, s) then st.(seats := st.seats[..s.at] + st.seats[s.at + 1..])
    else if Acts(st, s) then st.(seats := st.seats[s.at := SeatNext(st.published, st.seats[s.at], s)])
    else st
  }

  /** A run; made[i] is the table that step i makes, if it makes one. */
  function Fold(st: State, steps: seq<Step>, made: seq<CVRoots?>): State
    requires |steps| == |made|
  {
    if steps == [] then st
    else
      var n := |steps| - 1;
      Next(Fold(st, steps[..n], made[..n]), steps[n], made[n])
  }

  // ---------- What runs do ----------

  /** The number of connections goes up with a connection accepted, and down with a request that leaves. */
  lemma ConnectionsCount(st: State, s: Step, made: CVRoots?)
    ensures |Next(st, s, made).seats|
      == |st.seats| + (if Accepts(st, s) then 1 else 0) - (if Departs(st, s) then 1 else 0)
  {
  }

  /** Where the request at place p is after the step, which does not make it leave. */
  function Moved(st: State, s: Step, p: nat): int {
    if Accepts(st, s) then p + 1 else if Departs(st, s) && s.at < p then p - 1 else p
  }

  /** Where it is after the run. */
  function Place(st: State, steps: seq<Step>, made: seq<CVRoots?>, p: nat): int
    requires |steps| == |made|
  {
    if steps == [] then p
    else
      var n := |steps| - 1;
      var q := Place(st, steps[..n], made[..n], p);
      if q < 0 then q else Moved(Fold(st, steps[..n], made[..n]), steps[n], q)
  }

  /** No step of the run is one of the request that is at place p at first. */
  predicate Leaves(st: State, steps: seq<Step>, made: seq<CVRoots?>, p: nat)
    requires |steps| == |made|
  {
    steps == [] ||
    var n := |steps| - 1;
    var t := Fold(st, steps[..n], made[..n]);
    && Leaves(st, steps[..n], made[..n], p)
    && !(Acts(t, steps[n]) && steps[n].at == Place(st, steps[..n], made[..n], p))
  }

  /**
    What a request holds does not change under it: whatever other threads do meanwhile, and however often
    the web sites' tables are replaced, its table and root stay until it takes a step of its own.
  */
  lemma {:induction false} KeepsItsSeat(st: State, steps: seq<Step>, made: seq<CVRoots?>, p: nat)
    requires |steps| == |made| && p < |st.seats| && Leaves(st, steps, made, p)
    ensures var q := Place(st, steps, made, p);
      0 <= q < |Fold(st, steps, made).seats| && Fold(st, steps, made).seats[q] == st.seats[p]
    decreases |steps|
  {
    hide Next, Moved, Acts;
    if steps != [] {
      var n := |steps| - 1;
      KeepsItsSeat(st, steps[..n], made[..n], p);
      OthersStep(Fold(st, steps[..n], made[..n]), steps[n], made[n], Place(st, steps[..n], made[..n], p));
    }
  }

  lemma OthersStep(st: State, s: Step, made: CVRoots?, p: nat)
    requires p < |st.seats| && !(Acts(st, s) && s.at == p)
    ensures var q, t := Moved(st, s, p), Next(st, s, made);
      0 <= q < |t.seats| && t.seats[q] == st.seats[p]
  {
    hide SeatNext;
  }

  /**
    What a request's own step gives it lasts until its next one, through any run of the others: the table its
    site publishes at the time of the step, the root in its table, or nothing any more when it lets go.
  */
  lemma OwnStepLasts(st: State, s: Step, steps: seq<Step>, made: seq<CVRoots?>)
    requires Acts(st, s) && !s.Leave? && |steps| == |made|
    requires Leaves(Next(st, s, null), steps, made, s.at)
    ensures var q, p := st.seats[s.at], Place(Next(st, s, null), steps, made, s.at);
      var t := Fold(Next(st, s, null), steps, made);
      0 <= p < |t.seats| && if q.dying then t.seats[p] == q else OwnStepGives(st, s, q, t.seats[p])
  {
    KeepsItsSeat(Next(st, s, null), steps, made, s.at);
    hide Fold, Place, Leaves;
  }

  /** What step s of a request that is q, and not dying, gives it. */
  predicate OwnStepGives(st: State, s: Step, q: Seat, r: Seat) {
    && (s.Again? ==> r == Seat(q.table, None, q.website, q.resolved, false))
    && (s.Swap? && q.vroot == None && q.table != null && q.website < |st.published| ==>
          r == Seat(st.published[q.website], None, q.website, q.resolved, false))
    && (s.Swap? && (q.vroot != None || q.table == null) ==> r == q)
    && (s.Map? && !q.resolved && s.mapped.Some? && s.mapped.value < |st.published| ==>
          r == Seat(st.published[s.mapped.value], q.vroot, s.mapped.value, true, false))
    && (s.Map? && !q.resolved && s.mapped.None? ==> r == Seat(q.table, q.vroot, 0, false, false))
    && (s.Map? && q.resolved ==> r == q)
    && (s.Resolve? && q.table != null && s.root.Some? && s.root.value < q.table.count ==>
          r == Seat(q.table, Some(Root(q.table, s.root.value)), q.website, q.resolved, false))
    && (s.Resolve? && q.table != null && s.root.None? ==> r == Seat(q.table, None, q.website, q.resolved, false))
    && (s.LetGo? ==> r == Seat(null, q.vroot, q.website, q.resolved, true))
  }

  /** A request that leaves makes room: the next connection is accepted. */
  lemma LeavingMakesRoom(st: State, at: nat, s: Step)
    requires at < |st.seats| <= st.room && st.seats[at].dying && st.seats[at].table == null
    requires s.Connect? && s.secureAllowed && s.scheduled
    ensures var left := Next(st, Leave(at), null);
      && left.seats == st.seats[..at] + st.seats[at + 1..] && |left.seats| == |st.seats| - 1
      && Next(left, s, null).seats == [NEW_SEAT] + left.seats
  {
  }

  /** A request that is not dying, or still holds its table, does not leave. */
  lemma StaysUntilDone(st: State, at: nat)
    requires at < |st.seats| ==> !st.seats[at].dying || st.seats[at].table != null
    ensures Next(st, Leave(at), null) == st
  {
    if at < |st.seats| {
      assert st.seats[at := st.seats[at]] == st.seats;
    }
  }

  /** A refresh that succeeds replaces what one site publishes; it touches no request. */
  lemma RefreshPublishes(st: State, site: nat, registry: bool, count: nat, made: CVRoots?)
    ensures var t := Next(st, Refresh(site, registry, count), made);
      && t.seats == st.seats && t.room == st.room && |t.published| == |st.published|
      && forall i :: 0 <= i < |t.published| ==>
        t.published[i] == if i == site && registry then made else st.published[i]
  {
  }

  /** A connection is accepted after a run exactly if the run leaves room for it, and it may be served. */
  lemma AcceptedExactly(st: State, steps: seq<Step>, made: seq<CVRoots?>, secureAllowed: bool, scheduled: bool)
    requires |steps| == |made|
    ensures var t := Fold(st, steps, made);
      Next(t, Connect(secureAllowed, scheduled), null)
        == if |t.seats| < st.room && secureAllowed && scheduled then t.(seats := [NEW_SEAT] + t.seats) else t
  {
    hide Next;
    RoomStays(st, steps, made);
    OneConnect(Fold(st, steps, made), secureAllowed, scheduled);
  }

  lemma OneConnect(t: State, secureAllowed: bool, scheduled: bool)
    ensures Next(t, Connect(secureAllowed, scheduled), null)
      == if |t.seats| < t.room && secureAllowed && scheduled then t.(seats := [NEW_SEAT] + t.seats) else t
  {
  }

  lemma {:induction false} RoomStays(st: State, steps: seq<Step>, made: seq<CVRoots?>)
    requires |steps| == |made|
    ensures Fold(st, steps, made).room == st.room
    decreases |steps|
  {
    if steps != [] {
      var n := |steps| - 1;
      RoomStays(st, steps[..n], made[..n]);
    }
  }

  // ---------- Counting ----------

  /** How often t occurs in s. */
  ghost function Count(s: seq<CVRoots?>, t: CVRoots): nat {
    if s == [] then 0 else (if s[0] == t then 1 else 0) + Count(s[1..], t)
  }

  lemma {:induction false} CountUpdate(s: seq<CVRoots?>, i: nat, x: CVRoots?, t: CVRoots)
    requires i < |s|
    ensures Count(s[i := x], t) == Count(s, t) - (if s[i] == t then 1 else 0) + (if x == t then 1 else 0)
  {
    if i == 0 {
      assert s[i := x][1..] == s[1..];
    } else {
      assert s[i := x][1..] == s[1..][i - 1 := x];
      CountUpdate(s[1..], i - 1, x, t);
    }
  }

  lemma {:induction false} CountCut(s: seq<CVRoots?>, i: nat, t: CVRoots)
    requires i < |s|
    ensures Count(s[..i] + s[i + 1..], t) == Count(s, t) - (if s[i] == t then 1 else 0)
  {
    var r := s[..i] + s[i + 1..];
    if i == 0 {
      assert r == s[1..];
    } else {
      assert r[1..] == s[1..][..i - 1] + s[1..][i..];
      CountCut(s[1..], i - 1, t);
    }
  }

  lemma CountPush(x: CVRoots?, s: seq<CVRoots?>, t: CVRoots)
    ensures Count([x] + s, t) == Count(s, t) + (if x == t then 1 else 0)
  {
    assert ([x] + s)[1..] == s;
  }

  lemma {:induction false} CountIn(s: seq<CVRoots?>, i: nat, t: CVRoots)
    requires i < |s| && s[i] == t
    ensures Count(s, t) > 0
  {
    if i > 0 {
      CountIn(s[1..], i - 1, t);
    }
  }

  lemma {:induction false} CountNone(s: seq<CVRoots?>, t: CVRoots)
    requires forall i :: 0 <= i < |s| ==> s[i] == null
    ensures Count(s, t) == 0
  {
    if s != [] {
      CountNone(s[1..], t);
    }
  }

  // ---------- The list of requests ----------

  ghost function RequestAfter(requests: seq<HttpRequest>, i: nat): HttpRequest? {
    if i + 1 < |requests| then requests[i + 1] else null
  }

  ghost predicate Chain(head: HttpRequest?, requests: seq<HttpRequest>)
    reads (set r | r in requests)`next
  {
    && head == (if requests == [] then null else requests[0])
    && (forall i {:trigger requests[i].next} :: 0 <= i < |requests| ==> requests[i].next == RequestAfter(requests, i))
    && (forall i, j :: 0 <= i < j < |requests| ==> requests[i] != requests[j])
  }

  lemma PushRequest(r: HttpRequest, head: HttpRequest?, requests: seq<HttpRequest>)
    requires Chain(head, requests) && r.next == head && r !in requests
    ensures Chain(r, [r] + requests)
  {
  }

  lemma CutRequest(head: HttpRequest?, requests: seq<HttpRequest>, at: nat)
    requires at < |requests| && forall i, j :: 0 <= i < j < |requests| ==> requests[i] != requests[j]
    requires forall i {:trigger requests[i].next} ::
      0 <= i < |requests| && i != at && i + 1 != at ==> requests[i].next == RequestAfter(requests, i)
    requires if at == 0 then head == RequestAfter(requests, at)
      else head == requests[0] && requests[at - 1].next == RequestAfter(requests, at)
    ensures Chain(head, requests[..at] + requests[at + 1..])
  {
    var r := requests[..at] + requests[at + 1..];
    forall i | 0 <= i < |r| ensures r[i].next == RequestAfter(r, i) {
      assert r[i] == requests[if i < at then i else i + 1];
    }
  }

  /** The requests are in these seats, and their fields fit together. */
  ghost predicate Holding(requests: seq<HttpRequest>, seats: seq<Seat>, sites: nat)
    reads (set r | r in requests)`table, (set r | r in requests)`vroot, (set r | r in requests)`website
    reads (set r | r in requests)`resolved, (set r | r in requests)`dying
  {
    && |seats| == |requests|
    && forall i {:trigger seats[i]} {:trigger requests[i]} ::
      0 <= i < |requests| ==> requests[i].Value() == seats[i] && requests[i].Ok(sites)
  }

  /** The tables held in the seats. */
  ghost function Tables(seats: seq<Seat>): (held: seq<CVRoots?>)
    ensures |held| == |seats| && forall i :: 0 <= i < |held| ==> held[i] == seats[i].table
  {
    seq(|seats|, i requires 0 <= i < |seats| => seats[i].table)
  }

  /** Every count is right, and just the tables that nobody holds or publishes are deleted. */
  ghost predicate Counted(tables: set<CVRoots>, held: seq<CVRoots?>, published: seq<CVRoots?>)
    reads tables
  {
    && (forall i :: 0 <= i < |held| ==> held[i] == null || held[i] in tables)
    && (forall i :: 0 <= i < |published| ==> published[i] == null || published[i] in tables)
    && (forall t :: t in tables ==>
      t.refCount == Count(held, t) + Count(published, t) && (t.deleted <==> t.refCount == 0))
  }

  /** What a request holds, or a site publishes, is not deleted. */
  lemma HeldLives(tables: set<CVRoots>, held: seq<CVRoots?>, published: seq<CVRoots?>)
    requires Counted(tables, held, published)
    ensures forall i :: 0 <= i < |held| && held[i] != null ==> held[i] in tables && !held[i].deleted
    ensures forall i :: 0 <= i < |published| && published[i] != null ==> published[i] in tables && !published[i].deleted
  {
    forall i | 0 <= i < |held| && held[i] != null ensures !held[i].deleted {
      CountIn(held, i, held[i]);
    }
    forall i | 0 <= i < |published| && published[i] != null ensures !published[i].deleted {
      CountIn(published, i, published[i]);
    }
  }

  /**
    The globals: g_pRequestList, the connection count, and the table each web site publishes, the
    default site's first.
  */
  class WebServer {
    var requestList: HttpRequest?
    var nConnections: int
    const maxConnections: nat
    var published: seq<CVRoots?>
    /** The requests in the list, each of them as a value, and all tables ever made. */
    ghost var requests: seq<HttpRequest>
    ghost var seats: seq<Seat>
    ghost var tables: set<CVRoots>

    ghost predicate Valid()
      reads this, requests, tables
    {
      && Chain(requestList, requests) && Holding(requests, seats, |published|)
      && Counted(tables, Tables(seats), published)
      && nConnections == |requests| <= maxConnections
    }

    ghost function Value(): State
      reads this
    {
      State(seats, published, maxConnections)
    }

    ghost function Set(): set<HttpRequest>
      reads this
    {
      set r | r in requests
    }

    /** No site has been shut down. */
    ghost predicate Running()
      reads this
    {
      |published| > 0 && forall i :: 0 <= i < |published| ==> published[i] != null
    }

    // ---------- What always holds ----------

    /** A request in the list works with a table that is not deleted, and its root is inside that table. */
    lemma NoDanglingRoot(r: HttpRequest)
      requires Valid() && r in requests && !r.dying
      ensures r.table != null ==> r.table in tables && !r.table.deleted
      ensures r.vroot.Some? ==>
        r.table == r.vroot.value.table && !r.table.deleted && r.vroot.value.index < r.table.count
    {
      HeldLives(tables, Tables(seats), published);
      var i :| 0 <= i < |requests| && requests[i] == r;
      assert seats[i] == r.Value() && requests[i].Ok(|published|);
    }

    // ---------- Connections ----------

    /** A connection is accepted if there is room, it may be served, and a thread can be scheduled for it. */
    method CreateHTTPConnection(secureAllowed: bool, scheduled: bool) returns (request: HttpRequest?)
      requires Valid() && |published| > 0
      modifies this`requestList, this`nConnections, this`requests, this`seats, Set()`next
      ensures Valid()
      ensures request != null <==> old(nConnections) < maxConnections && secureAllowed && scheduled
      ensures if request != null
        then fresh(request) && requests == [request] + old(requests)
          && request.Value() == NEW_SEAT == Seat(null, None, 0, false, false) && seats == [NEW_SEAT] + old(seats)
        else requests == old(requests) && seats == old(seats)
    {
      request := null;
      if nConnections + 1 > maxConnections {
        return;
      }
      if !secureAllowed {
        return;
      }
      var r := new HttpRequest();
      Link(r);
      if !scheduled {
        RemoveFromList(r, 0);
        assert requests == old(requests) && seats == old(seats);
        return;
      }
      request := r;
    }

    method Link(r: HttpRequest)
      requires Valid() && |published| > 0 && nConnections < maxConnections && r !in requests
      requires r.Value() == NEW_SEAT
      modifies this`requestList, this`nConnections, this`requests, this`seats, r`next
      ensures Valid() && requests == [r] + old(requests) && seats == [NEW_SEAT] + old(seats)
    {
      hide Chain, Holding, Counted;
      r.next := requestList;
      PushRequest(r, requestList, requests);
      requestList := r;
      nConnections := nConnections + 1;
      PushHolding(r, requests, seats, |published|);
      PushCounted(tables, Tables(seats), published);
      assert Tables([NEW_SEAT] + seats) == [null] + Tables(seats);
      requests, seats := [r] + requests, [NEW_SEAT] + seats;
    }

    /** Takes a request out of the list. */
    method RemoveFromList(r: HttpRequest, ghost at: nat)
      requires Valid() && at < |requests| && requests[at] == r && r.table == null
      modifies this`requestList, this`nConnections, this`requests, this`seats, Set()`next
      ensures Valid() && requests == old(requests)[..at] + old(requests)[at + 1..]
      ensures |old(seats)| == |old(requests)| && seats == old(seats)[..at] + old(seats)[at + 1..]
      ensures nConnections == old(nConnections) - 1
    {
      hide Holding, Counted;
      nConnections := nConnections - 1;
      var trav, follow: HttpRequest? := requestList, null;
      ghost var i := 0;
      while trav != null
        invariant i <= at && trav == requests[i] && follow == if i == 0 then null else requests[i - 1]
        decreases at - i
      {
        if trav == r {
          break;
        }
        follow := trav;
        trav := trav.next;
        i := i + 1;
      }
      Relink(trav, follow, at);
      CutHolding(requests, seats, |published|, at);
      CutCounted(tables, Tables(seats), published, at);
      CutTables(seats, at);
      requests, seats := requests[..at] + requests[at + 1..], seats[..at] + seats[at + 1..];
    }

    method Relink(trav: HttpRequest, follow: HttpRequest?, ghost at: nat)
      requires Chain(requestList, requests) && at < |requests| && trav == requests[at]
      requires follow == if at == 0 then null else requests[at - 1]
      modifies this`requestList, Set()`next
      ensures Chain(requestList, requests[..at] + requests[at + 1..])
    {
      if trav == requestList {
        requestList := trav.next;
      }
      if follow != null {
        follow.next := trav.next;
      }
      CutRequest(requestList, requests, at);
    }

    // ---------- A request and its table ----------

    /** The request at `at` has become q; nothing else has changed in the seats. */
    ghost predicate Sat(at: nat, before: seq<Seat>, q: Seat)
      reads this`seats
    {
      at < |before| && seats == before[at := q]
    }

    /** ReInit, as far as the table goes: the last request's root is forgotten. */
    method ReInit(r: HttpRequest, ghost at: nat)
      requires Valid() && at < |requests| && r == requests[at] && !r.dying
      modifies this`seats, r`vroot
      ensures Valid() && r.vroot == None && Sat(at, old(seats), old(r.Value()).(vroot := None))
    {
      hide Chain, Holding, Counted, OthersHold;
      HeldTable(at);
      r.vroot := None;
      PutRequestBack(requestList, requests, seats, |published|, at);
      seats := seats[at := r.Value()];
    }

    /** The table may have been replaced since the last request of the connection. */
    method GetVirtualRootsTableFromWebsite(r: HttpRequest, ghost at: nat)
      requires Valid() && Running() && at < |requests| && r == requests[at] && r.vroot == None && !r.dying
      modifies this`seats, tables, r`table
      ensures Valid() && (r.table != null ==> r.table == published[r.website])
      ensures (r.table == null <==> old(r.table) == null)
      ensures Sat(at, old(seats), old(r.Value()).(table := r.table))
    {
      hide Chain, Holding, Counted, OthersHold;
      HeldTable(at);
      if r.table != null {
        var t := published[r.website];
        Exchange(r, at, t);
        r.table := t;
        PutRequestBack(requestList, requests, seats, |published|, at);
        seats := seats[at := r.Value()];
      }
    }

    lemma HeldTable(at: nat)
      requires Valid() && at < |requests|
      ensures |seats| == |requests| && requests[at].Value() == seats[at] && requests[at].Ok(|published|)
      ensures seats[at].table != null ==> seats[at].table in tables && !seats[at].table.deleted
      ensures OthersHold(requests, seats, |published|, requests[at])
      ensures seats == seats[at := seats[at]]
    {
      SetRequestAside(requests, seats, |published|, at);
      HeldLives(tables, Tables(seats), published);
      assert Tables(seats)[at] == seats[at].table;
    }

    /** Lets go of the table a request holds, and takes hold of `t`, which some site publishes. */
    method Exchange(r: HttpRequest, ghost at: nat, t: CVRoots)
      requires Counted(tables, Tables(seats), published) && at < |seats|
      requires r.table != null && seats[at].table == r.table && t in published
      modifies tables
      ensures Counted(tables, Tables(seats)[at := t], published)
    {
      ghost var held := Tables(seats);
      HeldLives(tables, held, published);
      var was := r.table;
      assert held[at] == was;
      assert was in tables && t in tables && !t.deleted;
      ghost var held' := held[at := null];
      forall u | u in tables ensures Count(held', u) == Count(held, u) - if u == was then 1 else 0 {
        CountUpdate(held, at, null, u);
      }
      was.DelRef();
      forall u | u in tables ensures Count(held'[at := t], u) == Count(held', u) + if u == t then 1 else 0 {
        CountUpdate(held', at, t, u);
      }
      ghost var k :| 0 <= k < |published| && published[k] == t;
      CountIn(published, k, t);
      assert Counted(tables, held', published);
      t.AddRef();
      assert held'[at := t] == held[at := t];
    }

    /** Finds the web site of the connection's first request; `site` is the one mapped to it, if any. */
    method MapWebsite(r: HttpRequest, site: Option<nat>, ghost at: nat) returns (ok: bool)
      requires Valid() && Running() && at < |requests| && r == requests[at] && !r.resolved && !r.dying
      requires site.Some? ==> site.value < |published|
      modifies this`seats, tables, r`table, r`website, r`resolved
      ensures Valid() && ok == site.Some? == r.resolved
      ensures r.table == (if ok then published[site.value] else null) && r.website == if ok then site.value else 0
      ensures Sat(at, old(seats), old(r.Value()).(table := r.table, website := r.website, resolved := ok))
    {
      hide Chain, Holding, Counted, OthersHold;
      HeldTable(at);
      if site.None? {
        r.website := 0;
        PutRequestBack(requestList, requests, seats, |published|, at);
        seats := seats[at := r.Value()];
        return false;
      }
      var t := published[site.value];
      Acquire(t, at);
      r.table, r.website, r.resolved := t, site.value, true;
      PutRequestBack(requestList, requests, seats, |published|, at);
      seats := seats[at := r.Value()];
      return true;
    }

    method Acquire(t: CVRoots, ghost at: nat)
      requires Counted(tables, Tables(seats), published) && at < |seats| && seats[at].table == null && t in published
      modifies tables
      ensures Counted(tables, Tables(seats)[at := t], published)
    {
      ghost var held := Tables(seats);
      HeldLives(tables, held, published);
      assert t in tables && !t.deleted;
      forall u | u in tables ensures Count(held[at := t], u) == Count(held, u) + if u == t then 1 else 0 {
        CountUpdate(held, at, t, u);
      }
      t.AddRef();
    }

    /** URLAtoPathW: the request's root is one of its table's, or none. */
    method ResolveURL(r: HttpRequest, root: Option<nat>, ghost at: nat)
      requires Valid() && at < |requests| && r == requests[at] && r.table != null && !r.dying
      requires root.Some? ==> root.value < r.table.count
      modifies this`seats, r`vroot
      ensures Sat(at, old(seats), old(r.Value()).(vroot := r.vroot))
      ensures Valid() && r.vroot == match root case None => None case Some(i) => Some(Root(r.table, i))
    {
      hide Chain, Holding, Counted, OthersHold;
      HeldTable(at);
      r.vroot := match root case None => None case Some(i) => Some(Root(r.table, i));
      PutRequestBack(requestList, requests, seats, |published|, at);
      seats := seats[at := r.Value()];
    }

    /** The destructor's first half: the table is let go. */
    method ReleaseTable(r: HttpRequest, ghost at: nat)
      requires Valid() && at < |requests| && r == requests[at]
      modifies this`seats, tables, r`table, r`dying
      ensures Valid() && r.table == null && r.dying
      ensures Sat(at, old(seats), old(r.Value()).(table := null, dying := true))
    {
      hide Chain, Holding, Counted, OthersHold;
      HeldTable(at);
      if r.table != null {
        Release(r.table, at);
        r.table := null;
      }
      r.dying := true;
      PutRequestBack(requestList, requests, seats, |published|, at);
      seats := seats[at := r.Value()];
    }

    method Release(t: CVRoots, ghost at: nat)
      requires Counted(tables, Tables(seats), published) && at < |seats| && seats[at].table == t
      modifies tables
      ensures Counted(tables, Tables(seats)[at := null], published)
    {
      ghost var held := Tables(seats);
      assert held[at] == t;
      HeldLives(tables, held, published);
      forall u | u in tables ensures Count(held[at := null], u) == Count(held, u) - if u == t then 1 else 0 {
        CountUpdate(held, at, null, u);
      }
      t.DelRef();
    }

    /** The destructor. */
    method Delete(r: HttpRequest, ghost at: nat)
      requires Valid() && at < |requests| && r == requests[at]
      modifies this`requestList, this`nConnections, this`requests, this`seats, tables, Set()
      ensures Valid() && requests == old(requests)[..at] + old(requests)[at + 1..]
    {
      assert r in Set();
      ReleaseTable(r, at);
      RemoveFromList(r, at);
    }

    // ---------- Web sites ----------

    /** A web site publishes a new table; requests keep the one they hold. */
    method RefreshVrootTable(site: nat, registry: bool, count: nat) returns (ok: bool)
      requires Valid() && Running() && site < |published|
      modifies this`published, this`tables, tables
      ensures Valid() && Running() && ok == registry && |published| == |old(published)|
      ensures old(tables) <= tables && fresh(tables - old(tables))
      ensures forall i :: 0 <= i < |published| && i != site ==> published[i] == old(published)[i]
      ensures if ok
        then fresh(published[site]) && published[site] !in old(tables) && published[site].count == count
        else published == old(published)
    {
      hide Chain, Holding, Counted;
      if !registry {
        return false;
      }
      var t := new CVRoots(count);
      t.AddRef();
      Publish(site, t);
      return true;
    }

    method Publish(site: nat, t: CVRoots)
      requires Counted(tables, Tables(seats), published) && site < |published| && published[site] != null
      requires t !in tables && t.refCount == 1 && !t.deleted
      modifies this`published, this`tables, tables
      ensures tables == old(tables) + {t} && published == old(published)[site := t]
      ensures Counted(tables, Tables(seats), published)
    {
      ghost var held := Tables(seats);
      HeldLives(tables, held, published);
      var was := published[site];
      forall u | u in tables + {t}
        ensures Count(published[site := t], u)
          == Count(published, u) - (if u == was then 1 else 0) + (if u == t then 1 else 0)
      {
        CountUpdate(published, site, t, u);
      }
      NotYetCounted(held, published, tables, t);
      was.DelRef();
      published, tables := published[site := t], tables + {t};
    }

    /** The refresh comes to site i, and site i can be read. */
    static predicate Reached(registry: seq<bool>, i: nat) {
      i < |registry| && forall k :: 0 <= k <= i ==> registry[k]
    }

    /** All web sites in order; the first that fails ends it, and it and those behind it keep their tables. */
    method RefreshAll(registry: seq<bool>, counts: seq<nat>) returns (ok: bool)
      requires Valid() && Running() && |registry| == |counts| == |published|
      modifies this`published, this`tables, tables
      ensures Valid() && Running() && |published| == |old(published)| && old(tables) <= tables
      ensures ok <==> forall i :: 0 <= i < |registry| ==> registry[i]
      ensures forall i :: 0 <= i < |published| ==>
        if Reached(registry, i) then published[i] !in old(tables) else published[i] == old(published)[i]
    {
      for i := 0 to |published|
        invariant Valid() && Running() && |published| == |old(published)|
        invariant old(tables) <= tables && fresh(tables - old(tables))
        invariant forall k :: 0 <= k < i ==> registry[k] && published[k] !in old(tables)
        invariant forall k :: i <= k < |published| ==> published[k] == old(published)[k]
      {
        ok := RefreshVrootTable(i, registry[i], counts[i]);
        if !ok {
          return;
        }
      }
      ok := true;
    }

    // ---------- Runs ----------

    /** The request at a place in the list. */
    method RequestAt(at: nat) returns (r: HttpRequest?)
      requires Valid()
      ensures r == if at < |requests| then requests[at] else null
    {
      hide Holding, Counted;
      r := requestList;
      var i := 0;
      while r != null && i < at
        invariant i <= at && i <= |requests| && r == if i < |requests| then requests[i] else null
        decreases at - i
      {
        r := r.next;
        i := i + 1;
      }
    }

    /** One step of the thread of request r; a step that its thread cannot be about to take does nothing. */
    method ThreadStep(s: Step, r: HttpRequest, ghost at: nat)
      requires Valid() && Running() && at < |requests| && r == requests[at] && !s.Connect? && !s.Refresh? && s.at == at
      modifies this`requestList, this`nConnections, this`requests, this`seats, tables, Set()
      ensures Valid() && Set() <= old(Set())
      ensures Value() == Next(old(Value()), s, null)
    {
      hide Chain, Holding, Counted, OthersHold;
      Member(at);
      HeldTable(at);
      match s {
        case Again(_) =>
          if !r.dying {
            ReInit(r, at);
          }
        case Swap(_) =>
          if !r.dying && r.vroot.None? {
            GetVirtualRootsTableFromWebsite(r, at);
          }
        case Map(_, site) =>
          if !r.dying && !r.resolved && (site.Some? ==> site.value < |published|) {
            var ok := MapWebsite(r, site, at);
          }
        case Resolve(_, root) =>
          if !r.dying && r.table != null && (root.Some? ==> root.value < r.table.count) {
            ResolveURL(r, root, at);
          }
        case LetGo(_) =>
          if !r.dying {
            ReleaseTable(r, at);
          }
        case Leave(_) =>
          if r.dying && r.table == null {
            RemoveFromList(r, at);
          }
      }
    }

    lemma Member(at: nat)
      requires at < |requests|
      ensures requests[at] in Set()
    {
    }

    /** `t` is a table made by step s: a refresh, which has succeeded. */
    static ghost predicate MadeBy(st: State, s: Step, t: CVRoots?) {
      if Publishes(st, s) then t != null && t.count == s.count else t == null
    }

    /** One step of any thread; `made` is the table it makes. */
    method OneStep(s: Step) returns (ghost made: CVRoots?)
      requires Valid() && Running()
      modifies this, tables, Set()
      ensures Valid() && Running() && fresh(tables - old(tables)) && fresh(Set() - old(Set()))
      ensures Value() == Next(old(Value()), s, made)
      ensures MadeBy(old(Value()), s, made) && (made != null ==> fresh(made))
    {
      hide Chain, Holding, Counted;
      made := null;
      match s {
        case Connect(secureAllowed, scheduled) =>
          Sizes();
          var r := CreateHTTPConnection(secureAllowed, scheduled);
        case Refresh(site, registry, count) =>
          if site < |published| {
            var ok := RefreshVrootTable(site, registry, count);
            if ok {
              made := published[site];
              assert published == old(published)[site := made];
            }
          }
        case _ =>
          Sizes();
          var r := RequestAt(s.at);
          if r != null {
            ThreadStep(s, r, s.at);
          }
      }
    }

    lemma Sizes()
      requires Valid()
      ensures |seats| == |requests| == nConnections
    {
    }

    /**
      Any interleaving of any number of threads, with connections coming and going and tables being
      replaced, is the fold of its steps; and after every step the counts are right, no held table is
      deleted, every request's root is in the table it holds, and the connections are counted.
    */
    method Run(steps: seq<Step>) returns (ghost made: seq<CVRoots?>)
      requires Valid() && Running()
      modifies this, tables, Set()
      ensures Valid() && Running()
      ensures |made| == |steps| && Value() == Fold(old(Value()), steps, made)
      ensures forall i :: 0 <= i < |steps| ==>
        && MadeBy(Fold(old(Value()), steps[..i], made[..i]), steps[i], made[i])
        && (made[i] != null ==> fresh(made[i]))
    {
      hide Chain, Holding, Counted, Valid, Next, MadeBy;
      made := [];
      for i := 0 to |steps|
        invariant Valid() && Running() && |made| == i
        invariant fresh(tables - old(tables)) && fresh(Set() - old(Set()))
        invariant Value() == Fold(old(Value()), steps[..i], made)
        invariant forall k :: 0 <= k < i ==>
          && MadeBy(Fold(old(Value()), steps[..k], made[..k]), steps[k], made[k])
          && (made[k] != null ==> fresh(made[k]))
      {
        ghost var t := OneStep(steps[i]);
        OneMore(old(Value()), steps, made, i, t);
        made := made + [t];
      }
      assert steps[..|steps|] == steps;
    }

    static lemma OneMore(st: State, steps: seq<Step>, made: seq<CVRoots?>, i: nat, t: CVRoots?)
      requires i < |steps| && |made| == i
      ensures Fold(st, steps[..i + 1], made + [t]) == Next(Fold(st, steps[..i], made), steps[i], t)
      ensures forall k :: 0 <= k <= i ==> (made + [t])[..k] == made[..k]
    {
      hide Next;
      assert steps[..i + 1][..i] == steps[..i] && (made + [t])[..i] == made;
    }

    // ---------- Shutdown ----------

    method DeleteAllRequestObjects()
      requires Valid()
      modifies this`requestList, this`nConnections, this`requests, this`seats, tables, Set()
      ensures Valid() && requests == [] && nConnections == 0 && requestList == null
    {
      var trav := requestList;
      while trav != null
        invariant Valid() && trav == requestList && Set() <= old(Set())
        decreases |requests|
      {
        var delete := trav;
        trav := trav.next;
        ghost var rest := requests[1..];
        assert requests[..0] + requests[1..] == rest;
        assert trav == if rest == [] then null else rest[0];
        Delete(delete, 0);
        assert requests == rest;
      }
      requestList := null;
    }

    /** At the end nothing is left: no request, and no table that is not deleted. */
    method CleanupGlobalMemory()
      requires Valid() && Running()
      modifies this, tables, Set()
      ensures Valid() && requests == [] && nConnections == 0 && tables == old(tables)
      ensures forall t :: t in tables ==> t.deleted
    {
      DeleteAllRequestObjects();
      for i := 1 to |published|
        invariant Valid() && requests == [] && nConnections == 0
        invariant tables == old(tables) && |published| == |old(published)|
        invariant published[0] != null && forall k :: 0 < k < |published| ==> (published[k] == null <==> k < i)
      {
        DeInitGlobals(i);
      }
      DeInitGlobals(0);
      forall t | t in tables ensures t.deleted {
        CountNone(Tables(seats), t);
        CountNone(published, t);
      }
    }

    /** A web site lets its table go. */
    method DeInitGlobals(site: nat)
      requires Valid() && site < |published| && published[site] != null
      modifies this`published, tables
      ensures Valid() && published == old(published)[site := null]
    {
      hide Chain, Holding;
      ghost var held := Tables(seats);
      HeldLives(tables, held, published);
      var t := published[site];
      forall u | u in tables
        ensures Count(published[site := null], u) == Count(published, u) - if u == t then 1 else 0
      {
        CountUpdate(published, site, null, u);
      }
      t.DelRef();
      published := published[site := null];
    }
  }

  lemma PushHolding(r: HttpRequest, requests: seq<HttpRequest>, seats: seq<Seat>, sites: nat)
    requires Holding(requests, seats, sites) && r.Value() == NEW_SEAT && sites > 0
    ensures Holding([r] + requests, [NEW_SEAT] + seats, sites)
  {
  }

  lemma PushCounted(tables: set<CVRoots>, held: seq<CVRoots?>, published: seq<CVRoots?>)
    requires Counted(tables, held, published)
    ensures Counted(tables, [null] + held, published)
  {
    forall t | t in tables ensures Count([null] + held, t) == Count(held, t) {
      CountPush(null, held, t);
    }
  }

  lemma CutHolding(requests: seq<HttpRequest>, seats: seq<Seat>, sites: nat, at: nat)
    requires Holding(requests, seats, sites) && at < |requests|
    ensures |seats| == |requests| && seats[at] == requests[at].Value()
    ensures Holding(requests[..at] + requests[at + 1..], seats[..at] + seats[at + 1..], sites)
  {
    var r, h := requests[..at] + requests[at + 1..], seats[..at] + seats[at + 1..];
    forall i | 0 <= i < |r| ensures r[i].Value() == h[i] && r[i].Ok(sites) {
      assert r[i] == requests[if i < at then i else i + 1] && h[i] == seats[if i < at then i else i + 1];
    }
  }

  lemma CutTables(seats: seq<Seat>, at: nat)
    requires at < |seats|
    ensures Tables(seats[..at] + seats[at + 1..]) == Tables(seats)[..at] + Tables(seats)[at + 1..]
  {
  }

  lemma CutCounted(tables: set<CVRoots>, held: seq<CVRoots?>, published: seq<CVRoots?>, at: nat)
    requires Counted(tables, held, published) && at < |held| && held[at] == null
    ensures Counted(tables, held[..at] + held[at + 1..], published)
  {
    forall t | t in tables ensures Count(held[..at] + held[at + 1..], t) == Count(held, t) {
      CountCut(held, at, t);
    }
  }

  /** A table that is new to the server occurs nowhere. */
  lemma NotYetCounted(held: seq<CVRoots?>, published: seq<CVRoots?>, tables: set<CVRoots>, t: CVRoots)
    requires t !in tables
    requires forall i :: 0 <= i < |held| ==> held[i] == null || held[i] in tables
    requires forall i :: 0 <= i < |published| ==> published[i] == null || published[i] in tables
    ensures Count(held, t) == 0 && Count(published, t) == 0
  {
    NotIn(held, t);
    NotIn(published, t);
  }

  lemma {:induction false} NotIn(s: seq<CVRoots?>, t: CVRoots)
    requires forall i :: 0 <= i < |s| ==> s[i] != t
    ensures Count(s, t) == 0
  {
    if s != [] {
      NotIn(s[1..], t);
    }
  }

  /** Holding, for all requests but one. */
  ghost predicate OthersHold(requests: seq<HttpRequest>, seats: seq<Seat>, sites: nat, r: HttpRequest)
    reads set q | q in requests && q != r
  {
    && |seats| == |requests|
    && forall i {:trigger seats[i]} {:trigger requests[i]} ::
      0 <= i < |requests| && requests[i] != r ==> requests[i].Value() == seats[i] && requests[i].Ok(sites)
  }

  lemma SetRequestAside(requests: seq<HttpRequest>, seats: seq<Seat>, sites: nat, at: nat)
    requires Holding(requests, seats, sites) && at < |requests|
    ensures OthersHold(requests, seats, sites, requests[at])
    ensures |seats| == |requests| && requests[at].Value() == seats[at] && requests[at].Ok(sites)
  {
  }

  lemma PutRequestBack(head: HttpRequest?, requests: seq<HttpRequest>, seats: seq<Seat>, sites: nat, at: nat)
    requires Chain(head, requests) && at < |requests| && OthersHold(requests, seats, sites, requests[at])
    requires |seats| == |requests| && requests[at].Ok(sites)
    ensures Holding(requests, seats[at := requests[at].Value()], sites)
    ensures var held := Tables(seats[at := requests[at].Value()]);
      held == Tables(seats)[at := requests[at].table]
      && (requests[at].table == seats[at].table ==> held == Tables(seats))
  {
  }
}
