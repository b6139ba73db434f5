/**
 The connection pool of database/Database.hpp as interleaved steps: every step is what one
 thread does while it holds the pool's mutex, or a timeout, or a connection attempt that
 ends. A call is one execution of acquire together with the release of what it returned.
 */
module Pool {
  import opened Bytes

  type Conn = nat
  type Call = nat

  // ---- The pool's own fields ----

  /** `active` is never negative in a reachable state, but nothing in the code says so. */
  datatype Slots = Slots(size: nat, available: seq<Conn>, active: int)

  predicate CanProceed(p: Slots) {
    p.available != [] || |p.available| + p.active < p.size
  }

  /** acquire past its wait: a queued connection, or None for a reserved slot to connect in. */
  function Taken(p: Slots): (Option<Conn>, Slots) {
    if p.available != [] then (Some(p.available[0]), p.(available := p.available[1..], active := p.active + 1))
    else (None, p.(active := p.active + 1))
  }

  function Returned(p: Slots, conn: Option<Conn>): Slots {
    match conn
    case Some(c) => p.(available := p.available + [c], active := p.active - 1)
    case None => p.(active := p.active - 1)
  }

  /** The critical sections of the pool object. */
  class ConnectionPool {
    const size: nat
    var available: seq<Conn>
    var active: int

    ghost function View(): Slots
      reads this
    {
      Slots(size, available, active)
    }

    constructor (conns: seq<Conn>)
      ensures View() == Slots(|conns|, conns, 0)
    {
      size, available, active := |conns|, conns, 0;
    }

    method Ready() returns (r: bool)
      ensures r == CanProceed(View())
    {
      return available != [] || |available| + active < size;
    }

    method Take() returns (conn: Option<Conn>)
      modifies this
      ensures (conn, View()) == Taken(old(View()))
    {
      if available != [] {
        conn := Some(available[0]);
        available := available[1..];
        active := active + 1;
        return;
      }
      active := active + 1;
      return None;
    }

    /** The connection attempt failed: the reserved slot is given back. */
    method GiveUp()
      modifies this
      ensures View() == Returned(old(View()), None)
    {
      active := active - 1;
    }

    /** A broken connection is dropped, a healthy one queued. */
    method Release(conn: Conn, open: bool)
      modifies this
      ensures View() == Returned(old(View()), if open then Some(conn) else None)
    {
      if open {
        available := available + [conn];
      }
      active := active - 1;
    }
  }

  // ---- The whole system ----

  /** Where a call is: asleep on the condition variable, notified but not yet rerun, past its deadline, connecting, or holding. */
  datatype Place = Sleeping | Woken | Late | Connecting | Holding(conn: Conn)

  datatype System = System(pool: Slots, calls: map<Call, Place>)

  datatype Step =
    | Enter(c: Call)
    | Timeout(c: Call)
    | Spurious(c: Call)
    | Rerun(c: Call, expired: bool)
    | LastCheck(c: Call)
    | Connected(c: Call, conn: Conn)
    | ConnectFailed(c: Call, wake: Option<Call>)
    | Release(c: Call, open: bool, wake: Option<Call>)

  predicate IsAt(s: System, c: Call, place: Place) {
    c in s.calls && s.calls[c] == place
  }

  predicate Holds(s: System, c: Call) {
    c in s.calls && s.calls[c].Holding?
  }

  function Sleepers(s: System): set<Call> {
    set c <- s.calls | s.calls[c].Sleeping?
  }

  function Notified(s: System): set<Call> {
    set c <- s.calls | s.calls[c].Woken?
  }

  /** The calls that use a slot. */
  function Users(s: System): set<Call> {
    set c <- s.calls | s.calls[c].Connecting? || s.calls[c].Holding?
  }

  /** notify_one wakes some sleeper when there is one. */
  predicate MayWake(s: System, wake: Option<Call>) {
    match wake
    case Some(c) => IsAt(s, c, Sleeping)
    case None => Sleepers(s) == {}
  }

  predicate InUse(s: System, conn: Conn) {
    conn in s.pool.available || Holding(conn) in s.calls.Values
  }

  predicate Enabled(s: System, step: Step) {
    match step
    case Enter(c) => c !in s.calls
    case Timeout(c) => IsAt(s, c, Sleeping)
    case Spurious(c) => IsAt(s, c, Sleeping)
    case Rerun(c, _) => IsAt(s, c, Woken)
    case LastCheck(c) => IsAt(s, c, Late)
    case Connected(c, conn) => IsAt(s, c, Connecting) && !InUse(s, conn)
    case ConnectFailed(c, wake) => IsAt(s, c, Connecting) && MayWake(s, wake)
    case Release(c, _, wake) => Holds(s, c) && MayWake(s, wake)
  }

  /** The call takes a queued connection, or reserves a slot and goes to connect. */
  function Admit(s: System, c: Call): System {
    var t := Taken(s.pool);
    System(t.1, s.calls[c := match t.0 { case Some(conn) => Holding(conn) case None => Connecting }])
  }

  function Notify(s: System, wake: Option<Call>): System {
    match wake
    case Some(c) => s.(calls := s.calls[c := Woken])
    case None => s
  }

  /** The slot of a call is given back, with its connection or without, and one sleeper is notified. */
  function GiveBack(s: System, c: Call, conn: Option<Conn>, wake: Option<Call>): System {
    Notify(System(Returned(s.pool, conn), s.calls - {c}), wake)
  }

  function Next(s: System, step: Step): System
    requires Enabled(s, step)
  {
    match step
    case Enter(c) => if CanProceed(s.pool) then Admit(s, c) else s.(calls := s.calls[c := Sleeping])
    case Timeout(c) => s.(calls := s.calls[c := Late])
    case Spurious(c) => s.(calls := s.calls[c := Woken])
    case Rerun(c, expired) =>
      if CanProceed(s.pool) then Admit(s, c)
      else if expired then s.(calls := s.calls - {c})
      else s.(calls := s.calls[c := Sleeping])
    case LastCheck(c) => if CanProceed(s.pool) then Admit(s, c) else s.(calls := s.calls - {c})
    case Connected(c, conn) => s.(calls := s.calls[c := Holding(conn)])
    case ConnectFailed(c, wake) => GiveBack(s, c, None, wake)
    case Release(c, open, wake) => GiveBack(s, c, if open then Some(s.calls[c].conn) else None, wake)
  }

  // ---- What every step keeps ----

  /** Every active slot is one call that connects or holds; the pool never exceeds its size. */
  predicate Counts(s: System) {
    s.pool.active == |Users(s)| && |s.pool.available| + s.pool.active <= s.pool.size
  }

  /** A connection is queued once, or held by one call. */
  predicate Exclusive(s: System) {
    && (forall i, j | 0 <= i < j < |s.pool.available| :: s.pool.available[i] != s.pool.available[j])
    && (forall c <- s.calls | s.calls[c].Holding? :: s.calls[c].conn !in s.pool.available)
    && (forall c <- s.calls, d <- s.calls | c != d && s.calls[c].Holding? :: s.calls[c] != s.calls[d])
  }

  /** While a call sleeps, there are no more free slots than calls notified and not yet rerun. */
  predicate NoLostWakeUp(s: System) {
    Sleepers(s) != {} ==> s.pool.size - s.pool.active <= |Notified(s)|
  }

  predicate Inv(s: System) {
    Counts(s) && Exclusive(s) && NoLostWakeUp(s)
  }

  function Initial(conns: seq<Conn>): System {
    System(Slots(|conns|, conns, 0), map[])
  }

  /** A call can proceed exactly when a slot is free: dropped connections cost no capacity. */
  lemma CanProceedIffFree(s: System)
    requires Counts(s)
    ensures CanProceed(s.pool) <==> s.pool.active < s.pool.size
  {
    hide Users;
  }

  function One(b: bool): nat {
    if b then 1 else 0
  }

  /** Whether the call is in each of the three groups. */
  lemma Groups(s: System, c: Call)
    ensures c in Sleepers(s) <==> IsAt(s, c, Sleeping)
    ensures c in Notified(s) <==> IsAt(s, c, Woken)
    ensures c in Users(s) <==> IsAt(s, c, Connecting) || Holds(s, c)
  {
  }

  lemma Recount(a: set<Call>, b: set<Call>, c: Call)
    requires forall d | d != c :: d in a <==> d in b
    ensures |b| == |a| - One(c in a) + One(c in b)
  {
    assert a - {c} == b - {c};
    assert |a - {c}| == |a| - One(c in a);
    assert |b - {c}| == |b| - One(c in b);
  }

  /** How the groups change when one call moves. */
  lemma Moved(s: System, c: Call, t: System)
    requires forall d | d != c :: d in t.calls <==> d in s.calls
    requires forall d | d != c && d in s.calls :: t.calls[d] == s.calls[d]
    ensures |Users(t)| == |Users(s)| - One(IsAt(s, c, Connecting) || Holds(s, c)) + One(IsAt(t, c, Connecting) || Holds(t, c))
    ensures |Notified(t)| == |Notified(s)| - One(IsAt(s, c, Woken)) + One(IsAt(t, c, Woken))
    ensures Sleepers(t) != {} && !IsAt(t, c, Sleeping) ==> Sleepers(s) != {}
    ensures IsAt(s, c, Sleeping) ==> Sleepers(s) != {}
  {
    Groups(s, c);
    Groups(t, c);
    Recount(Users(s), Users(t), c);
    Recount(Notified(s), Notified(t), c);
    if x :| x in Sleepers(t) {
      assert x != c ==> x in Sleepers(s);
    }
  }

  lemma AdmitExclusive(s: System, c: Call)
    requires Exclusive(s)
    ensures Exclusive(Admit(s, c))
  {
    var q := s.pool.available;
    if q != [] {
      assert forall x <- q[1..] :: x in q;
      forall i | 0 <= i < |q| - 1 ensures q[1..][i] == q[i + 1] && q[1..][i] != q[0] {
      }
      assert q[0] in q;
    }
  }

  /** An admitted call takes a free slot and stops being notified, if it was. */
  lemma AdmitKeepsInv(s: System, c: Call)
    requires Inv(s) && CanProceed(s.pool) && !IsAt(s, c, Connecting) && !Holds(s, c)
    ensures Inv(Admit(s, c))
  {
    hide Exclusive, Users, Notified, Sleepers;
    AdmitExclusive(s, c);
    Moved(s, c, Admit(s, c));
  }

  lemma SamePoolExclusive(s: System, t: System)
    requires Exclusive(s) && t.pool == s.pool
    requires forall c | Holds(t, c) :: Holds(s, c) && s.calls[c] == t.calls[c]
    ensures Exclusive(t)
  {
    assert forall c <- t.calls | t.calls[c].Holding? :: Holds(t, c);
  }

  /** A call past the wait: admitted when a slot is free. */
  lemma AdmittedKeepsInv(s: System, step: Step)
    requires Inv(s) && Enabled(s, step) && (step.Enter? || step.Rerun? || step.LastCheck?) && CanProceed(s.pool)
    ensures Inv(Next(s, step)) && Next(s, step).pool.size == s.pool.size
  {
    hide Exclusive, Counts, NoLostWakeUp, CanProceed, Users;
    AdmitKeepsInv(s, step.c);
  }

  /** A call that must wait, or gives up: no slot is free then. */
  lemma RefusedKeepsInv(s: System, step: Step)
    requires Inv(s) && Enabled(s, step) && (step.Enter? || step.Rerun? || step.LastCheck?) && !CanProceed(s.pool)
    ensures Inv(Next(s, step)) && Next(s, step).pool == s.pool
  {
    hide Exclusive, Users, Sleepers, Notified;
    CanProceedIffFree(s);
    SamePoolExclusive(s, Next(s, step));
    Moved(s, step.c, Next(s, step));
  }

  /** A deadline that fires, or a wake-up without cause, while the call sleeps. */
  lemma LeavingSleepKeepsInv(s: System, step: Step)
    requires Inv(s) && Enabled(s, step) && (step.Timeout? || step.Spurious?)
    ensures Inv(Next(s, step)) && Next(s, step).pool == s.pool
  {
    hide Exclusive, Users, Sleepers, Notified;
    SamePoolExclusive(s, Next(s, step));
    Moved(s, step.c, Next(s, step));
  }

  lemma ConnectedKeepsInv(s: System, c: Call, conn: Conn)
    requires Inv(s) && Enabled(s, Connected(c, conn))
    ensures Inv(Next(s, Connected(c, conn))) && Next(s, Connected(c, conn)).pool == s.pool
  {
    hide Users, Sleepers, Notified;
    var t := Next(s, Connected(c, conn));
    Moved(s, c, t);
    ConnectedExclusive(s, c, conn);
  }

  lemma ConnectedExclusive(s: System, c: Call, conn: Conn)
    requires Exclusive(s) && !InUse(s, conn)
    ensures Exclusive(s.(calls := s.calls[c := Holding(conn)]))
  {
    assert forall d <- s.calls :: s.calls[d] in s.calls.Values;
  }

  /** A slot given back goes together with a wake-up, if anyone sleeps. */
  lemma GiveBackWakes(s: System, c: Call, conn: Option<Conn>, wake: Option<Call>)
    requires Counts(s) && NoLostWakeUp(s) && (IsAt(s, c, Connecting) || Holds(s, c)) && MayWake(s, wake)
    ensures var t := GiveBack(s, c, conn, wake); Counts(t) && NoLostWakeUp(t) && t.pool.size == s.pool.size
  {
    hide Users, Sleepers, Notified;
    var u := System(Returned(s.pool, conn), s.calls - {c});
    Moved(s, c, u);
    if wake.Some? {
      Moved(s, wake.value, s);
      Moved(u, wake.value, GiveBack(s, c, conn, wake));
    }
  }

  lemma GiveBackExclusive(s: System, c: Call, conn: Option<Conn>, wake: Option<Call>)
    requires Exclusive(s) && MayWake(s, wake)
    requires conn.Some? ==> IsAt(s, c, Holding(conn.value))
    ensures Exclusive(GiveBack(s, c, conn, wake))
  {
    hide Sleepers;
  }

  lemma GivenBackKeepsInv(s: System, step: Step)
    requires Inv(s) && Enabled(s, step) && (step.ConnectFailed? || step.Release?)
    ensures Inv(Next(s, step)) && Next(s, step).pool.size == s.pool.size
  {
    hide Exclusive, Users, Counts, NoLostWakeUp, GiveBack;
    var conn := if step.Release? && step.open then Some(s.calls[step.c].conn) else None;
    GiveBackWakes(s, step.c, conn, step.wake);
    GiveBackExclusive(s, step.c, conn, step.wake);
  }

  /** Every step of every call keeps the invariant. */
  lemma StepKeepsInv(s: System, step: Step)
    requires Inv(s) && Enabled(s, step)
    ensures Inv(Next(s, step)) && Next(s, step).pool.size == s.pool.size
  {
    hide Inv, CanProceed;
    match step
    case Timeout(_) => LeavingSleepKeepsInv(s, step);
    case Spurious(_) => LeavingSleepKeepsInv(s, step);
    case Connected(c, conn) => ConnectedKeepsInv(s, c, conn);
    case ConnectFailed(_, _) => GivenBackKeepsInv(s, step);
    case Release(_, _, _) => GivenBackKeepsInv(s, step);
    case _ =>
      if CanProceed(s.pool) {
        AdmittedKeepsInv(s, step);
      } else {
        RefusedKeepsInv(s, step);
      }
  }

  // ---- Connections are conserved ----

  /** The step gives up a broken connection. */
  predicate Drops(s: System, step: Step, conn: Conn) {
    step.Release? && !step.open && IsAt(s, step.c, Holding(conn))
  }

  /** Held by some call other than `c`. */
  predicate HeldElsewhere(s: System, c: Call, conn: Conn) {
    exists d <- s.calls :: d != c && s.calls[d] == Holding(conn)
  }

  lemma HeldHereOrElsewhere(s: System, c: Call, conn: Conn)
    ensures Holding(conn) in s.calls.Values <==> IsAt(s, c, Holding(conn)) || HeldElsewhere(s, c, conn)
  {
    if Holding(conn) in s.calls.Values {
      var d :| d in s.calls && s.calls[d] == Holding(conn);
      assert d == c || HeldElsewhere(s, c, conn);
    }
  }

  /** The other calls go on holding what they hold. */
  lemma OthersHold(s: System, step: Step, conn: Conn)
    requires Enabled(s, step)
    ensures HeldElsewhere(Next(s, step), step.c, conn) <==> HeldElsewhere(s, step.c, conn)
  {
    hide Sleepers, CanProceed, Taken, Returned;
    var t := Next(s, step);
    if HeldElsewhere(s, step.c, conn) {
      var d :| d in s.calls && d != step.c && s.calls[d] == Holding(conn);
      assert d in t.calls && t.calls[d] == Holding(conn);
    }
  }

  /** A step neither loses nor makes a connection: only a broken one that is released leaves the pool, only a new one enters it. */
  lemma ConnectionsAreConserved(s: System, step: Step, conn: Conn)
    requires Inv(s) && Enabled(s, step)
    ensures InUse(Next(s, step), conn) <==> (InUse(s, conn) && !Drops(s, step, conn)) || (step.Connected? && step.conn == conn)
  {
    hide Counts, NoLostWakeUp, Sleepers, CanProceed, HeldElsewhere;
    var t := Next(s, step);
    HeldHereOrElsewhere(s, step.c, conn);
    HeldHereOrElsewhere(t, step.c, conn);
    OthersHold(s, step, conn);
    if Drops(s, step, conn) {
      OnlyHolder(s, step.c, conn);
    }
  }

  lemma OnlyHolder(s: System, c: Call, conn: Conn)
    requires Exclusive(s) && IsAt(s, c, Holding(conn))
    ensures !HeldElsewhere(s, c, conn) && conn !in s.pool.available
  {
  }

  /**
   The queue is first in, first out: a healthy connection goes to its end; while a slot is
   free, a call past its wait takes the front, or connects when there is none.
   */
  lemma QueueInOrder(s: System, step: Step)
    requires Inv(s) && Enabled(s, step)
    ensures var q, t := s.pool.available, Next(s, step);
      && (step.Release? ==> t.pool.available == if step.open then q + [s.calls[step.c].conn] else q)
      && (step.Enter? || step.Rerun? || step.LastCheck? ==>
            if s.pool.active == s.pool.size then t.pool == s.pool && step.c !in Users(t)
            else if q == [] then t.pool.available == [] && IsAt(t, step.c, Connecting)
            else t.pool.available == q[1..] && IsAt(t, step.c, Holding(q[0])))
  {
    hide Exclusive, NoLostWakeUp, Sleepers;
    CanProceedIffFree(s);
    Groups(Next(s, step), step.c);
  }

  // ---- Every run ----

  /** The state after a run; None when some step of it is not enabled. */
  function After(s: System, run: seq<Step>): Option<System>
    decreases |run|
  {
    if run == [] then Some(s)
    else if !Enabled(s, run[0]) then None
    else After(Next(s, run[0]), run[1..])
  }

  /** Every run keeps the invariant. */
  lemma {:induction false} RunKeepsInv(s: System, run: seq<Step>)
    requires Inv(s)
    ensures After(s, run).Some? ==> Inv(After(s, run).value) && After(s, run).value.pool.size == s.pool.size
    decreases |run|
  {
    hide Inv, Enabled, Next;
    if run != [] && Enabled(s, run[0]) {
      StepKeepsInv(s, run[0]);
      RunKeepsInv(Next(s, run[0]), run[1..]);
    }
  }

  lemma InitialInv(conns: seq<Conn>)
    requires forall i, j | 0 <= i < j < |conns| :: conns[i] != conns[j]
    ensures Inv(Initial(conns))
  {
  }

  /** The protocol in every reachable state: bounds, exact admission, exclusive connections, and no lost wake-up. */
  lemma PoolProtocol(conns: seq<Conn>, run: seq<Step>)
    requires forall i, j | 0 <= i < j < |conns| :: conns[i] != conns[j]
    ensures After(Initial(conns), run).Some? ==>
      var s := After(Initial(conns), run).value;
      && |s.pool.available| + s.pool.active <= |conns|
      && s.pool.active == |Users(s)|
      && (CanProceed(s.pool) <==> s.pool.active < |conns|)
      && Exclusive(s)
      && (Sleepers(s) != {} ==> |conns| - s.pool.active <= |Notified(s)|)
  {
    hide Exclusive, Users, Sleepers, Notified;
    InitialInv(conns);
    RunKeepsInv(Initial(conns), run);
    if After(Initial(conns), run).Some? {
      CanProceedIffFree(After(Initial(conns), run).value);
    }
  }

  /** No call sleeps beside a free slot unattended: some notified call is about to run, and its next step is admitted. */
  lemma FreeSlotIsAttended(s: System) returns (c: Call)
    requires Inv(s) && Sleepers(s) != {} && s.pool.active < s.pool.size
    ensures Enabled(s, Rerun(c, false)) && c in Users(Next(s, Rerun(c, false)))
  {
    assert |Notified(s)| > 0;
    c :| c in Notified(s);
    CanProceedIffFree(s);
  }
}
