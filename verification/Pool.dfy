/** The bounded pool of connections (internal/redis/redis.go: NewClient, get, put),
    first as one caller sees it, then as any number of goroutines interleave on it:
    get takes no lock, put takes one. */
module Pool {
  import opened Wrappers

  const MAX_ACTIVE := 5

  // Connections are told apart by the order in which they were dialled.
  type Conn = int

  class ClientImpl {
    var conns: seq<Conn>
    const maxActive: nat
    // How many connections have been dialled, and which of them put itself has closed;
    // a caller may have closed others, and puts those back all the same.
    var dialled: nat
    var closed: set<Conn>

    ghost predicate Valid()
      reads this
    {
      && 1 <= maxActive
      && |conns| <= maxActive
      && Distinct(conns)
      && (forall i :: 0 <= i < |conns| ==> 0 <= conns[i] < dialled)
    }

    // NewClient: one attempt per place in the pool; failed attempts are skipped.
    constructor (attempts: seq<bool>)
      requires |attempts| == MAX_ACTIVE
      ensures Valid() && maxActive == MAX_ACTIVE == 5 && closed == {}
      ensures conns == seq(dialled, i => i) && dialled == Successes(attempts)
    {
      maxActive := MAX_ACTIVE;
      conns := [];
      dialled := 0;
      closed := {};
      new;
      for i := 0 to |attempts|
        invariant dialled == Successes(attempts[..i]) <= i
        invariant conns == seq(dialled, i => i) && closed == {}
      {
        assert attempts[..i + 1][..i] == attempts[..i];
        if attempts[i] {
          conns := conns + [dialled];
          dialled := dialled + 1;
        }
      }
      assert attempts[..|attempts|] == attempts;
    }

    // get: a pooled connection if there is one, and otherwise a new one.
    method Get(dialWorks: bool) returns (conn: Option<Conn>)
      requires Valid()
      modifies this
      ensures Valid() && closed == old(closed)
      ensures old(conns) != [] ==> conn == Some(old(conns)[0]) && conns == old(conns)[1..] && dialled == old(dialled)
      ensures old(conns) == [] ==> conns == [] && dialled == old(dialled) + (if dialWorks then 1 else 0)
      ensures old(conns) == [] ==> conn == if dialWorks then Some(old(dialled)) else None
      ensures conn.Some? ==> 0 <= conn.value < dialled && conn.value !in conns
    {
      if |conns| > 0 {
        conn := Some(conns[0]);
        conns := conns[1..];
      } else if dialWorks {
        conn := Some(dialled);
        dialled := dialled + 1;
      } else {
        conn := None;
      }
    }

    // put: back into the pool, or closed if the pool is full.
    method Put(conn: Option<Conn>) returns (err: bool)
      requires Valid()
      requires conn.Some? ==> 0 <= conn.value < dialled && conn.value !in conns
      modifies this
      ensures Valid() && dialled == old(dialled)
      ensures err <==> conn.None?
      ensures conn.None? ==> conns == old(conns) && closed == old(closed)
      ensures conn.Some? && |old(conns)| < maxActive ==> conns == old(conns) + [conn.value] && closed == old(closed)
      ensures conn.Some? && |old(conns)| == maxActive ==> conns == old(conns) && closed == old(closed) + {conn.value}
    {
      if conn.None? {
        return true;
      }
      if |conns| >= maxActive {
        closed := closed + {conn.value};
        return false;
      }
      conns := conns + [conn.value];
      return false;
    }
  }

  function Successes(attempts: seq<bool>): nat {
    if attempts == [] then 0
    else Successes(attempts[..|attempts| - 1]) + if attempts[|attempts| - 1] then 1 else 0
  }

  ghost predicate Distinct(s: seq<Conn>) {
    forall i, j :: 0 <= i < j < |s| ==> s[i] != s[j]
  }

  // ------------------------------------------------ interleavings

  type Thread = int

  // Where a goroutine is: between calls; in get, having found the pool empty; with a
  // connection, up to the lock in put; with the lock, before the length check; past
  // it and about to send; with the lock and nothing left to do but release it.
  datatype Phase =
    | Idle
    | Dialling
    | Borrowed(conn: Conn)
    | Checking(conn: Conn)
    | Sending(conn: Conn)
    | Unlocking
  {
    predicate HasConn() {
      Borrowed? || Checking? || Sending?
    }

    predicate Holds(c: Conn) {
      HasConn() && conn == c
    }

    predicate InCriticalSection() {
      Checking? || Sending? || Unlocking?
    }
  }

  datatype State = State(pool: seq<Conn>, lock: Option<Thread>, phases: map<Thread, Phase>, dialled: nat) {
    function At(t: Thread): Phase {
      if t in phases then phases[t] else Idle
    }

    function With(t: Thread, p: Phase): State {
      this.(phases := phases[t := p])
    }
  }

  datatype Label = Receive | Miss | DialWorks | DialFails | Lock | Full | Room | Send | Unlock

  // When a goroutine can take a step. A send on the channel needs a free place.
  predicate Enabled(max: nat, s: State, t: Thread, l: Label) {
    match l
    case Receive => s.At(t).Idle? && s.pool != []
    case Miss => s.At(t).Idle? && s.pool == []
    case DialWorks => s.At(t).Dialling?
    case DialFails => s.At(t).Dialling?
    case Lock => s.At(t).Borrowed? && s.lock.None?
    case Full => s.At(t).Checking? && |s.pool| >= max
    case Room => s.At(t).Checking? && |s.pool| < max
    case Send => s.At(t).Sending? && |s.pool| < max
    case Unlock => s.At(t).Unlocking?
  }

  function Step(max: nat, s: State, t: Thread, l: Label): State
    requires Enabled(max, s, t, l)
  {
    match l
    case Receive => s.With(t, Borrowed(s.pool[0])).(pool := s.pool[1..])
    case Miss => s.With(t, Dialling)
    case DialWorks => s.With(t, Borrowed(s.dialled)).(dialled := s.dialled + 1)
    case DialFails => s.With(t, Idle)
    case Lock => s.With(t, Checking(s.At(t).conn)).(lock := Some(t))
    case Full => s.With(t, Unlocking)
    case Room => s.With(t, Sending(s.At(t).conn))
    case Send => s.With(t, Unlocking).(pool := s.pool + [s.At(t).conn])
    case Unlock => s.With(t, Idle).(lock := None)
  }

  // A prepopulated pool before any goroutine has used it.
  predicate Initial(max: nat, s: State) {
    && |s.pool| <= max && s.lock.None? && s.phases == map[]
    && s.dialled == |s.pool| && s.pool == seq(s.dialled, i => i)
  }

  ghost predicate LockInv(max: nat, s: State) {
    && |s.pool| <= max
    && (forall t :: s.At(t).InCriticalSection() <==> s.lock == Some(t))
    && (forall t :: s.At(t).Sending? ==> |s.pool| < max)
  }

  ghost predicate ConnInv(s: State) {
    && Distinct(s.pool)
    && (forall i :: 0 <= i < |s.pool| ==> s.pool[i] < s.dialled)
    && (forall t :: s.At(t).HasConn() ==> s.At(t).conn < s.dialled)
    && (forall t, i :: s.At(t).HasConn() && 0 <= i < |s.pool| ==> s.At(t).conn != s.pool[i])
    && (forall t, u :: s.At(t).HasConn() && s.At(u).HasConn() && s.At(t).conn == s.At(u).conn ==> t == u)
  }

  ghost predicate Inv(max: nat, s: State) {
    LockInv(max, s) && ConnInv(s)
  }

  lemma InitialInv(max: nat, s: State)
    requires Initial(max, s)
    ensures Inv(max, s)
  {
  }

  lemma Others(s: State, t: Thread, p: Phase)
    ensures s.With(t, p).At(t) == p
    ensures forall u :: u != t ==> s.With(t, p).At(u) == s.At(u)
  {
  }

  lemma StepKeepsLockInv(max: nat, s: State, t: Thread, l: Label)
    requires LockInv(max, s) && Enabled(max, s, t, l)
    ensures LockInv(max, Step(max, s, t, l))
  {
    var s' := Step(max, s, t, l);
    Others(s, t, s'.At(t));
    assert forall u :: u != t ==> s'.At(u) == s.At(u);
  }

  // A step that moves a goroutine on with the connection it had, or none.
  lemma MoveKeepsConnInv(s: State, t: Thread, p: Phase, lock: Option<Thread>)
    requires ConnInv(s) && (p.HasConn() ==> s.At(t).HasConn() && p.conn == s.At(t).conn)
    ensures ConnInv(s.With(t, p).(lock := lock))
  {
    Others(s, t, p);
    var s' := s.With(t, p).(lock := lock);
    assert forall u :: s'.At(u) == s.With(t, p).At(u);
  }

  lemma ReceiveKeepsConnInv(s: State, t: Thread)
    requires ConnInv(s) && s.At(t).Idle? && s.pool != []
    ensures ConnInv(s.With(t, Borrowed(s.pool[0])).(pool := s.pool[1..]))
  {
    Others(s, t, Borrowed(s.pool[0]));
    var s' := s.With(t, Borrowed(s.pool[0])).(pool := s.pool[1..]);
    assert forall u :: s'.At(u) == s.With(t, Borrowed(s.pool[0])).At(u);
    assert forall i :: 0 <= i < |s'.pool| ==> s'.pool[i] == s.pool[i + 1];
  }

  lemma DialKeepsConnInv(s: State, t: Thread)
    requires ConnInv(s) && s.At(t).Dialling?
    ensures ConnInv(s.With(t, Borrowed(s.dialled)).(dialled := s.dialled + 1))
  {
    Others(s, t, Borrowed(s.dialled));
    var s' := s.With(t, Borrowed(s.dialled)).(dialled := s.dialled + 1);
    assert forall u :: s'.At(u) == s.With(t, Borrowed(s.dialled)).At(u);
  }

  lemma SendKeepsConnInv(s: State, t: Thread)
    requires ConnInv(s) && s.At(t).Sending?
    ensures ConnInv(s.With(t, Unlocking).(pool := s.pool + [s.At(t).conn]))
  {
    Others(s, t, Unlocking);
    var s' := s.With(t, Unlocking).(pool := s.pool + [s.At(t).conn]);
    assert forall u :: s'.At(u) == s.With(t, Unlocking).At(u);
    assert forall i :: 0 <= i < |s.pool| ==> s'.pool[i] == s.pool[i];
    assert s'.pool[|s.pool|] == s.At(t).conn;
  }

  lemma StepKeepsConnInv(max: nat, s: State, t: Thread, l: Label)
    requires ConnInv(s) && Enabled(max, s, t, l)
    ensures ConnInv(Step(max, s, t, l))
  {
    match l {
      case Receive => ReceiveKeepsConnInv(s, t);
      case DialWorks => DialKeepsConnInv(s, t);
      case Send => SendKeepsConnInv(s, t);
      case Miss => MoveKeepsConnInv(s, t, Dialling, s.lock);
      case DialFails => MoveKeepsConnInv(s, t, Idle, s.lock);
      case Lock => MoveKeepsConnInv(s, t, Checking(s.At(t).conn), Some(t));
      case Full => MoveKeepsConnInv(s, t, Unlocking, s.lock);
      case Room => MoveKeepsConnInv(s, t, Sending(s.At(t).conn), s.lock);
      case Unlock => MoveKeepsConnInv(s, t, Idle, None);
    }
  }

  lemma StepKeepsInv(max: nat, s: State, t: Thread, l: Label)
    requires Inv(max, s) && Enabled(max, s, t, l)
    ensures Inv(max, Step(max, s, t, l))
  {
    StepKeepsLockInv(max, s, t, l);
    StepKeepsConnInv(max, s, t, l);
  }

  datatype Move = Move(thread: Thread, kind: Label)

  // A run: every move is enabled where it is made.
  ghost predicate Run(max: nat, s: State, moves: seq<Move>, end: State)
    decreases |moves|
  {
    if moves == [] then s == end
    else
      && Enabled(max, s, moves[0].thread, moves[0].kind)
      && Run(max, Step(max, s, moves[0].thread, moves[0].kind), moves[1..], end)
  }

  lemma {:induction false} RunKeepsInv(max: nat, s: State, moves: seq<Move>, end: State)
    requires Inv(max, s) && Run(max, s, moves, end)
    ensures Inv(max, end)
    decreases |moves|
  {
    if moves != [] {
      StepKeepsInv(max, s, moves[0].thread, moves[0].kind);
      RunKeepsInv(max, Step(max, s, moves[0].thread, moves[0].kind), moves[1..], end);
    }
  }

  // In every interleaving the pool stays within its bound, and every connection ever
  // dialled is in it at most once and never both in it and out with a caller, nor out
  // with two.
  lemma PoolIsSafe(max: nat, start: State, moves: seq<Move>, end: State)
    requires Initial(max, start) && Run(max, start, moves, end)
    ensures |end.pool| <= max && Distinct(end.pool)
    ensures forall t, c :: end.At(t).Holds(c) ==> c !in end.pool
    ensures forall t, u, c :: end.At(t).Holds(c) && end.At(u).Holds(c) ==> t == u
  {
    InitialInv(max, start);
    RunKeepsInv(max, start, moves, end);
  }

  // In every interleaving, a goroutine that has the lock is never stuck with it: a
  // send finds a free place whenever it is reached, so some step of the holder's own
  // is always enabled, and nobody else is in the critical section.
  lemma SendNeverBlocks(max: nat, start: State, moves: seq<Move>, end: State, t: Thread)
    requires Initial(max, start) && Run(max, start, moves, end)
    ensures end.At(t).Sending? ==> Enabled(max, end, t, Send)
    ensures end.lock == Some(t) ==>
      Enabled(max, end, t, Full) || Enabled(max, end, t, Room) || Enabled(max, end, t, Send) || Enabled(max, end, t, Unlock)
    ensures end.lock == Some(t) ==> forall u :: u != t ==> !end.At(u).InCriticalSection()
  {
    InitialInv(max, start);
    RunKeepsInv(max, start, moves, end);
  }

  // How many steps of its own the holder still needs to release the lock.
  function ToRelease(p: Phase): nat {
    match p
    case Checking(_) => 3
    case Sending(_) => 2
    case Unlocking => 1
    case _ => 0
  }

  // Each of the holder's steps brings the release nearer and no one else's puts it off.
  lemma ReleaseComesNearer(max: nat, s: State, t: Thread, mover: Thread, l: Label)
    requires Inv(max, s) && s.lock == Some(t) && Enabled(max, s, mover, l)
    ensures var s' := Step(max, s, mover, l);
      if mover == t then ToRelease(s'.At(t)) < ToRelease(s.At(t)) else s'.At(t) == s.At(t) && s'.lock == Some(t)
  {
    assert s.At(t).InCriticalSection();
  }

  // ------------------------------------------------ one caller alone

  // What Put does to the pool is the run of put's own steps when nobody interferes.
  lemma PutIsARun(max: nat, s: State, t: Thread)
    requires Inv(max, s) && s.At(t).Borrowed? && s.lock.None?
    ensures var c := s.At(t).conn;
      var moves := if |s.pool| >= max then [Move(t, Lock), Move(t, Full), Move(t, Unlock)]
                   else [Move(t, Lock), Move(t, Room), Move(t, Send), Move(t, Unlock)];
      Run(max, s, moves, s.With(t, Idle).(pool := if |s.pool| >= max then s.pool else s.pool + [c]))
  {
    var c := s.At(t).conn;
    var s1 := Step(max, s, t, Lock);
    if |s.pool| >= max {
      var s2 := Step(max, s1, t, Full);
      var s3 := Step(max, s2, t, Unlock);
      assert s3.phases == s.With(t, Idle).phases;
      assert Run(max, s3, [], s3);
      assert Run(max, s2, [Move(t, Unlock)], s3);
      assert [Move(t, Full), Move(t, Unlock)][1..] == [Move(t, Unlock)];
      assert Run(max, s1, [Move(t, Full), Move(t, Unlock)], s3);
      var moves := [Move(t, Lock), Move(t, Full), Move(t, Unlock)];
      assert moves[1..] == [Move(t, Full), Move(t, Unlock)];
    } else {
      var s2 := Step(max, s1, t, Room);
      var s3 := Step(max, s2, t, Send);
      var s4 := Step(max, s3, t, Unlock);
      assert s4.phases == s.With(t, Idle).phases;
      assert Run(max, s4, [], s4);
      assert Run(max, s3, [Move(t, Unlock)], s4);
      assert [Move(t, Send), Move(t, Unlock)][1..] == [Move(t, Unlock)];
      assert Run(max, s2, [Move(t, Send), Move(t, Unlock)], s4);
      assert [Move(t, Room), Move(t, Send), Move(t, Unlock)][1..] == [Move(t, Send), Move(t, Unlock)];
      assert Run(max, s1, [Move(t, Room), Move(t, Send), Move(t, Unlock)], s4);
      var moves := [Move(t, Lock), Move(t, Room), Move(t, Send), Move(t, Unlock)];
      assert moves[1..] == [Move(t, Room), Move(t, Send), Move(t, Unlock)];
    }
  }
}
