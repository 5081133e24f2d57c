/** Which states of the interleavings can still go on: a thread that is alone does in steps what a connection's method
    does in one call, and a request that takes the read lock out of turn stops everybody for good.
 */
module Progress {
  import opened Replies
  import opened Interleavings
  import opened Connection

  // ----- ways from state to state

  ghost predicate IsWay(way: seq<State>, s: State, s': State) {
    && way != [] && way[0] == s && way[|way| - 1] == s'
    && forall i :: 0 <= i < |way| - 1 ==> Next(way[i], way[i + 1])
  }

  ghost predicate Reaches(s: State, s': State) {
    exists way :: IsWay(way, s, s')
  }

  lemma ReachesItself(s: State)
    ensures Reaches(s, s)
  {
    assert IsWay([s], s, s);
  }

  lemma OneStep(s: State, s': State)
    requires Next(s, s')
    ensures Reaches(s, s')
  {
    hide Next;
    assert IsWay([s, s'], s, s');
  }

  lemma Onwards(s: State, s': State, s'': State)
    requires Reaches(s, s') && Reaches(s', s'')
    ensures Reaches(s, s'')
  {
    hide Next;
    var v :| IsWay(v, s, s');
    var w :| IsWay(w, s', s'');
    var way := v + w[1..];
    forall i | 0 <= i < |way| - 1 ensures Next(way[i], way[i + 1]) {
      if i >= |v| - 1 {
        assert way[i] == w[i - (|v| - 1)] && way[i + 1] == w[i - (|v| - 1) + 1];
      }
    }
    assert IsWay(way, s, s'');
  }

  /** The invariant holds wherever one gets from a state that has it. */
  lemma WayKeeps(s: State, s': State, replies: seq<Reply>)
    requires AllWellFormed(replies) && Inv(s, replies) && Reaches(s, s')
    ensures Inv(s', replies)
  {
    var way :| IsWay(way, s, s');
    WayKeepsTo(way, s, s', replies, |way| - 1);
  }

  lemma {:induction false} WayKeepsTo(way: seq<State>, s: State, s': State, replies: seq<Reply>, n: nat)
    requires AllWellFormed(replies) && Inv(s, replies) && IsWay(way, s, s') && n < |way|
    ensures Inv(way[n], replies)
  {
    hide Inv, Next, AllWellFormed;
    if n > 0 {
      WayKeepsTo(way, s, s', replies, n - 1);
      assert Next(way[n - 1], way[n - 1 + 1]);
      NextKeeps(way[n - 1], way[n], replies);
    }
  }

  // ----- a reader on its own

  /** The state behind a reply, or where it breaks off, for the holder of the lock. */
  ghost predicate IsBehindReply(s: State, s': State)
    requires s.lock.Reading? && s.lock.p.Pending()
  {
    var (q, rest) := Run(s.lock.p, s.unread);
    var e := s.(unread := rest, log := s'.log);
    s' == if q.Done? then Finished(e, s.lock.t, q.response) else Ended(e, s.lock.t)
  }

  /** The holder of the lock can read on to the end of the reply. */
  lemma {:induction false} ReadsReply(s: State) returns (s': State)
    requires s.lock.Reading? && s.lock.p.Pending()
    ensures Reaches(s, s') && IsBehindReply(s, s')
    decreases |s.unread|
  {
    hide Feed, Reaches, LineRead, IsBehindReply;
    var next := LineRead(s, s.lock.t, s.lock.p);
    OneStep(s, next);
    if s.unread == [] || !Feed(s.lock.p, s.unread[0]).Pending() {
      LastLine(s);
      s' := next;
    } else {
      InnerLine(s);
      s' := ReadsReply(next);
      Onwards(s, next, s');
      BehindReply(s, next, s');
    }
  }

  lemma LastLine(s: State)
    requires s.lock.Reading? && s.lock.p.Pending()
    requires s.unread == [] || !Feed(s.lock.p, s.unread[0]).Pending()
    ensures IsBehindReply(s, LineRead(s, s.lock.t, s.lock.p))
  {
    RunOneLine(s.lock.p, s.unread);
    if s.unread != [] {
      EndOfRun(Feed(s.lock.p, s.unread[0]), s.unread[1..]);
    }
    hide Run, Feed, Finished, Ended;
    if s.unread == [] {
      LogOfEnd(s, s.lock.t);
      assert s == s.(unread := [], log := s.log);
    } else {
      LogOfEnd(s.(unread := s.unread[1..], log := s.log + [s.lock.t]), s.lock.t);
    }
  }

  lemma InnerLine(s: State)
    requires s.lock.Reading? && s.lock.p.Pending()
    requires s.unread != [] && Feed(s.lock.p, s.unread[0]).Pending()
    ensures LineRead(s, s.lock.t, s.lock.p)
         == s.(unread := s.unread[1..], log := s.log + [s.lock.t],
               lock := Reading(s.lock.t, Feed(s.lock.p, s.unread[0])))
  {
    hide Feed;
  }

  lemma BehindReply(s: State, next: State, s': State)
    requires s.lock.Reading? && s.lock.p.Pending()
    requires s.unread != [] && Feed(s.lock.p, s.unread[0]).Pending()
    requires next == s.(unread := s.unread[1..], log := next.log,
                        lock := Reading(s.lock.t, Feed(s.lock.p, s.unread[0])))
    requires IsBehindReply(next, s')
    ensures IsBehindReply(s, s')
  {
    RunOneLine(s.lock.p, s.unread);
    hide Run, Feed, Finished, Ended;
    var (q, rest) := Run(s.lock.p, s.unread);
    var e := s.(unread := rest, log := s'.log);
    assert next.(unread := rest, log := s'.log) == e.(lock := next.lock);
    OtherLock(e, next.lock, s.lock.t);
  }

  /** What the end of a reply makes of a state does not depend on the lock. */
  lemma OtherLock(s: State, lock: Lock, t: Thread)
    ensures Ended(s.(lock := lock), t) == Ended(s, t)
    ensures forall r :: Finished(s.(lock := lock), t, r) == Finished(s, t, r)
  {
  }

  lemma LogOfEnd(s: State, t: Thread)
    ensures Ended(s, t).log == s.log && forall r :: Finished(s, t, r).log == s.log
  {
  }

  /** A request that holds the lock can read on to its own response. */
  lemma {:induction false} RequestReads(s: State) returns (s': State)
    requires s.lock.Reading? && s.lock.p.Pending() && s.lock.t == Request(s.turn) && s.turn < |s.requests|
    ensures Reaches(s, s')
    ensures var (q, rest) := Run(s.lock.p, s.unread);
            var (r, rest', events) := AwaitAfter(q, rest, []);
            s' == s.(unread := rest',
                     requests := s.requests[s.turn := if r.Done? then Returned(r.response) else GaveUp],
                     turn := s.turn + 1, lock := Free, relayed := s.relayed + events, log := s'.log,
                     owners := s'.owners)
    decreases |s.unread|
  {
    hide Run, Reaches, Await;
    var (q, rest) := Run(s.lock.p, s.unread);
    var next := ReadsReply(s);
    if q.Done? && q.response.IsAsync() {
      s' := RequestReads(next);
      Onwards(s, next, s');
      MoreEvents(q, rest, []);
    } else {
      AwaitEnds(q, rest, []);
      s' := next;
    }
  }

  /** What SendRequest does in one call is what a request does in steps when nobody waits and no one else takes one: it
      ends with the same outcome, behind the same lines, after relaying the same events. */
  lemma RequestAlone(s: State) returns (s': State)
    requires s.lock.Free? && s.turn == |s.requests|
    ensures Reaches(s, s')
    ensures var (p, rest, events) := Await(s.unread);
            s' == s.(unread := rest, turn := s.turn + 1, relayed := s.relayed + events, log := s'.log,
                     owners := s'.owners,
                     requests := s.requests + [if p.Done? then Returned(p.response) else GaveUp])
  {
    hide Await, Reaches;
    var written := s.(requests := s.requests + [Waiting]);
    OneStep(s, written);
    s' := FirstWaiting(written);
    Onwards(s, written, s');
  }

  /** The first request that waits can take the lock and read its response. */
  lemma FirstWaiting(s: State) returns (s': State)
    requires s.lock.Free? && s.turn < |s.requests| && s.requests[s.turn].Waiting?
    ensures Reaches(s, s')
    ensures var (p, rest, events) := Await(s.unread);
            s' == s.(unread := rest, turn := s.turn + 1, relayed := s.relayed + events, log := s'.log,
                     owners := s'.owners,
                     requests := s.requests[s.turn := if p.Done? then Returned(p.response) else GaveUp])
  {
    hide Run, Await, Reaches;
    var locked := s.(lock := AwaitsTurn(s.turn));
    var reading := s.(lock := Reading(Request(s.turn), Start));
    OneStep(s, locked);
    OneStep(locked, reading);
    s' := RequestReads(reading);
    AwaitStep(s.unread);
    Onwards(locked, reading, s');
    Onwards(s, locked, s');
  }

  /** What HandleNextEvent does in one call is what an event reader does in steps. */
  lemma HandlerAlone(s: State, h: nat) returns (s': State)
    requires s.lock.Free?
    ensures Reaches(s, s')
    ensures !EventIsNext(s.unread) ==> s' == s
    ensures EventIsNext(s.unread) ==>
              var (p, rest) := Run(Start, s.unread);
              s' == s.(unread := rest, relayed := s.relayed + if p.Done? then [p.response] else [], log := s'.log,
                       owners := s'.owners)
  {
    hide Run, Reaches, EventIsNext;
    var peeking := s.(lock := Peeking(h));
    OneStep(s, peeking);
    if EventIsNext(s.unread) {
      var reading := s.(lock := Reading(Handler(h), Start));
      OneStep(peeking, reading);
      s' := ReadsReply(reading);
      Onwards(peeking, reading, s');
    } else {
      OneStep(peeking, s);
      s' := s;
    }
    Onwards(s, peeking, s');
  }

  // ----- when the waiting requests can be answered

  /** A request holds the lock, but an earlier one that has not been answered must get the lock first. */
  ghost predicate Stuck(s: State) {
    s.lock.AwaitsTurn? && s.lock.id != s.turn
  }

  /** Then nothing happens any more, except that further requests are written and wait, too. */
  lemma StuckForever(s: State, s': State)
    requires Stuck(s) && Reaches(s, s')
    ensures s' == s.(requests := s'.requests) && s.requests <= s'.requests
    ensures forall id :: |s.requests| <= id < |s'.requests| ==> s'.requests[id].Waiting?
  {
    var way :| IsWay(way, s, s');
    StuckTo(way, s, s', |way| - 1);
  }

  lemma {:induction false} StuckTo(way: seq<State>, s: State, s': State, n: nat)
    requires Stuck(s) && IsWay(way, s, s') && n < |way|
    ensures way[n] == s.(requests := way[n].requests) && s.requests <= way[n].requests
    ensures forall id :: |s.requests| <= id < |way[n].requests| ==> way[n].requests[id].Waiting?
  {
    if n > 0 {
      StuckTo(way, s, s', n - 1);
      assert Next(way[n - 1], way[n - 1 + 1]);
      StuckStep(way[n - 1], way[n]);
    }
  }

  lemma StuckStep(s: State, s': State)
    requires Stuck(s) && Next(s, s')
    ensures s' == s.(requests := s.requests + [Waiting])
  {
  }

  /** Otherwise the holder of the lock can finish. */
  lemma LetsGo(s: State, replies: seq<Reply>) returns (s': State)
    requires AllWellFormed(replies) && Inv(s, replies) && !Stuck(s)
    ensures Reaches(s, s') && s'.lock.Free? && |s'.requests| == |s.requests|
  {
    hide Run, Reaches, EventIsNext, Await, Lines, AllWellFormed, Synchronous, Asynchronous, OwnersOk, Meaning;
    match s.lock
    case Free =>
      ReachesItself(s);
      s' := s;
    case AwaitsTurn(id) =>
      var reading := s.(lock := Reading(Request(id), Start));
      OneStep(s, reading);
      s' := RequestReads(reading);
      Onwards(s, reading, s');
    case Peeking(h) =>
      var next := s.(lock := if EventIsNext(s.unread) then Reading(Handler(h), Start) else Free);
      OneStep(s, next);
      s' := next;
      if EventIsNext(s.unread) {
        s' := ReadsReply(next);
        Onwards(s, next, s');
      }
    case Reading(t, p) =>
      if t.Request? {
        s' := RequestReads(s);
      } else {
        s' := ReadsReply(s);
      }
  }

  /** No request among the first n waits. */
  ghost predicate NoneWaits(s: State, n: nat) {
    n <= |s.requests| && forall id :: 0 <= id < n ==> !s.requests[id].Waiting?
  }

  lemma {:induction false} AllAnswered(s: State, replies: seq<Reply>) returns (s': State)
    requires AllWellFormed(replies) && Inv(s, replies) && s.lock.Free?
    ensures Reaches(s, s') && NoneWaits(s', |s.requests|)
    decreases |s.requests| - s.turn
  {
    hide Reaches, Await, Lines, AllWellFormed, Synchronous, Asynchronous, OwnersOk, Meaning, Inv;
    TurnOfInv(s, replies);
    if s.turn == |s.requests| {
      ReachesItself(s);
      s' := s;
    } else {
      var next := FirstWaiting(s);
      WayKeeps(s, next, replies);
      s' := AllAnswered(next, replies);
      Onwards(s, next, s');
    }
  }

  /** The requests wait from the turn on. */
  lemma TurnOfInv(s: State, replies: seq<Reply>)
    requires AllWellFormed(replies) && Inv(s, replies)
    ensures s.turn <= |s.requests|
    ensures forall id :: 0 <= id < |s.requests| ==> (s.requests[id].Waiting? <==> s.turn <= id)
    ensures s.lock.AwaitsTurn? ==> s.turn <= s.lock.id < |s.requests|
  {
    hide Lines, AllWellFormed, Synchronous, Asynchronous, OwnersOk, Meaning, Run;
  }

  /** From a state of any run all its requests can get to their end, exactly if no request holds the lock out of turn.
      */
  lemma RequestsCanEnd(states: seq<State>, replies: seq<Reply>, n: nat)
    requires AllWellFormed(replies) && IsRun(states, replies) && n < |states|
    ensures (exists s' :: Reaches(states[n], s') && NoneWaits(s', |states[n].requests|)) <==> !Stuck(states[n])
  {
    var s := states[n];
    RunKeeps(states, replies, n);
    hide Reaches, Inv, IsRun, Next;
    if !Stuck(s) {
      var free := LetsGo(s, replies);
      WayKeeps(s, free, replies);
      var s' := AllAnswered(free, replies);
      Onwards(s, free, s');
    } else {
      TurnOfInv(s, replies);
      forall s' | Reaches(s, s') ensures !NoneWaits(s', |s.requests|) {
        StuckForever(s, s');
        assert s'.requests[s.lock.id] == s.requests[s.lock.id];
      }
    }
  }

  /** A step in which a request takes the lock before it is its turn. */
  ghost predicate Overtakes(s: State, s': State) {
    s.lock.Free? && s'.lock.AwaitsTurn? && s'.lock.id > s.turn
  }

  /** That is so exactly if some request has taken the lock while an earlier one was waiting. */
  lemma {:induction false} StuckByOvertaking(states: seq<State>, replies: seq<Reply>, n: nat)
    requires AllWellFormed(replies) && IsRun(states, replies) && n < |states|
    ensures Stuck(states[n]) <==> exists i :: 0 <= i < n && Overtakes(states[i], states[i + 1])
  {
    hide AllWellFormed, Lines, Next;
    if n > 0 {
      StuckByOvertaking(states, replies, n - 1);
      RunKeeps(states, replies, n - 1);
      RunKeeps(states, replies, n);
      assert Next(states[n - 1], states[n - 1 + 1]);
      OvertakingStep(states[n - 1], states[n], replies);
      assert Overtakes(states[n - 1], states[n - 1 + 1]) ==> Stuck(states[n]);
    }
  }

  lemma OvertakingStep(s: State, s': State, replies: seq<Reply>)
    requires AllWellFormed(replies) && Inv(s, replies) && Inv(s', replies) && Next(s, s')
    ensures Stuck(s') <==> Stuck(s) || Overtakes(s, s')
  {
    hide LineRead, EventIsNext, Inv;
    TurnOfInv(s, replies);
    TurnOfInv(s', replies);
    if s.lock.Reading? && s.lock.p.Pending() {
      LockAfterLine(s);
    }
  }

  lemma LockAfterLine(s: State)
    requires s.lock.Reading? && s.lock.p.Pending()
    ensures !LineRead(s, s.lock.t, s.lock.p).lock.AwaitsTurn?
  {
  }

  /** On every stream two requests are enough for that: both are written, and the second one takes the lock. */
  lemma Overtaking(replies: seq<Reply>) returns (states: seq<State>)
    requires AllWellFormed(replies)
    ensures IsRun(states, replies) && Stuck(states[|states| - 1])
    ensures states[|states| - 1].requests == [Waiting, Waiting]
  {
    hide Lines, AllWellFormed;
    var a := Initial(Lines(replies));
    var b := a.(requests := [Waiting]);
    var c := b.(requests := [Waiting, Waiting]);
    var d := c.(lock := AwaitsTurn(1));
    states := [a, b, c, d];
    assert Next(a, b) && Next(b, c) && Next(c, d);
  }
}
