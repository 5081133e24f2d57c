/** Synchronous requests and event readers that share one stream, step by step.

    A state holds the lines that are still unread, the requests in the order in which their commands were written, the
    number of the request whose response the pipeline lets through, the read lock, and a history.  Only the holder of
    the lock reads, one line a step; everybody else may take steps in between.
 */
module Interleavings {
  import opened Options
  import opened Replies

  datatype Thread = Request(id: nat) | Handler(h: nat)

  /** Who holds the read lock, and what for. */
  datatype Lock =
    | Free
    | AwaitsTurn(id: nat)
    | Peeking(h: nat)
    | Reading(t: Thread, p: Parse)

  datatype Status = Waiting | Returned(response: Response) | GaveUp

  datatype State = State(
    unread: seq<string>,
    requests: seq<Status>,
    turn: nat,
    lock: Lock,
    relayed: seq<Response>,   // the responses handed to listeners so far
    log: seq<Thread>,         // who read each line so far
    owners: seq<Thread>)      // who read each complete reply so far

  ghost function Initial(lines: seq<string>): State {
    State(lines, [], 0, Free, [], [], [])
  }

  // ----- steps

  /** A reader's error ends its work; the pipeline moves on. */
  ghost function Ended(s: State, t: Thread): State {
    if t.Request? && t.id < |s.requests| then
      s.(requests := s.requests[t.id := GaveUp], turn := s.turn + 1, lock := Free)
    else s.(lock := Free)
  }

  /** A complete response is relayed or returned; a request goes on reading after an event. */
  ghost function Finished(s: State, t: Thread, r: Response): State {
    var s' := s.(owners := s.owners + [t]);
    if t.Handler? then s'.(relayed := s.relayed + [r], lock := Free)
    else if r.IsAsync() then s'.(relayed := s.relayed + [r], lock := Reading(t, Start))
    else if t.id < |s.requests| then
      s'.(requests := s.requests[t.id := Returned(r)], turn := s.turn + 1, lock := Free)
    else s'.(lock := Free)
  }

  ghost function LineRead(s: State, t: Thread, p: Parse): State
    requires p.Pending()
  {
    if s.unread == [] then Ended(s, t)
    else
      var s', p' := s.(unread := s.unread[1..], log := s.log + [t]), Feed(p, s.unread[0]);
      if p'.Done? then Finished(s', t, p'.response)
      else if p'.Failed? then Ended(s', t)
      else s'.(lock := Reading(t, p'))
  }

  ghost predicate EventIsNext(lines: seq<string>) {
    lines != [] && |lines[0]| >= 3 && Atoi(lines[0][..3]) == Some(650)
  }

  ghost predicate Next(s: State, s': State) {
    // a request writes its command
    || s' == s.(requests := s.requests + [Waiting])
    // a request takes the read lock
    || (s.lock.Free? && exists id: nat ::
          id < |s.requests| && s.requests[id].Waiting? && s' == s.(lock := AwaitsTurn(id)))
    // the pipeline lets it read
    || (s.lock.AwaitsTurn? && s.lock.id == s.turn && s' == s.(lock := Reading(Request(s.lock.id), Start)))
    // an event reader takes the lock
    || (s.lock.Free? && exists h: nat :: s' == s.(lock := Peeking(h)))
    // it looks at the next line
    || (s.lock.Peeking?
        && s' == s.(lock := if EventIsNext(s.unread) then Reading(Handler(s.lock.h), Start) else Free))
    // the holder of the lock reads a line
    || (s.lock.Reading? && s.lock.p.Pending() && s' == LineRead(s, s.lock.t, s.lock.p))
  }

  ghost predicate IsRun(states: seq<State>, replies: seq<Reply>)
    requires AllWellFormed(replies)
  {
    && states != [] && states[0] == Initial(Lines(replies))
    && forall i :: 0 <= i < |states| - 1 ==> Next(states[i], states[i + 1])
  }

  // ----- the stream

  ghost predicate AllWellFormed(replies: seq<Reply>) {
    forall i :: 0 <= i < |replies| ==> WellFormed(replies[i])
  }

  ghost function Lines(replies: seq<Reply>): seq<string>
    requires AllWellFormed(replies)
  {
    if replies == [] then [] else Print(replies[0]) + Lines(replies[1..])
  }

  /** The synchronous replies of a stream, and the events in it, in order. */
  ghost function Synchronous(replies: seq<Reply>): seq<Response> {
    if replies == [] then []
    else
      var last := replies[|replies| - 1];
      Synchronous(replies[..|replies| - 1]) + if last.code == 650 then [] else [Meaning(last)]
  }

  ghost function Asynchronous(replies: seq<Reply>): seq<Response> {
    if replies == [] then []
    else
      var last := replies[|replies| - 1];
      Asynchronous(replies[..|replies| - 1]) + if last.code == 650 then [Meaning(last)] else []
  }

  lemma NextReply(replies: seq<Reply>, k: nat)
    requires k < |replies|
    ensures Synchronous(replies[..k + 1])
         == Synchronous(replies[..k]) + if replies[k].code == 650 then [] else [Meaning(replies[k])]
    ensures Asynchronous(replies[..k + 1])
         == Asynchronous(replies[..k]) + if replies[k].code == 650 then [Meaning(replies[k])] else []
  {
    hide Meaning;
    assert replies[..k + 1][..k] == replies[..k];
  }

  lemma LinesFrom(replies: seq<Reply>, k: nat)
    requires AllWellFormed(replies) && k < |replies|
    ensures Lines(replies[k..]) == Print(replies[k]) + Lines(replies[k + 1..])
  {
    hide Print;
    assert replies[k..][1..] == replies[k + 1..];
  }

  // ----- what every step keeps

  ghost predicate RequestsOk(s: State, answers: seq<Response>, ended: bool) {
    && |answers| <= s.turn <= |s.requests| && (|answers| < s.turn ==> ended)
    && forall id :: 0 <= id < |s.requests| ==>
         s.requests[id] == if id < |answers| then Returned(answers[id]) else if id < s.turn then GaveUp else Waiting
  }

  ghost predicate LockOk(s: State, replies: seq<Reply>)
    requires AllWellFormed(replies) && |s.owners| <= |replies|
  {
    var k := |s.owners|;
    match s.lock
    case Reading(t, p) =>
      && p.Pending()
      && (if k < |replies| then Run(p, s.unread) == (Done(Meaning(replies[k])), Lines(replies[k + 1..]))
          else s.unread == [])
      && (t.Request? ==> t.id == s.turn < |s.requests|)
      && (t.Handler? ==> k < |replies| && replies[k].code == 650)
    case AwaitsTurn(id) => s.turn <= id < |s.requests| && s.unread == Lines(replies[k..])
    case _ => s.unread == Lines(replies[k..])
  }

  ghost predicate Inv(s: State, replies: seq<Reply>)
    requires AllWellFormed(replies)
  {
    var k := |s.owners|;
    && k <= |replies|
    && s.relayed == Asynchronous(replies[..k])
    && RequestsOk(s, Synchronous(replies[..k]), k == |replies|)
    && LockOk(s, replies)
    && OwnersOk(s.owners, replies)
  }

  /** Event readers have read events only. */
  ghost predicate OwnersOk(owners: seq<Thread>, replies: seq<Reply>)
    requires |owners| <= |replies|
  {
    forall i :: 0 <= i < |owners| && owners[i].Handler? ==> replies[i].code == 650
  }

  lemma NextOwner(owners: seq<Thread>, replies: seq<Reply>, t: Thread)
    requires |owners| < |replies| && OwnersOk(owners, replies)
    requires t.Handler? ==> replies[|owners|].code == 650
    ensures OwnersOk(owners + [t], replies)
  {
  }

  lemma InitialInv(replies: seq<Reply>)
    requires AllWellFormed(replies)
    ensures Inv(Initial(Lines(replies)), replies)
  {
    hide Lines;
    assert replies[0..] == replies;
  }

  /** Whoever starts to read finds a whole reply. */
  lemma StartReading(s: State, replies: seq<Reply>)
    requires AllWellFormed(replies) && |s.owners| < |replies|
    requires s.unread == Lines(replies[|s.owners|..])
    ensures var k := |s.owners|;
            Run(Start, s.unread) == (Done(Meaning(replies[k])), Lines(replies[k + 1..]))
  {
    hide Run, Print, Lines, Meaning;
    LinesFrom(replies, |s.owners|);
    ReadPrinted(replies[|s.owners|], Lines(replies[|s.owners| + 1..]));
  }

  /** The first line of a reply tells whether it is an event. */
  lemma PeekTells(replies: seq<Reply>, k: nat)
    requires AllWellFormed(replies) && k < |replies|
    ensures Lines(replies[k..]) != []
    ensures EventIsNext(Lines(replies[k..])) <==> replies[k].code == 650
  {
    LinesFrom(replies, k);
    var r := replies[k];
    FirstLine(r);
    var line := Print(r)[0];
    assert Lines(replies[k..])[0] == line;
    hide Print, Lines, Atoi, CodeText;
    StatusCodeIsText(line[..3], r.code);
    StatusCodeIsText(line[..3], 650);
  }

  lemma FirstLine(r: Reply)
    requires WellFormed(r)
    ensures Print(r) != [] && |Print(r)[0]| >= 4 && Print(r)[0][..3] == CodeText(r.code)
  {
    hide CodeText;
    if r.parts != [] {
      assert Print(r)[0] == PrintPart(r.code, r.parts[0])[0];
    }
  }

  // ----- each step keeps it

  lemma WriteKeeps(s: State, replies: seq<Reply>)
    requires AllWellFormed(replies) && Inv(s, replies)
    ensures Inv(s.(requests := s.requests + [Waiting]), replies)
  {
    hide Run, Lines, Meaning, Synchronous, Asynchronous, AllWellFormed;
  }

  lemma LockKeeps(s: State, replies: seq<Reply>, lock: Lock)
    requires AllWellFormed(replies) && Inv(s, replies)
    requires s.lock.Free?
    requires lock.Peeking? || (lock.AwaitsTurn? && lock.id < |s.requests| && s.requests[lock.id].Waiting?)
    ensures Inv(s.(lock := lock), replies)
  {
    hide Run, Lines, Meaning, Synchronous, Asynchronous, AllWellFormed;
  }

  lemma TurnKeeps(s: State, replies: seq<Reply>)
    requires AllWellFormed(replies) && Inv(s, replies)
    requires s.lock.AwaitsTurn? && s.lock.id == s.turn
    ensures Inv(s.(lock := Reading(Request(s.lock.id), Start)), replies)
  {
    NoLines(replies);
    hide Run, Lines, Meaning, Synchronous, Asynchronous, AllWellFormed, RequestsOk;
    if |s.owners| < |replies| {
      StartReading(s, replies);
    }
  }

  lemma NoLines(replies: seq<Reply>)
    requires AllWellFormed(replies)
    ensures Lines(replies[|replies|..]) == []
  {
  }

  lemma PeekKeeps(s: State, replies: seq<Reply>)
    requires AllWellFormed(replies) && Inv(s, replies)
    requires s.lock.Peeking?
    ensures Inv(s.(lock := if EventIsNext(s.unread) then Reading(Handler(s.lock.h), Start) else Free), replies)
  {
    hide Run, Lines, Meaning, Synchronous, Asynchronous, AllWellFormed, OwnersOk, Atoi;
    if |s.owners| < |replies| {
      StartReading(s, replies);
      PeekTells(replies, |s.owners|);
    } else {
      NoLines(replies);
    }
  }

  lemma LineKeeps(s: State, replies: seq<Reply>)
    requires AllWellFormed(replies) && Inv(s, replies)
    requires s.lock.Reading? && s.lock.p.Pending()
    ensures Inv(LineRead(s, s.lock.t, s.lock.p), replies)
  {
    var t, p, k := s.lock.t, s.lock.p, |s.owners|;
    if k == |replies| {
      EndKeeps(s, replies);
    } else {
      hide Run, Feed, Lines, Meaning, Synchronous, Asynchronous, AllWellFormed, RequestsOk;
      FirstStep(p, s.unread, Meaning(replies[k]), Lines(replies[k + 1..]));
      var s' := s.(unread := s.unread[1..], log := s.log + [t]);
      if Feed(p, s.unread[0]).Done? {
        FinishKeeps(s, s', replies);
      }
    }
  }

  /** At the end of the stream a request gives up. */
  lemma EndKeeps(s: State, replies: seq<Reply>)
    requires AllWellFormed(replies) && Inv(s, replies)
    requires s.lock.Reading? && |s.owners| == |replies|
    ensures s.unread == [] && Inv(Ended(s, s.lock.t), replies)
  {
    NoLines(replies);
    hide Run, Feed, Lines, Meaning, Synchronous, Asynchronous, AllWellFormed;
  }

  lemma RelayKeeps(s: State, s': State, replies: seq<Reply>, lock: Lock)
    requires AllWellFormed(replies) && Inv(s, replies)
    requires s.lock.Reading? && |s.owners| < |replies| && replies[|s.owners|].code == 650
    requires s'.unread == Lines(replies[|s.owners| + 1..])
    requires s'.requests == s.requests && s'.turn == s.turn && s'.relayed == s.relayed && s'.owners == s.owners
    requires lock.Free? || (lock == Reading(s.lock.t, Start) && s.lock.t.Request?)
    ensures Inv(s'.(owners := s.owners + [s.lock.t], relayed := s.relayed + [Meaning(replies[|s.owners|])],
                    lock := lock), replies)
  {
    var k := |s.owners|;
    var after := s'.(owners := s.owners + [s.lock.t], relayed := s.relayed + [Meaning(replies[k])], lock := lock);
    hide Run, Meaning, AllWellFormed, PrintParts, Lines, Synchronous, Asynchronous;
    NextReply(replies, k);
    assert Synchronous(replies[..k]) + [] == Synchronous(replies[..k]);
    assert s.lock.t.Request? ==> s.lock.t.id == s.turn < |s.requests|;
    SameRequests(s, after, Synchronous(replies[..k]), k + 1 == |replies|);
    NextOwner(s.owners, replies, s.lock.t);
    hide RequestsOk, OwnersOk;
    LockAfterRelay(after, replies);
  }

  lemma SameRequests(s: State, s': State, answers: seq<Response>, ended: bool)
    requires RequestsOk(s, answers, false) && s'.requests == s.requests && s'.turn == s.turn
    ensures RequestsOk(s', answers, ended)
  {
  }

  lemma LockAfterRelay(s: State, replies: seq<Reply>)
    requires AllWellFormed(replies) && |s.owners| <= |replies| && s.unread == Lines(replies[|s.owners|..])
    requires s.lock.Free?
            || (s.lock.Reading? && s.lock.p.Start? && s.lock.t.Request? && s.lock.t.id == s.turn < |s.requests|)
    ensures LockOk(s, replies)
  {
    NoLines(replies);
    hide Run, Meaning, Lines, AllWellFormed;
    if s.lock.Reading? && |s.owners| < |replies| {
      StartReading(s, replies);
    }
  }

  lemma ReturnKeeps(s: State, s': State, replies: seq<Reply>)
    requires AllWellFormed(replies) && Inv(s, replies)
    requires s.lock.Reading? && |s.owners| < |replies| && replies[|s.owners|].code != 650
    requires s'.unread == Lines(replies[|s.owners| + 1..])
    requires s'.requests == s.requests && s'.turn == s.turn && s'.relayed == s.relayed && s'.owners == s.owners
    ensures s.lock.t.Request? && s.lock.t.id == s.turn < |s.requests|
    ensures Inv(s'.(owners := s.owners + [s.lock.t], turn := s.turn + 1, lock := Free,
                    requests := s.requests[s.turn := Returned(Meaning(replies[|s.owners|]))]), replies)
  {
    var k := |s.owners|;
    hide Run, Meaning, AllWellFormed, PrintParts, Lines, Synchronous, Asynchronous;
    NextReply(replies, k);
    assert Asynchronous(replies[..k]) + [] == Asynchronous(replies[..k]);
    assert s.turn == |Synchronous(replies[..k])|;
    ReturnedRequests(s, s'.(owners := s.owners + [s.lock.t], turn := s.turn + 1, lock := Free,
                            requests := s.requests[s.turn := Returned(Meaning(replies[k]))]),
                     Synchronous(replies[..k]), Meaning(replies[k]), k + 1 == |replies|);
    NextOwner(s.owners, replies, s.lock.t);
    hide RequestsOk, OwnersOk;
  }

  lemma ReturnedRequests(s: State, s': State, answers: seq<Response>, r: Response, ended: bool)
    requires RequestsOk(s, answers, false) && s.turn < |s.requests|
    requires s'.requests == s.requests[s.turn := Returned(r)] && s'.turn == s.turn + 1
    ensures RequestsOk(s', answers + [r], ended)
  {
  }

  /** A complete reply goes to whom it is for. */
  lemma FinishKeeps(s: State, s': State, replies: seq<Reply>)
    requires AllWellFormed(replies) && Inv(s, replies)
    requires s.lock.Reading? && |s.owners| < |replies|
    requires s'.unread == Lines(replies[|s.owners| + 1..])
    requires s'.requests == s.requests && s'.turn == s.turn && s'.relayed == s.relayed && s'.owners == s.owners
    ensures Inv(Finished(s', s.lock.t, Meaning(replies[|s.owners|])), replies)
  {
    var t, k := s.lock.t, |s.owners|;
    assert t.Handler? ==> replies[k].code == 650;
    assert Meaning(replies[k]).IsAsync() <==> replies[k].code == 650;
    hide Run, Meaning, AllWellFormed, Lines, Synchronous, Asynchronous, Inv;
    if t.Handler? {
      RelayKeeps(s, s', replies, Free);
    } else if replies[k].code == 650 {
      RelayKeeps(s, s', replies, Reading(t, Start));
    } else {
      ReturnKeeps(s, s', replies);
    }
  }

  lemma NextKeeps(s: State, s': State, replies: seq<Reply>)
    requires AllWellFormed(replies) && Inv(s, replies) && Next(s, s')
    ensures Inv(s', replies)
  {
    hide Inv, LineRead, EventIsNext, AllWellFormed;
    if s' == s.(requests := s.requests + [Waiting]) {
      WriteKeeps(s, replies);
    } else if s.lock.Free? {
      LockKeeps(s, replies, s'.lock);
    } else if s.lock.AwaitsTurn? {
      TurnKeeps(s, replies);
    } else if s.lock.Peeking? {
      PeekKeeps(s, replies);
    } else {
      LineKeeps(s, replies);
    }
  }

  /** Every state of every run has the invariant. */
  lemma {:induction false} RunKeeps(states: seq<State>, replies: seq<Reply>, n: nat)
    requires AllWellFormed(replies) && IsRun(states, replies) && n < |states|
    ensures Inv(states[n], replies)
  {
    hide Inv, Next, AllWellFormed, Lines;
    if n == 0 {
      InitialInv(replies);
    } else {
      RunKeeps(states, replies, n - 1);
      assert Next(states[n - 1], states[n - 1 + 1]);
      NextKeeps(states[n - 1], states[n], replies);
    }
  }

  // ----- what it means

  lemma {:induction false} PrefixOfSynchronous(replies: seq<Reply>, k: nat)
    requires k <= |replies|
    ensures Synchronous(replies[..k]) <= Synchronous(replies) && Asynchronous(replies[..k]) <= Asynchronous(replies)
  {
    hide Meaning;
    if k == |replies| {
      assert replies[..k] == replies;
    } else {
      var n := |replies| - 1;
      PrefixOfSynchronous(replies[..n], k);
      assert replies[..n][..k] == replies[..k];
    }
  }

  /** In every state of every run: events are relayed in the order of the stream, the n-th request that gets a response
      gets the n-th synchronous reply, and event readers never read any other reply than an event. */
  lemma SafeRuns(states: seq<State>, replies: seq<Reply>, n: nat)
    requires AllWellFormed(replies) && IsRun(states, replies) && n < |states|
    ensures states[n].relayed <= Asynchronous(replies)
    ensures forall id :: 0 <= id < |states[n].requests| && states[n].requests[id].Returned? ==>
              id < |Synchronous(replies)| && states[n].requests[id].response == Synchronous(replies)[id]
    ensures |states[n].owners| <= |replies|
    ensures states[n].relayed == Asynchronous(replies[..|states[n].owners|])
    ensures forall id :: 0 <= id < |Synchronous(replies[..|states[n].owners|])| ==>
              id < |states[n].requests| && states[n].requests[id].Returned?
    ensures forall i :: 0 <= i < |states[n].owners| && states[n].owners[i].Handler? ==> replies[i].code == 650
  {
    var s := states[n];
    RunKeeps(states, replies, n);
    PrefixOfSynchronous(replies, |s.owners|);
    hide Synchronous, Asynchronous, LockOk, IsRun, AllWellFormed;
    var answers := Synchronous(replies[..|s.owners|]);
    forall id | 0 <= id < |s.requests| && s.requests[id].Returned?
      ensures id < |Synchronous(replies)| && s.requests[id].response == Synchronous(replies)[id]
    {
      assert s.requests[id] == Returned(answers[id]);
    }
  }

  // ----- who reads the lines of a reply

  /** The readers of all lines of the complete replies, if each reply has one reader. */
  ghost function OwnedLines(replies: seq<Reply>, owners: seq<Thread>): seq<Thread>
    requires AllWellFormed(replies) && |owners| <= |replies|
  {
    if owners == [] then []
    else
      var k := |owners| - 1;
      OwnedLines(replies, owners[..k]) + seq(|Print(replies[k])|, _ => owners[k])
  }

  /** The readers of the lines so far: those of complete replies, then the holder of the lock. */
  ghost predicate LogOk(s: State, replies: seq<Reply>)
    requires AllWellFormed(replies) && |s.owners| <= |replies|
  {
    var owned := OwnedLines(replies, s.owners);
    && owned <= s.log
    && |s.log| - |owned| + |s.unread| == |Lines(replies[|s.owners|..])|
    && (s.lock.Reading? || |owned| == |s.log|)
    && forall j :: |owned| <= j < |s.log| ==> s.lock.Reading? && s.log[j] == s.lock.t
  }

  lemma LineLog(s: State, replies: seq<Reply>)
    requires AllWellFormed(replies) && Inv(s, replies) && LogOk(s, replies)
    requires s.lock.Reading? && s.lock.p.Pending()
    ensures var s' := LineRead(s, s.lock.t, s.lock.p);
            |s'.owners| <= |replies| && LogOk(s', replies)
  {
    var t, p, k := s.lock.t, s.lock.p, |s.owners|;
    if k == |replies| {
      NoLines(replies);
      hide OwnedLines, Lines, AllWellFormed, RequestsOk, Synchronous, Asynchronous;
    } else {
      hide Run, Feed, Lines, Meaning, Synchronous, Asynchronous, AllWellFormed, RequestsOk, LogOk, Finished;
      FirstStep(p, s.unread, Meaning(replies[k]), Lines(replies[k + 1..]));
      var p' := Feed(p, s.unread[0]);
      if p'.Done? {
        FinishedLog(s, replies, Meaning(replies[k]));
      } else {
        ContinuedLog(s, replies, p');
      }
    }
  }

  lemma ContinuedLog(s: State, replies: seq<Reply>, p: Parse)
    requires AllWellFormed(replies) && |s.owners| < |replies| && LogOk(s, replies)
    requires s.lock.Reading? && s.unread != []
    ensures LogOk(s.(unread := s.unread[1..], log := s.log + [s.lock.t], lock := Reading(s.lock.t, p)), replies)
  {
    hide OwnedLines, Lines, AllWellFormed;
  }

  lemma FinishedLog(s: State, replies: seq<Reply>, r: Response)
    requires AllWellFormed(replies) && |s.owners| < |replies| && LogOk(s, replies)
    requires s.lock.Reading? && s.unread != [] && s.unread[1..] == Lines(replies[|s.owners| + 1..])
    ensures var s' := Finished(s.(unread := s.unread[1..], log := s.log + [s.lock.t]), s.lock.t, r);
            |s'.owners| <= |replies| && LogOk(s', replies)
  {
    CompleteLog(s, replies);
    hide OwnedLines, Lines, AllWellFormed, LogOk;
    OwnedLog(Finished(s.(unread := s.unread[1..], log := s.log + [s.lock.t]), s.lock.t, r), replies);
  }

  lemma OwnedLog(s: State, replies: seq<Reply>)
    requires AllWellFormed(replies) && |s.owners| <= |replies|
    requires OwnedLines(replies, s.owners) == s.log && s.unread == Lines(replies[|s.owners|..])
    ensures LogOk(s, replies)
  {
    hide OwnedLines, Lines, AllWellFormed;
  }

  /** With its last line a reply has been read by one reader. */
  lemma CompleteLog(s: State, replies: seq<Reply>)
    requires AllWellFormed(replies) && |s.owners| < |replies| && LogOk(s, replies)
    requires s.lock.Reading? && s.unread != [] && s.unread[1..] == Lines(replies[|s.owners| + 1..])
    ensures var t := s.lock.t;
            OwnedLines(replies, s.owners + [t]) == s.log + [t]
  {
    var t, k := s.lock.t, |s.owners|;
    var owned, n := OwnedLines(replies, s.owners), |Print(replies[k])|;
    LinesFrom(replies, k);
    hide Lines, Print, AllWellFormed;
    AppendedOwner(replies, s.owners, t);
    hide OwnedLines;
    SameLog(owned, s.log, t, n);
  }

  lemma AppendedOwner(replies: seq<Reply>, owners: seq<Thread>, t: Thread)
    requires AllWellFormed(replies) && |owners| < |replies|
    ensures OwnedLines(replies, owners + [t]) == OwnedLines(replies, owners) + seq(|Print(replies[|owners|])|, _ => t)
  {
    hide AllWellFormed, Print;
    assert (owners + [t])[..|owners|] == owners;
  }

  lemma SameLog(owned: seq<Thread>, log: seq<Thread>, t: Thread, n: nat)
    requires owned <= log && |log| + 1 == |owned| + n && forall j :: |owned| <= j < |log| ==> log[j] == t
    ensures owned + seq(n, _ => t) == log + [t]
  {
  }

  lemma NextLog(s: State, s': State, replies: seq<Reply>)
    requires AllWellFormed(replies) && Inv(s, replies) && LogOk(s, replies) && Next(s, s')
    ensures |s'.owners| <= |replies| && LogOk(s', replies)
  {
    if s.lock.Reading? && s' != s.(requests := s.requests + [Waiting]) {
      hide Inv, LogOk, LineRead, EventIsNext, AllWellFormed;
      LineLog(s, replies);
    } else {
      hide LockOk, RequestsOk, OwnedLines, Lines, LineRead, EventIsNext, AllWellFormed;
    }
  }

  lemma {:induction false} RunLog(states: seq<State>, replies: seq<Reply>, n: nat)
    requires AllWellFormed(replies) && IsRun(states, replies) && n < |states|
    ensures |states[n].owners| <= |replies| && LogOk(states[n], replies)
  {
    if n == 0 {
      assert replies[0..] == replies;
    } else {
      hide Inv, LogOk, Next, AllWellFormed, Lines;
      RunLog(states, replies, n - 1);
      RunKeeps(states, replies, n - 1);
      assert Next(states[n - 1], states[n - 1 + 1]);
      NextLog(states[n - 1], states[n], replies);
    }
  }

  lemma {:induction false} OwnersOfLines(replies: seq<Reply>, owners: seq<Thread>, i: nat, j: nat)
    requires AllWellFormed(replies) && i < |owners| <= |replies|
    requires |OwnedLines(replies, owners[..i])| <= j < |OwnedLines(replies, owners[..i + 1])|
    ensures j < |OwnedLines(replies, owners)| && OwnedLines(replies, owners)[j] == owners[i]
    decreases |owners|
  {
    hide AllWellFormed, Print;
    var k := |owners| - 1;
    if i == k {
      assert owners[..i + 1] == owners;
    } else {
      assert owners[..k][..i] == owners[..i] && owners[..k][..i + 1] == owners[..i + 1];
      OwnersOfLines(replies, owners[..k], i, j);
    }
  }

  /** The lines read so far are those of the complete replies, in the order of the stream, followed by lines of the
      present reader alone. */
  lemma ReadersOfLines(states: seq<State>, replies: seq<Reply>, n: nat)
    requires AllWellFormed(replies) && IsRun(states, replies) && n < |states|
    ensures var s := states[n];
            && |s.owners| <= |replies| && OwnedLines(replies, s.owners) <= s.log
            && (s.lock.Reading? || |OwnedLines(replies, s.owners)| == |s.log|)
            && forall j :: |OwnedLines(replies, s.owners)| <= j < |s.log| ==> s.lock.Reading? && s.log[j] == s.lock.t
  {
    RunLog(states, replies, n);
    hide IsRun, OwnedLines, Lines, AllWellFormed;
  }

  /** Each complete reply was read whole, from its first line to its last, by one reader. */
  lemma WholeReplies(states: seq<State>, replies: seq<Reply>, n: nat, i: nat, j: nat)
    requires AllWellFormed(replies) && IsRun(states, replies) && n < |states|
    requires i < |states[n].owners| && i < |replies| && j < |Print(replies[i])|
    ensures var first := |Lines(replies[..i])|;
            first + j < |states[n].log| && states[n].log[first + j] == states[n].owners[i]
  {
    hide IsRun, AllWellFormed, Lines, Print;
    var s := states[n];
    ReadersOfLines(states, replies, n);
    assert s.owners[..i + 1][..i] == s.owners[..i];
    OwnersOfLines(replies, s.owners, i, |OwnedLines(replies, s.owners[..i])| + j);
    OwnedCount(replies, s.owners[..i]);
  }

  lemma {:induction false} OwnedCount(replies: seq<Reply>, owners: seq<Thread>)
    requires AllWellFormed(replies) && |owners| <= |replies|
    ensures |OwnedLines(replies, owners)| == |Lines(replies[..|owners|])|
  {
    hide Print;
    if owners == [] {
    } else {
      var k := |owners| - 1;
      OwnedCount(replies, owners[..k]);
      AppendedLines(replies[..k], replies[k]);
      hide Lines, AllWellFormed;
      assert replies[..k + 1] == replies[..k] + [replies[k]];
    }
  }

  lemma {:induction false} AppendedLines(replies: seq<Reply>, r: Reply)
    requires AllWellFormed(replies) && WellFormed(r)
    ensures AllWellFormed(replies + [r]) && Lines(replies + [r]) == Lines(replies) + Print(r)
  {
    hide Print;
    if replies == [] {
      assert Lines([r][1..]) == [];
    } else {
      AppendedLines(replies[1..], r);
      assert (replies + [r])[1..] == replies[1..] + [r];
    }
  }
}
