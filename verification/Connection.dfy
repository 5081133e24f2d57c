/** The control connection: synchronous requests and event readers on one stream, and the listener table.

    The fields are the stream of lines that the connection will deliver, the commands written so far, the listener
    table, and everything sent to listeners.  What a thread does while it holds the read lock is one method call here.
 */
module Connection {
  import opened Options
  import opened Replies
  import opened Listeners
  import opened Events
  import opened Formats
  import opened Conf
  import SetConf
  import Interleavings

  /** A response, if one was read, and whether there was no error. */
  datatype Outcome = Outcome(response: Option<Response>, ok: bool)

  /** Reading up to the first synchronous response: how it ends, the lines left, and the events on the way. */
  ghost function Await(lines: seq<string>): (Parse, seq<string>, seq<Response>)
    decreases |lines|
  {
    var (p, rest) := Run(Start, lines);
    if p.Done? && p.response.IsAsync() then
      var (q, rest', events) := Await(rest);
      (q, rest', [p.response] + events)
    else (p, rest, [])
  }

  /** A stream that starts with any number of events and one synchronous reply, printed as a server writes them. */
  ghost predicate IsStream(lines: seq<string>, events: seq<Reply>, r: Reply, rest: seq<string>) {
    && Interleavings.AllWellFormed(events) && (forall i :: 0 <= i < |events| ==> events[i].code == 650)
    && WellFormed(r) && r.code != 650
    && lines == Interleavings.Lines(events) + (Print(r) + rest)
  }

  /** A stream that starts with any number of events and goes on with lines that no reply can be read from: there are
      none left, or they break off or are malformed. */
  ghost predicate IsBrokenStream(lines: seq<string>, events: seq<Reply>, tail: seq<string>) {
    && Interleavings.AllWellFormed(events) && (forall i :: 0 <= i < |events| ==> events[i].code == 650)
    && lines == Interleavings.Lines(events) + tail && Run(Start, tail).0.Failed?
  }

  /** A reply with the text of one entry on each of its lines, the closing one among them. */
  ghost predicate Lists(r: Reply, entries: seq<KeyVal>) {
    && |entries| == |r.parts| + 1
    && (forall i :: 0 <= i < |entries| ==> '=' !in entries[i].key)
    && (forall i :: 0 <= i < |r.parts| ==> r.parts[i] == Line(EntryText(entries[i])))
    && r.last == EntryText(entries[|r.parts|])
  }

  function OutcomeOf(p: Parse): Outcome {
    if p.Done? then Outcome(Some(p.response), p.response.IsOk()) else Outcome(None, false)
  }

  class Conn {
    var unread: seq<string>
    var written: seq<string>
    var eventListeners: map<string, array<Channel>>
    var sent: seq<(Channel, Event)>
    const recognized: set<string>

    /** The listener table as a value. */
    ghost function Contents(): Table
      reads `eventListeners, eventListeners.Values
    {
      map event | event in eventListeners :: eventListeners[event][..]
    }

    constructor (lines: seq<string>, recognized: set<string>)
      ensures unread == lines && written == [] && sent == [] && eventListeners == map[] && Contents() == map[]
      ensures this.recognized == recognized
    {
      unread := lines;
      written := [];
      eventListeners := map[];
      sent := [];
      this.recognized := recognized;
    }

    // ----- reading

    method ReadLine() returns (line: Option<string>)
      modifies `unread
      ensures old(unread) == [] ==> line == None && unread == []
      ensures old(unread) != [] ==> line == Some(old(unread[0])) && unread == old(unread)[1..]
    {
      if unread == [] {
        return None;
      }
      line := Some(unread[0]);
      unread := unread[1..];
    }

    /** Reads the lines of a body up to a lone dot.  The ghost parameters name the response that it belongs to. */
    method ReadDotBytes(ghost code: int, ghost data: seq<string>, ghost head: string) returns (body: Option<string>)
      modifies `unread
      ensures |unread| <= |old(unread)|
      ensures body.Some? ==> Run(InBody(code, data, head, ""), old(unread))
                             == Run(Mid(code, data + [head + "\r\n" + TrimRight(body.value)]), unread)
      ensures body.None? ==> Run(InBody(code, data, head, ""), old(unread)) == (Failed(EndOfStream), unread)
    {
      hide TrimRight;
      var text := "";
      while true
        invariant |unread| <= |old(unread)|
        invariant Run(InBody(code, data, head, ""), old(unread)) == Run(InBody(code, data, head, text), unread)
        decreases |unread|
      {
        FeedBodyLine(code, data, head, text, unread);
        var line := ReadLine();
        if line == None {
          return None;
        }
        if line.value == "." {
          return Some(text);
        }
        text := text + Unstuffed(line.value) + "\n";
      }
    }

    /** The next response, or the error that ends the reading. */
    method ReadResponse() returns (p: Parse)
      modifies `unread
      ensures (p, unread) == Run(Start, old(unread))
    {
      hide Feed, TrimRight, Run, StatusCode;
      p := Start;
      while true
        invariant p.Start? || p.Mid?
        invariant Run(Start, old(unread)) == Run(p, unread)
        decreases |unread|
      {
        RunOneLine(p, unread);
        var read := ReadLine();
        if read == None {
          p := Failed(EndOfStream);
          return;
        }
        var line := read.value;
        HeadLine(p, line);
        EndOfRun(Feed(p, line), unread);
        if |line| < 4 {
          p := Failed(Truncated);
          return;
        }
        var code := StatusCode(line[..3]);
        if code == None {
          p := Failed(InvalidStatusCode);
          return;
        }
        if p.Mid? && code.value != p.code {
          p := Failed(StatusCodeChanged);
          return;
        }
        var data := if p.Mid? then p.data else [];
        match line[3] {
          case ' ' =>
            p := Done(Response(code.value, line[4..], data));
            return;
          case '-' =>
            p := Mid(code.value, data + [line[4..]]);
          case '+' =>
            var dotBody := ReadDotBytes(code.value, data, line[4..]);
            if dotBody == None {
              p := Failed(EndOfStream);
              return;
            }
            p := Mid(code.value, data + [line[4..] + "\r\n" + TrimRight(dotBody.value)]);
          case _ =>
            p := Failed(InvalidSeparator);
            return;
        }
      }
    }

    /** Sends the event that a response stands for to its listeners, in order. */
    method RelayAsyncEvents(resp: Response)
      modifies `sent
      ensures sent == old(sent) + Deliveries(Contents(), recognized, resp)
    {
      hide RelayedEvent, Recipients, Contents;
      var event := RelayedEvent(resp);
      var chans := Chans(event.code);
      ghost var deliveries := Deliveries(Contents(), recognized, resp);
      ghost var recipients := chans[..];
      for i := 0 to chans.Length
        invariant chans[..] == recipients
        invariant sent == old(sent) + deliveries[..i]
      {
        sent := sent + [(chans[i], event)];
        assert deliveries[i] == (recipients[i], event);
        assert deliveries[..i + 1] == deliveries[..i] + [deliveries[i]];
      }
      assert deliveries[..|deliveries|] == deliveries;
    }

    // The channels that an event goes to.
    method Chans(code: string) returns (chans: array<Channel>)
      ensures chans[..] == Recipients(Contents(), recognized, code)
    {
      hide ListenersOf, Contents;
      chans := Snapshot(code);
      assert chans[..] + [] == chans[..];
      if code !in recognized {
        var others := Snapshot(UNRECOGNIZED);
        chans := Append(chans, others);
      }
    }

    // The listeners of an event at this moment; the array belongs to the table.
    method Snapshot(event: string) returns (chans: array<Channel>)
      ensures chans[..] == ListenersOf(Contents(), event)
      ensures fresh(chans) || chans in eventListeners.Values
    {
      if event in eventListeners {
        chans := eventListeners[event];
      } else {
        chans := new Channel[0];
      }
    }

    /** A synchronous request.  Events that arrive before its response are relayed on the way. */
    method SendRequest(command: string, connected: bool) returns (r: Outcome)
      modifies `unread, `written, `sent
      ensures !connected ==>
                r == Outcome(None, false) && unread == old(unread) && sent == old(sent) && written == old(written)
      ensures connected ==>
                var (p, rest, events) := Await(old(unread));
                && r == OutcomeOf(p) && unread == rest && written == old(written) + [command]
                && sent == old(sent) + AllDeliveries(Contents(), recognized, events)
      ensures connected ==>
                forall events, reply, rest :: IsStream(old(unread), events, reply, rest) ==>
                  && r.response == Some(Meaning(reply)) && (r.ok <==> reply.code == 250 || reply.code == 251)
                  && unread == rest && sent == old(sent) + AllDeliveries(Contents(), recognized, Meanings(events))
      ensures connected ==>
                forall events, tail :: IsBrokenStream(old(unread), events, tail) ==>
                  && r.response == None && !r.ok && unread == Run(Start, tail).1
                  && sent == old(sent) + AllDeliveries(Contents(), recognized, Meanings(events))
    {
      hide Await, AllDeliveries, OutcomeOf, Contents, IsStream, IsBrokenStream, Meanings, Run;
      if !connected {
        return Outcome(None, false);
      }
      written := written + [command];
      var p := FirstSynchronous();
      r := OutcomeOf(p);
      forall events, reply, rest | IsStream(old(unread), events, reply, rest)
        ensures Await(old(unread)) == (Done(Meaning(reply)), rest, Meanings(events))
        ensures OutcomeOf(Done(Meaning(reply))) == Outcome(Some(Meaning(reply)), reply.code == 250 || reply.code == 251)
      {
        RequestPrinted(old(unread), events, reply, rest);
      }
      forall events, tail | IsBrokenStream(old(unread), events, tail)
        ensures Await(old(unread)) == (Run(Start, tail).0, Run(Start, tail).1, Meanings(events))
        ensures OutcomeOf(Run(Start, tail).0) == Outcome(None, false)
      {
        RequestFails(old(unread), events, tail);
      }
    }

    /** A request whose finished text goes out as a format without arguments. */
    method SendRequestIgnoreResponse(format: string, connected: bool) returns (r: Outcome)
      modifies `unread, `written, `sent
      ensures !connected ==>
                r == Outcome(None, false) && unread == old(unread) && sent == old(sent) && written == old(written)
      ensures connected ==>
                var (p, rest, events) := Await(old(unread));
                && r == OutcomeOf(p) && unread == rest && written == old(written) + [Sprintf(format)]
                && sent == old(sent) + AllDeliveries(Contents(), recognized, events)
    {
      r := SendRequest(Sprintf(format), connected);
    }

    // The loop of SendRequest.
    method FirstSynchronous() returns (p: Parse)
      modifies `unread, `sent
      ensures var (q, rest, events) := Await(old(unread));
              && p == q && !p.Pending() && unread == rest
              && sent == old(sent) + AllDeliveries(Contents(), recognized, events)
    {
      hide Run, Await, AwaitAfter, AllDeliveries, Deliveries, Contents;
      ghost var t := Contents();
      ghost var events: seq<Response> := [];
      p := ReadResponse();
      RunShorter(old(unread));
      AwaitStep(old(unread));
      NoDeliveries(t, recognized);
      while p.Done? && p.response.IsAsync()
        invariant !p.Pending() && |unread| <= |old(unread)|
        invariant Await(old(unread)) == AwaitAfter(p, unread, events)
        invariant sent == old(sent) + AllDeliveries(t, recognized, events)
        decreases |unread|, p.Done?
      {
        RunShorter(unread);
        MoreEvents(p, unread, events);
        MoreDeliveries(t, recognized, events, p.response);
        RelayAsyncEvents(p.response);
        events := events + [p.response];
        p := ReadResponse();
      }
      AwaitEnds(p, unread, events);
    }

    /** Reads one event, if that is what comes next. */
    method HandleNextEvent() returns (ok: bool)
      modifies `unread, `sent
      ensures old(unread) == [] || |old(unread[0])| < 3 || Atoi(old(unread[0])[..3]) != Some(650) ==>
                unread == old(unread) && sent == old(sent)
                && (ok <==> unread != [] && |unread[0]| >= 3 && Atoi(unread[0][..3]).Some?)
      ensures old(unread) != [] && |old(unread[0])| >= 3 && Atoi(old(unread[0])[..3]) == Some(650) ==>
                var (p, rest) := Run(Start, old(unread));
                && unread == rest && (ok <==> p.Done?)
                && sent == old(sent) + if ok then Deliveries(Contents(), recognized, p.response) else []
    {
      hide Run, Deliveries, Atoi;
      if unread == [] || |unread[0]| < 3 {
        return false;
      }
      var statusCode := Atoi(unread[0][..3]);
      if statusCode == None || statusCode.value != 650 {
        return statusCode != None;
      }
      var p := ReadResponse();
      if p.Failed? {
        return false;
      }
      RelayAsyncEvents(p.response);
      return true;
    }

    // ----- configuration

    /** SETCONF and RESETCONF. */
    method SendSetConf(cmd: string, entries: seq<KeyVal>, connected: bool) returns (r: Outcome)
      modifies `unread, `written, `sent
      ensures !connected ==>
                r == Outcome(None, false) && unread == old(unread) && sent == old(sent) && written == old(written)
      ensures connected ==>
                var (p, rest, events) := Await(old(unread));
                && r == OutcomeOf(p) && unread == rest
                && written == old(written) + [Sprintf(cmd + SetConf.EntryTexts(entries))]
                && sent == old(sent) + AllDeliveries(Contents(), recognized, events)
      ensures connected ==>
                forall events, reply, rest :: IsStream(old(unread), events, reply, rest) ==>
                  (r.ok <==> reply.code == 250 || reply.code == 251)
    {
      hide Await, AllDeliveries, OutcomeOf, Contents, Sprintf, IsStream;
      OkOnStreams(unread);
      var line := SetConf.SetConfCommand(cmd, entries);
      r := SendRequestIgnoreResponse(line, connected);
    }

    /** GETCONF: one entry from each line of the reply; an error if there is no reply or a line cannot be read. */
    method GetConf(keys: seq<string>, connected: bool) returns (entries: Option<seq<KeyVal>>)
      modifies `unread, `written, `sent
      ensures !connected ==> entries == None && unread == old(unread) && sent == old(sent) && written == old(written)
      ensures connected ==>
                var (p, rest, events) := Await(old(unread));
                && unread == rest && written == old(written) + ["GETCONF " + Joined(keys)]
                && sent == old(sent) + AllDeliveries(Contents(), recognized, events)
                && if OutcomeOf(p).ok then IsReading(DataWithReply(p.response), entries) else entries == None
      ensures connected ==>
                forall events, reply, rest, sentBack :: IsStream(old(unread), events, reply, rest) ==>
                  && (reply.code != 250 && reply.code != 251 ==> entries == None)
                  && ((reply.code == 250 || reply.code == 251) && Lists(reply, sentBack) ==>
                        && entries.Some? && |entries.value| == |sentBack|
                        && forall i :: 0 <= i < |sentBack| ==> SameEntry(entries.value[i], sentBack[i]))
    {
      hide Await, AllDeliveries, Contents, IsReading, IsStream, Lists, SameEntry;
      var r := SendRequest("GETCONF " + Joined(keys), connected);
      if !r.ok {
        return None;
      }
      entries := GetConfEntries(DataWithReply(r.response.value));
      forall events, reply, rest, sentBack | IsStream(old(unread), events, reply, rest) && Lists(reply, sentBack)
        ensures entries.Some? && |entries.value| == |sentBack|
        ensures forall i :: 0 <= i < |sentBack| ==> SameEntry(entries.value[i], sentBack[i])
      {
        ListIsRead(reply, sentBack, entries);
      }
    }

    // ----- listeners

    /** Appends the channel for every event.  No array of the table is written to: each change makes a new one. */
    method AddEventListenerToMap(ch: Channel, events: seq<string>)
      modifies `eventListeners
      ensures Contents() == AddAll(old(Contents()), ch, events)
      ensures forall a :: a in eventListeners.Values ==> fresh(a) || a in old(eventListeners.Values)
    {
      for i := 0 to |events|
        invariant Contents() == AddAll(old(Contents()), ch, events[..i])
        invariant forall a :: a in eventListeners.Values ==> fresh(a) || a in old(eventListeners.Values)
      {
        AddTo(ch, events[i]);
        assert events[..i + 1][..i] == events[..i];
      }
      assert events[..|events|] == events;
    }

    method AddTo(ch: Channel, event: string)
      modifies `eventListeners
      ensures Contents() == old(Contents())[event := ListenersOf(old(Contents()), event) + [ch]]
      ensures forall a :: a in eventListeners.Values ==> fresh(a) || a in old(eventListeners.Values)
    {
      hide ListenersOf;
      var prevArr := Snapshot(event);
      ghost var prev := prevArr[..];
      var newArr := new Channel[prevArr.Length + 1](k requires 0 <= k < prevArr.Length + 1 reads prevArr =>
        if k < prevArr.Length then prevArr[k] else ch);
      assert newArr[..] == prev + [ch];
      Replace(event, newArr);
    }

    // eventListeners[event] = arr
    method Replace(event: string, arr: array<Channel>)
      modifies `eventListeners
      ensures eventListeners == old(eventListeners)[event := arr]
      ensures Contents() == old(Contents())[event := arr[..]]
    {
      eventListeners := eventListeners[event := arr];
    }

    /** Takes away the first occurrence of the channel for every event. */
    method RemoveEventListenerFromMap(ch: Channel, events: seq<string>)
      modifies `eventListeners
      ensures Contents() == RemoveAll(old(Contents()), ch, events)
      ensures forall a :: a in eventListeners.Values ==> fresh(a) || a in old(eventListeners.Values)
    {
      for i := 0 to |events|
        invariant Contents() == RemoveAll(old(Contents()), ch, events[..i])
        invariant forall a :: a in eventListeners.Values ==> fresh(a) || a in old(eventListeners.Values)
      {
        RemoveFrom(ch, events[i]);
        assert events[..i + 1][..i] == events[..i];
      }
      assert events[..|events|] == events;
    }

    method RemoveFrom(ch: Channel, event: string)
      modifies `eventListeners
      ensures Contents() == RemoveOne(old(Contents()), ch, event)
      ensures forall a :: a in eventListeners.Values ==> fresh(a) || a in old(eventListeners.Values)
    {
      var arr := Snapshot(event);
      ghost var before := Contents();
      var index := -1;
      for i := 0 to arr.Length
        invariant index == -1 && forall k :: 0 <= k < i ==> arr[k] != ch
      {
        if arr[i] == ch {
          index := i;
          break;
        }
      }
      if index != -1 {
        WithoutFirstAt(arr[..], ch, index);
        if arr.Length == 1 {
          eventListeners := eventListeners - {event};
        } else {
          var newArr := Without(arr, index);
          Replace(event, newArr);
        }
      }
    }

    /** Asks for exactly the events in the table, in some order. */
    method SendSetEvents(connected: bool) returns (r: Outcome, ghost names: seq<string>)
      modifies `unread, `written, `sent
      ensures forall event :: event in names <==> event in eventListeners
      ensures |names| == |eventListeners|
      ensures !connected ==>
                r == Outcome(None, false) && unread == old(unread) && sent == old(sent) && written == old(written)
      ensures connected ==>
                var (p, rest, events) := Await(old(unread));
                && r == OutcomeOf(p) && unread == rest && written == old(written) + [Sprintf(Command(names))]
                && sent == old(sent) + AllDeliveries(Contents(), recognized, events)
    {
      hide Await, AllDeliveries;
      var cmd := "SETEVENTS";
      names := [];
      var left := eventListeners.Keys;
      while left != {}
        invariant left <= eventListeners.Keys
        invariant forall event :: event in names <==> event in eventListeners.Keys - left
        invariant |names| + |left| == |eventListeners.Keys|
        invariant cmd == Command(names)
        decreases left
      {
        var event :| event in left;
        cmd := cmd + " " + event;
        assert (names + [event])[..|names|] == names;
        names := names + [event];
        left := left - {event};
      }
      r := SendRequestIgnoreResponse(cmd, connected);
    }

    /** Adds a listener and asks the server for its events; on failure the listener is taken out again. */
    method AddEventListener(ch: Channel, events: seq<string>, connected: bool)
      returns (ok: bool, ghost names: seq<string>)
      modifies `unread, `written, `sent, `eventListeners
      ensures var added := AddAll(old(Contents()), ch, events);
              && Contents() == (if ok then added else RemoveAll(added, ch, events))
              && (forall event :: event in names <==> event in added) && |names| == |added|
      ensures written == old(written) + if connected then [Sprintf(Command(names))] else []
      ensures ok <==> connected && OutcomeOf(Await(old(unread)).0).ok
      ensures !connected ==> unread == old(unread) && sent == old(sent)
      ensures connected ==>
                var (_, rest, arrived) := Await(old(unread));
                && unread == rest
                && sent == old(sent) + AllDeliveries(AddAll(old(Contents()), ch, events), recognized, arrived)
      ensures connected ==>
                forall events, reply, rest :: IsStream(old(unread), events, reply, rest) ==>
                  (ok <==> reply.code == 250 || reply.code == 251)
      ensures forall a :: a in eventListeners.Values ==> fresh(a) || a in old(eventListeners.Values)
    {
      hide Await, AllDeliveries, AddAll, RemoveAll, OutcomeOf, Contents, Command, IsStream;
      OkOnStreams(unread);
      AddEventListenerToMap(ch, events);
      SameKeys();
      var r;
      r, names := SendSetEvents(connected);
      ok := r.ok;
      if !ok {
        RemoveEventListenerFromMap(ch, events);
      }
    }

    method RemoveEventListener(ch: Channel, events: seq<string>, connected: bool)
      returns (ok: bool, ghost names: seq<string>)
      modifies `unread, `written, `sent, `eventListeners
      ensures Contents() == RemoveAll(old(Contents()), ch, events)
      ensures (forall event :: event in names <==> event in Contents()) && |names| == |Contents()|
      ensures written == old(written) + if connected then [Sprintf(Command(names))] else []
      ensures ok <==> connected && OutcomeOf(Await(old(unread)).0).ok
      ensures !connected ==> unread == old(unread) && sent == old(sent)
      ensures connected ==>
                var (_, rest, arrived) := Await(old(unread));
                unread == rest && sent == old(sent) + AllDeliveries(Contents(), recognized, arrived)
      ensures connected ==>
                forall events, reply, rest :: IsStream(old(unread), events, reply, rest) ==>
                  (ok <==> reply.code == 250 || reply.code == 251)
      ensures forall a :: a in eventListeners.Values ==> fresh(a) || a in old(eventListeners.Values)
    {
      hide Await, AllDeliveries, RemoveAll, OutcomeOf, Contents, Command, IsStream;
      OkOnStreams(unread);
      RemoveEventListenerFromMap(ch, events);
      SameKeys();
      var r;
      r, names := SendSetEvents(connected);
      ok := r.ok;
    }

    lemma SameKeys()
      ensures Contents().Keys == eventListeners.Keys && |Contents()| == |eventListeners|
    {
      assert Contents().Keys == eventListeners.Keys;
      assert |Contents()| == |Contents().Keys|;
    }
  }

  method Without(a: array<Channel>, index: nat) returns (c: array<Channel>)
    requires index < a.Length
    ensures fresh(c) && c[..] == a[..][..index] + a[..][index + 1..]
  {
    c := new Channel[a.Length - 1](k requires 0 <= k < a.Length - 1 reads a => if k < index then a[k] else a[k + 1]);
  }

  method Append(a: array<Channel>, b: array<Channel>) returns (c: array<Channel>)
    ensures fresh(c) && c[..] == a[..] + b[..]
  {
    c := new Channel[a.Length + b.Length](k requires 0 <= k < a.Length + b.Length reads a, b =>
      if k < a.Length then a[k] else b[k - a.Length]);
  }

  ghost function AwaitAfter(p: Parse, rest: seq<string>, events: seq<Response>): (Parse, seq<string>, seq<Response>) {
    if p.Done? && p.response.IsAsync() then
      var (q, rest', more) := Await(rest);
      (q, rest', events + [p.response] + more)
    else (p, rest, events)
  }

  lemma AwaitStep(lines: seq<string>)
    ensures Await(lines) == AwaitAfter(Run(Start, lines).0, Run(Start, lines).1, [])
  {
    hide Run;
    var (p, rest) := Run(Start, lines);
    if p.Done? && p.response.IsAsync() {
      var after := Await(rest);
      assert Await(lines) == (after.0, after.1, [p.response] + after.2);
      hide Await;
      NoEventsBefore(p.response, after.2);
    }
  }

  lemma NoEventsBefore(r: Response, more: seq<Response>)
    ensures [] + [r] + more == [r] + more
  {
  }

  lemma MoreEvents(p: Parse, rest: seq<string>, events: seq<Response>)
    requires p.Done? && p.response.IsAsync()
    ensures var (q, rest') := Run(Start, rest);
            AwaitAfter(p, rest, events) == AwaitAfter(q, rest', events + [p.response])
  {
    hide Run, Await;
    AwaitStep(rest);
    var (q, rest') := Run(Start, rest);
    if q.Done? && q.response.IsAsync() {
      var more := Await(rest').2;
      assert events + [p.response] + ([] + [q.response] + more) == events + [p.response] + [q.response] + more;
    } else {
      assert events + [p.response] + [] == events + [p.response];
    }
  }

  lemma AwaitEnds(p: Parse, rest: seq<string>, events: seq<Response>)
    ensures !(p.Done? && p.response.IsAsync()) ==> AwaitAfter(p, rest, events) == (p, rest, events)
  {
  }

  lemma RunShorter(lines: seq<string>)
    ensures var (p, rest) := Run(Start, lines);
            !p.Pending() && |rest| <= |lines| && (p.Done? ==> |rest| < |lines|)
  {
  }

  lemma {:induction false} WithoutFirstAt(s: seq<Channel>, ch: Channel, index: nat)
    requires index < |s| && s[index] == ch && forall k :: 0 <= k < index ==> s[k] != ch
    ensures WithoutFirst(s, ch) == s[..index] + s[index + 1..]
  {
    if index > 0 {
      WithoutFirstAt(s[1..], ch, index - 1);
      assert s[..index] == [s[0]] + s[1..][..index - 1] && s[1..][index..] == s[index + 1..];
    }
  }

  lemma FeedBodyLine(code: int, data: seq<string>, head: string, text: string, lines: seq<string>)
    ensures lines == [] ==> Run(InBody(code, data, head, text), lines) == (Failed(EndOfStream), [])
    ensures lines != [] && lines[0] == "." ==>
              Run(InBody(code, data, head, text), lines)
                == Run(Mid(code, data + [head + "\r\n" + TrimRight(text)]), lines[1..])
    ensures lines != [] && lines[0] != "." ==>
              Run(InBody(code, data, head, text), lines)
              == Run(InBody(code, data, head, text + Unstuffed(lines[0]) + "\n"), lines[1..])
  {
    hide TrimRight, Unstuffed;
  }

  /** What Feed does with a line outside a body. */
  lemma HeadLine(p: Parse, line: string)
    requires p.Start? || p.Mid?
    ensures var code := if |line| < 4 then None else StatusCode(line[..3]);
            Feed(p, line) ==
            if |line| < 4 then Failed(Truncated)
            else if code == None then Failed(InvalidStatusCode)
            else if p.Mid? && p.code != code.value then Failed(StatusCodeChanged)
            else if line[3] == ' ' then Done(Response(code.value, line[4..], DataOf(p)))
            else if line[3] == '-' then Mid(code.value, DataOf(p) + [line[4..]])
            else if line[3] == '+' then InBody(code.value, DataOf(p), line[4..], "")
            else Failed(InvalidSeparator)
  {
  }

  lemma RunOneLine(p: Parse, lines: seq<string>)
    requires p.Pending()
    ensures Run(p, lines) == if lines == [] then (Failed(EndOfStream), []) else Run(Feed(p, lines[0]), lines[1..])
  {
    hide Feed;
  }

  lemma EndOfRun(p: Parse, lines: seq<string>)
    ensures !p.Pending() ==> Run(p, lines) == (p, lines)
  {
  }

  // ----- requests and event readers on printed replies

  ghost function Meanings(replies: seq<Reply>): seq<Response> {
    if replies == [] then [] else [Meaning(replies[0])] + Meanings(replies[1..])
  }

  /** A request gets the first synchronous reply, after the events before it, and leaves the rest unread. */
  lemma {:induction false} AwaitPrinted(events: seq<Reply>, r: Reply, rest: seq<string>)
    requires Interleavings.AllWellFormed(events) && WellFormed(r) && r.code != 650
    requires forall i :: 0 <= i < |events| ==> events[i].code == 650
    ensures Await(Interleavings.Lines(events) + (Print(r) + rest)) == (Done(Meaning(r)), rest, Meanings(events))
  {
    hide Run, Print, PartTexts;
    if events == [] {
      assert [] + (Print(r) + rest) == Print(r) + rest;
      ReadPrinted(r, rest);
    } else {
      var after := Interleavings.Lines(events[1..]) + (Print(r) + rest);
      assert Interleavings.Lines(events) + (Print(r) + rest) == Print(events[0]) + after;
      ReadPrinted(events[0], after);
      AwaitPrinted(events[1..], r, rest);
    }
  }

  lemma {:induction false} RequestFails(lines: seq<string>, events: seq<Reply>, tail: seq<string>)
    requires IsBrokenStream(lines, events, tail)
    ensures Await(lines) == (Run(Start, tail).0, Run(Start, tail).1, Meanings(events))
    ensures OutcomeOf(Run(Start, tail).0) == Outcome(None, false)
    decreases events
  {
    hide Run, Print, PartTexts;
    if events == [] {
      assert lines == tail;
    } else {
      var after := Interleavings.Lines(events[1..]) + tail;
      assert lines == Print(events[0]) + after;
      ReadPrinted(events[0], after);
      RequestFails(after, events[1..], tail);
    }
  }

  lemma RequestPrinted(lines: seq<string>, events: seq<Reply>, r: Reply, rest: seq<string>)
    requires IsStream(lines, events, r, rest)
    ensures Await(lines) == (Done(Meaning(r)), rest, Meanings(events))
    ensures OutcomeOf(Done(Meaning(r))) == Outcome(Some(Meaning(r)), r.code == 250 || r.code == 251)
  {
    hide Await, Print, PartTexts;
    AwaitPrinted(events, r, rest);
  }

  /** A request succeeds on the codes 250 and 251 alone. */
  lemma OkOnStreams(lines: seq<string>)
    ensures forall events, reply, rest :: IsStream(lines, events, reply, rest) ==>
              (OutcomeOf(Await(lines).0).ok <==> reply.code == 250 || reply.code == 251)
  {
    hide Await, OutcomeOf, IsStream;
    forall events, reply, rest | IsStream(lines, events, reply, rest)
      ensures OutcomeOf(Await(lines).0).ok <==> reply.code == 250 || reply.code == 251
    {
      RequestPrinted(lines, events, reply, rest);
    }
  }

  /** A reply that lists entries reads back as the entries that it lists. */
  lemma ListIsRead(r: Reply, entries: seq<KeyVal>, read: Option<seq<KeyVal>>)
    requires Lists(r, entries) && IsReading(DataWithReply(Meaning(r)), read)
    ensures read.Some? && |read.value| == |entries|
    ensures forall i :: 0 <= i < |entries| ==> SameEntry(read.value[i], entries[i])
  {
    hide EntryText, ReadEntry, SameEntry;
    TextsOfParts(r.parts);
    var data := DataWithReply(Meaning(r));
    forall i | 0 <= i < |entries| ensures data[i] == EntryText(entries[i]) && ReadsAs(data[i], entries[i]) {
      ReadsAsWritten(entries[i]);
    }
  }

  /** An event reader takes a printed event whole, and leaves any other reply alone. */
  lemma HandlePrinted(r: Reply, rest: seq<string>)
    requires WellFormed(r)
    ensures Print(r) + rest != [] && |(Print(r) + rest)[0]| >= 3
    ensures Atoi((Print(r) + rest)[0][..3]) == Some(r.code)
    ensures Run(Start, Print(r) + rest) == (Done(Meaning(r)), rest)
  {
    ReadPrinted(r, rest);
    Interleavings.FirstLine(r);
    hide Print, Run, CodeText, Atoi;
    StatusCodeIsText(CodeText(r.code), r.code);
  }
}
