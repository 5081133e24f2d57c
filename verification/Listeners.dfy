/** The listener table of a control connection as a value: which channels listen to which event, in order. */
module Listeners {
  import opened Formats

  /** The identity of a Go channel. */
  type Channel = nat

  type Table = map<string, seq<Channel>>

  function ListenersOf(t: Table, event: string): seq<Channel> {
    if event in t then t[event] else []
  }

  /** How often a channel is listed for an event. */
  ghost function Multiplicity(t: Table, event: string, ch: Channel): nat {
    multiset(ListenersOf(t, event))[ch]
  }

  ghost predicate NoEmptyLists(t: Table) {
    forall event :: event in t ==> t[event] != []
  }

  /** Adding a channel for the events in turn. */
  ghost function AddAll(t: Table, ch: Channel, events: seq<string>): Table {
    if events == [] then t
    else
      var t', event := AddAll(t, ch, events[..|events| - 1]), events[|events| - 1];
      t'[event := ListenersOf(t', event) + [ch]]
  }

  /** A list without the first occurrence of a channel. */
  function WithoutFirst(s: seq<Channel>, ch: Channel): seq<Channel> {
    if s == [] then [] else if s[0] == ch then s[1..] else [s[0]] + WithoutFirst(s[1..], ch)
  }

  /** Setting the listeners of an event; an event without listeners has no entry. */
  function WithListeners(t: Table, event: string, s: seq<Channel>): Table {
    if s == [] then t - {event} else t[event := s]
  }

  ghost function RemoveOne(t: Table, ch: Channel, event: string): Table {
    if ch in ListenersOf(t, event) then WithListeners(t, event, WithoutFirst(ListenersOf(t, event), ch)) else t
  }

  ghost function RemoveAll(t: Table, ch: Channel, events: seq<string>): Table {
    if events == [] then t
    else RemoveOne(RemoveAll(t, ch, events[..|events| - 1]), ch, events[|events| - 1])
  }

  // ----- multiplicities

  ghost function Count(events: seq<string>, event: string): nat {
    multiset(events)[event]
  }

  lemma CountLast(events: seq<string>, event: string)
    requires events != []
    ensures Count(events, event)
            == Count(events[..|events| - 1], event) + if events[|events| - 1] == event then 1 else 0
  {
    assert events == events[..|events| - 1] + [events[|events| - 1]];
  }

  ghost function Repeated(ch: Channel, n: nat): seq<Channel> {
    seq(n, _ => ch)
  }

  /** Adding appends the channel once for every mention of an event, and leaves other events alone. */
  lemma {:induction false} Added(t: Table, ch: Channel, events: seq<string>, event: string)
    ensures ListenersOf(AddAll(t, ch, events), event) == ListenersOf(t, event) + Repeated(ch, Count(events, event))
    ensures NoEmptyLists(t) ==> NoEmptyLists(AddAll(t, ch, events))
  {
    if events == [] {
    } else {
      Added(t, ch, events[..|events| - 1], event);
      CountLast(events, event);
    }
  }

  lemma {:induction false} CountRepeated(ch: Channel, n: nat, d: Channel)
    ensures multiset(Repeated(ch, n))[d] == if d == ch then n else 0
  {
    if n == 0 {
    } else {
      CountRepeated(ch, n - 1, d);
      assert Repeated(ch, n) == Repeated(ch, n - 1) + [ch];
    }
  }

  lemma AddedMultiplicity(t: Table, ch: Channel, events: seq<string>, event: string, d: Channel)
    ensures Multiplicity(AddAll(t, ch, events), event, d)
         == Multiplicity(t, event, d) + if d == ch then Count(events, event) else 0
  {
    Added(t, ch, events, event);
    CountRepeated(ch, Count(events, event), d);
  }

  lemma {:induction false} CountWithoutFirst(s: seq<Channel>, ch: Channel)
    ensures multiset(WithoutFirst(s, ch)) == multiset(s) - multiset{ch}
    ensures ch in s ==> |WithoutFirst(s, ch)| == |s| - 1
    ensures ch !in s ==> WithoutFirst(s, ch) == s
  {
    if s == [] {
    } else {
      assert s == [s[0]] + s[1..];
      CountWithoutFirst(s[1..], ch);
    }
  }

  lemma RemovedList(t: Table, ch: Channel, removed: string, event: string)
    ensures ListenersOf(RemoveOne(t, ch, removed), event)
         == if event == removed then WithoutFirst(ListenersOf(t, event), ch) else ListenersOf(t, event)
    ensures NoEmptyLists(t) ==> NoEmptyLists(RemoveOne(t, ch, removed))
  {
    CountWithoutFirst(ListenersOf(t, removed), ch);
    hide WithoutFirst;
  }

  lemma RemovedOne(t: Table, ch: Channel, removed: string, event: string, d: Channel)
    ensures Multiplicity(RemoveOne(t, ch, removed), event, d)
         == var m := Multiplicity(t, event, d);
            if d == ch && event == removed && m > 0 then m - 1 else m
    ensures NoEmptyLists(t) ==> NoEmptyLists(RemoveOne(t, ch, removed))
  {
    hide RemoveOne, ListenersOf, WithoutFirst, NoEmptyLists;
    RemovedList(t, ch, removed, event);
    CountWithoutFirst(ListenersOf(t, event), ch);
  }

  /** Removing takes away one occurrence for every mention of an event, as long as there are any. */
  lemma {:induction false} RemovedMultiplicity(t: Table, ch: Channel, events: seq<string>, event: string, d: Channel)
    ensures Multiplicity(RemoveAll(t, ch, events), event, d)
         == var m := Multiplicity(t, event, d);
            if d != ch then m else if m < Count(events, event) then 0 else m - Count(events, event)
    ensures NoEmptyLists(t) ==> NoEmptyLists(RemoveAll(t, ch, events))
  {
    if events == [] {
    } else {
      hide Multiplicity, Count, RemoveOne, NoEmptyLists;
      RemovedMultiplicity(t, ch, events[..|events| - 1], event, d);
      CountLast(events, event);
      RemovedOne(RemoveAll(t, ch, events[..|events| - 1]), ch, events[|events| - 1], event, d);
    }
  }

  /** A failed add, which is taken back at once, changes no multiplicity. */
  lemma FailedAdd(t: Table, ch: Channel, events: seq<string>, event: string, d: Channel)
    ensures Multiplicity(RemoveAll(AddAll(t, ch, events), ch, events), event, d) == Multiplicity(t, event, d)
  {
    AddedMultiplicity(t, ch, events, event, d);
    RemovedMultiplicity(AddAll(t, ch, events), ch, events, event, d);
  }

  // ----- the order of the listeners after a failed add

  /** A list without its first n occurrences of a channel. */
  ghost function WithoutMany(s: seq<Channel>, ch: Channel, n: nat): seq<Channel>
    decreases n
  {
    if n == 0 then s else WithoutMany(WithoutFirst(s, ch), ch, n - 1)
  }

  lemma {:induction false} OneMore(s: seq<Channel>, ch: Channel, n: nat)
    ensures WithoutFirst(WithoutMany(s, ch, n), ch) == WithoutMany(s, ch, n + 1)
    decreases n
  {
    if n > 0 {
      OneMore(WithoutFirst(s, ch), ch, n - 1);
    }
  }

  /** Removing takes away the first occurrence for every mention of an event. */
  lemma {:induction false} Removed(t: Table, ch: Channel, events: seq<string>, event: string)
    ensures ListenersOf(RemoveAll(t, ch, events), event) == WithoutMany(ListenersOf(t, event), ch, Count(events, event))
  {
    hide WithoutFirst, RemoveOne, Count, ListenersOf;
    if events == [] {
      assert Count(events, event) == 0 by { CountNone(event); }
    } else {
      var before := events[..|events| - 1];
      hide WithoutMany;
      Removed(t, ch, before, event);
      CountLast(events, event);
      RemovedList(RemoveAll(t, ch, before), ch, events[|events| - 1], event);
      OneMore(ListenersOf(t, event), ch, Count(before, event));
    }
  }

  lemma CountNone(event: string)
    ensures Count([], event) == 0
  {
  }

  lemma {:induction false} PassOver(x: Channel, s: seq<Channel>, ch: Channel, n: nat)
    requires x != ch
    ensures WithoutMany([x] + s, ch, n) == [x] + WithoutMany(s, ch, n)
    decreases n
  {
    if n > 0 {
      assert WithoutFirst([x] + s, ch) == [x] + WithoutFirst(s, ch) by {
        assert ([x] + s)[1..] == s;
      }
      PassOver(x, WithoutFirst(s, ch), ch, n - 1);
    }
  }

  /** How many occurrences of a channel open a list. */
  ghost function Leading(s: seq<Channel>, ch: Channel): nat {
    if s == [] || s[0] != ch then 0 else 1 + Leading(s[1..], ch)
  }

  ghost predicate HasOther(s: seq<Channel>, ch: Channel) {
    exists i :: 0 <= i < |s| && s[i] != ch
  }

  lemma {:induction false} LeadingShrinks(s: seq<Channel>, ch: Channel, n: nat)
    requires HasOther(s, ch)
    ensures Leading(WithoutMany(s, ch, n), ch) <= Leading(s, ch)
    decreases n
  {
    if n > 0 {
      var i :| 0 <= i < |s| && s[i] != ch;
      var w := WithoutFirst(s, ch);
      if s[0] == ch {
        assert w[i - 1] != ch;
      } else {
        assert w[0] != ch;
      }
      LeadingShrinks(w, ch, n - 1);
    }
  }

  lemma {:induction false} LeadingOfSum(s: seq<Channel>, r: seq<Channel>, ch: Channel)
    requires HasOther(s, ch)
    ensures HasOther(s + r, ch) && Leading(s + r, ch) == Leading(s, ch)
  {
    var i :| 0 <= i < |s| && s[i] != ch;
    assert (s + r)[i] != ch;
    if s[0] == ch {
      assert s[1..][i - 1] != ch;
      assert (s + r)[1..] == s[1..] + r;
      LeadingOfSum(s[1..], r, ch);
    }
  }

  lemma {:induction false} WithoutManyRepeated(ch: Channel, k: nat, n: nat)
    ensures WithoutMany(Repeated(ch, k + n), ch, n) == Repeated(ch, k)
  {
    if n > 0 {
      assert Repeated(ch, k + n)[1..] == Repeated(ch, k + n - 1);
      WithoutManyRepeated(ch, k, n - 1);
    }
  }

  /** Nothing but the channel follows its first occurrence. */
  ghost predicate OnlyFollowsItself(s: seq<Channel>, ch: Channel) {
    forall i, j :: 0 <= i < j < |s| && s[i] == ch ==> s[j] == ch
  }

  /** Appending a channel n times and then removing its first n occurrences. */
  lemma {:induction false} AppendedAndRemoved(s: seq<Channel>, ch: Channel, n: nat)
    requires n > 0
    ensures WithoutMany(s + Repeated(ch, n), ch, n) == s <==> OnlyFollowsItself(s, ch)
  {
    var r := Repeated(ch, n);
    if !HasOther(s, ch) {
      assert s == Repeated(ch, |s|) && s + r == Repeated(ch, |s| + n);
      WithoutManyRepeated(ch, |s|, n);
    } else if s[0] != ch {
      var rest := s[1..];
      assert s == [s[0]] + rest && s + r == [s[0]] + (rest + r);
      PassOver(s[0], rest + r, ch, n);
      AppendedAndRemoved(rest, ch, n);
      OnlyFollowsLater(s, ch);
    } else {
      var i :| 0 <= i < |s| && s[i] != ch;
      assert s[1..][i - 1] != ch;
      assert (s + r)[1..] == s[1..] + r;
      LeadingOfSum(s[1..], r, ch);
      LeadingShrinks(s[1..] + r, ch, n - 1);
    }
  }

  lemma OnlyFollowsLater(s: seq<Channel>, ch: Channel)
    requires s != [] && s[0] != ch
    ensures OnlyFollowsItself(s, ch) <==> OnlyFollowsItself(s[1..], ch)
  {
    assert forall i :: 0 < i < |s| ==> s[i] == s[1..][i - 1];
    assert forall i :: 0 <= i < |s| - 1 ==> s[1..][i] == s[i + 1];
  }

  /** A failed add may change the order in which channels are served, since the first occurrences go and the added ones
      stay. The table is as it was exactly when, for every event of the call, nothing but the channel follows its first
      occurrence. */
  lemma FailedAddOrder(t: Table, ch: Channel, events: seq<string>)
    requires NoEmptyLists(t)
    ensures RemoveAll(AddAll(t, ch, events), ch, events) == t
            <==> forall event :: event in events ==> OnlyFollowsItself(ListenersOf(t, event), ch)
  {
    var t' := RemoveAll(AddAll(t, ch, events), ch, events);
    forall event ensures event in events || ListenersOf(t', event) == ListenersOf(t, event)
      ensures event in events ==> (ListenersOf(t', event) == ListenersOf(t, event)
                                   <==> OnlyFollowsItself(ListenersOf(t, event), ch))
    {
      FailedAddList(t, ch, events, event);
    }
    Added(t, ch, events, "");
    RemovedMultiplicity(AddAll(t, ch, events), ch, events, "", 0);
    SameTable(t, t');
  }

  lemma FailedAddList(t: Table, ch: Channel, events: seq<string>, event: string)
    ensures ListenersOf(RemoveAll(AddAll(t, ch, events), ch, events), event) == ListenersOf(t, event)
            <==> (event in events ==> OnlyFollowsItself(ListenersOf(t, event), ch))
  {
    Added(t, ch, events, event);
    Removed(AddAll(t, ch, events), ch, events, event);
    var s, n := ListenersOf(t, event), Count(events, event);
    if event in events {
      AppendedAndRemoved(s, ch, n);
    } else {
      assert s + Repeated(ch, n) == s;
    }
  }

  /** Without empty lists, tables with the same lists are the same. */
  lemma SameTable(t: Table, t': Table)
    requires NoEmptyLists(t) && NoEmptyLists(t')
    ensures t == t' <==> forall event :: ListenersOf(t', event) == ListenersOf(t, event)
  {
    if forall event :: ListenersOf(t', event) == ListenersOf(t, event) {
      forall event ensures event in t <==> event in t' {
        assert ListenersOf(t', event) == ListenersOf(t, event);
      }
      forall event | event in t ensures t[event] == t'[event] {
        assert ListenersOf(t', event) == ListenersOf(t, event);
      }
    }
  }

  /** Channel 1, which was served before channel 2, is served after it. */
  lemma FailedAddReorders()
    ensures var t := map["A" := [1, 2]];
            RemoveAll(AddAll(t, 1, ["A"]), 1, ["A"]) == map["A" := [2, 1]]
  {
    var t := map["A" := [1, 2]];
    OneEvent(t, 1, "A");
    assert ListenersOf(t, "A") + [1] == [1, 2, 1];
    var added := AddAll(t, 1, ["A"]);
    assert added == map["A" := [1, 2, 1]] && ListenersOf(added, "A") == [1, 2, 1];
    OneEvent(added, 1, "A");
    assert [1, 2, 1][1..] == [2, 1] && WithoutFirst([1, 2, 1], 1) == [2, 1];
    assert RemoveOne(added, 1, "A") == map["A" := [2, 1]];
  }

  lemma OneEvent(t: Table, ch: Channel, event: string)
    ensures AddAll(t, ch, [event]) == t[event := ListenersOf(t, event) + [ch]]
    ensures RemoveAll(t, ch, [event]) == RemoveOne(t, ch, event)
  {
    assert [event][..0] == [];
  }

  // ----- whole runs

  datatype TableOp = Adding(ch: Channel, events: seq<string>) | Removing(ch: Channel, events: seq<string>)

  ghost function Apply(t: Table, op: TableOp): Table {
    if op.Adding? then AddAll(t, op.ch, op.events) else RemoveAll(t, op.ch, op.events)
  }

  /** The table after operations in any order, among them those of calls that overlap. */
  ghost function After(ops: seq<TableOp>): Table {
    if ops == [] then map[] else Apply(After(ops[..|ops| - 1]), ops[|ops| - 1])
  }

  /** What was added, and what removals actually took away. */
  ghost function TotalAdded(ops: seq<TableOp>, event: string, ch: Channel): nat {
    if ops == [] then 0
    else
      var op := ops[|ops| - 1];
      TotalAdded(ops[..|ops| - 1], event, ch) + if op.Adding? && op.ch == ch then Count(op.events, event) else 0
  }

  ghost function TotalRemoved(ops: seq<TableOp>, event: string, ch: Channel): (n: nat)
    ensures n <= TotalAdded(ops, event, ch)
  {
    if ops == [] then 0
    else
      var op, before := ops[|ops| - 1], ops[..|ops| - 1];
      var removed := TotalRemoved(before, event, ch);
      var listed := TotalAdded(before, event, ch) - removed;
      if op.Adding? || op.ch != ch then removed
      else removed + if Count(op.events, event) < listed then Count(op.events, event) else listed
  }

  /** Over every run a channel is listed as often as it was added, less its effective removals, and no list is empty. */
  lemma {:induction false} AddsMinusRemoves(ops: seq<TableOp>)
    ensures forall event, ch ::
              Multiplicity(After(ops), event, ch) == TotalAdded(ops, event, ch) - TotalRemoved(ops, event, ch)
    ensures NoEmptyLists(After(ops))
  {
    if ops == [] {
    } else {
      var op, t := ops[|ops| - 1], After(ops[..|ops| - 1]);
      AddsMinusRemoves(ops[..|ops| - 1]);
      hide AddAll, RemoveAll, Multiplicity;
      forall event, ch
        ensures Multiplicity(After(ops), event, ch) == TotalAdded(ops, event, ch) - TotalRemoved(ops, event, ch)
      {
        if op.Adding? {
          AddedMultiplicity(t, op.ch, op.events, event, ch);
        } else {
          RemovedMultiplicity(t, op.ch, op.events, event, ch);
        }
      }
      Added(t, op.ch, op.events, "");
      RemovedMultiplicity(t, op.ch, op.events, "", 0);
    }
  }

  // ----- SETEVENTS

  ghost function Command(names: seq<string>): string {
    if names == [] then "SETEVENTS" else Command(names[..|names| - 1]) + " " + names[|names| - 1]
  }

  /** A line split at its spaces. */
  ghost function Words(s: string): seq<string> {
    if s == "" then [""]
    else
      var w := Words(s[..|s| - 1]);
      if s[|s| - 1] == ' ' then w + [""]
      else if w == [] then [[s[|s| - 1]]]
      else w[|w| - 1 := w[|w| - 1] + [s[|s| - 1]]]
  }

  lemma {:induction false} WordsExtended(s: string, name: string)
    requires ' ' !in name
    ensures Words(s + " " + name) == Words(s) + [name]
  {
    if name == "" {
      assert (s + " " + name)[..|s + " " + name| - 1] == s;
    } else {
      var n := |name| - 1;
      WordsExtended(s, name[..n]);
      assert (s + " " + name)[..|s + " " + name| - 1] == s + " " + name[..n];
      assert name[..n] + [name[n]] == name;
    }
  }

  lemma {:induction false} OneWord(s: string)
    requires ' ' !in s
    ensures Words(s) == [s]
  {
    if s == "" {
    } else {
      OneWord(s[..|s| - 1]);
      assert s == s[..|s| - 1] + [s[|s| - 1]];
    }
  }

  /** The words of a SETEVENTS line are the command and the names, if these hold no spaces. */
  lemma {:induction false} CommandNames(names: seq<string>)
    requires forall i :: 0 <= i < |names| ==> ' ' !in names[i]
    ensures Words(Command(names)) == ["SETEVENTS"] + names
  {
    if names == [] {
      OneWord("SETEVENTS");
    } else {
      CommandNames(names[..|names| - 1]);
      WordsExtended(Command(names[..|names| - 1]), names[|names| - 1]);
    }
  }

  lemma {:induction false} JoinedWords(s: string)
    ensures Words(s) != [] && Joined(Words(s)) == s
    ensures forall i :: 0 <= i < |Words(s)| ==> ' ' !in Words(s)[i]
  {
    if s != "" {
      var n := |s| - 1;
      var w := Words(s[..n]);
      JoinedWords(s[..n]);
      assert s == s[..n] + [s[n]];
      hide Joined;
      if s[n] == ' ' {
        JoinedLast(w, "");
        assert s[..n] + " " + "" == s;
      } else {
        LongerWord(w, s[n]);
      }
    }
  }

  lemma {:induction false} LongerWord(w: seq<string>, c: char)
    requires w != []
    ensures Joined(w[|w| - 1 := w[|w| - 1] + [c]]) == Joined(w) + [c]
  {
    var w' := w[|w| - 1 := w[|w| - 1] + [c]];
    if |w| > 1 {
      LongerWord(w[1..], c);
      assert w'[1..] == w[1..][|w| - 2 := w[|w| - 1] + [c]];
    }
  }

  lemma {:induction false} JoinedNames(names: seq<string>)
    ensures Joined(["SETEVENTS"] + names) == Command(names)
  {
    if names != [] {
      var n := |names| - 1;
      JoinedNames(names[..n]);
      JoinedLast(["SETEVENTS"] + names[..n], names[n]);
      assert ["SETEVENTS"] + names[..n] + [names[n]] == ["SETEVENTS"] + names;
    }
  }

  lemma {:induction false} InCommand(names: seq<string>, c: char)
    requires c != ' ' && c !in "SETEVENTS"
    ensures c in Command(names) <==> exists i :: 0 <= i < |names| && c in names[i]
  {
    if names != [] {
      InCommand(names[..|names| - 1], c);
    }
  }

  /** A name that the SETEVENTS line can carry. */
  predicate CanBeNamed(name: string) {
    ' ' !in name && '%' !in name && IsLine(name)
  }

  lemma CommandOfNames(names: seq<string>)
    ensures '%' !in Command(names) <==> forall i :: 0 <= i < |names| ==> '%' !in names[i]
    ensures IsLine(Command(names)) <==> forall i :: 0 <= i < |names| ==> IsLine(names[i])
  {
    hide Command;
    InCommand(names, '%');
    InCommand(names, '\r');
    InCommand(names, '\n');
  }

  lemma WordsAreNames(line: string, cmd: string, names: seq<string>)
    requires Words(line) == [cmd] + names
    ensures line == Joined([cmd] + names) && forall i :: 0 <= i < |names| ==> ' ' !in names[i]
  {
    hide Words, Joined;
    JoinedWords(line);
    assert forall i :: 0 <= i < |names| ==> names[i] == Words(line)[1 + i];
  }

  /** What a reader gets of a SETEVENTS line that goes out as a format are the names exactly when it can carry all. */
  lemma NamesReceived(names: seq<string>)
    ensures IsLine(Sprintf(Command(names))) && Words(Sprintf(Command(names))) == ["SETEVENTS"] + names
            <==> forall i :: 0 <= i < |names| ==> CanBeNamed(names[i])
  {
    hide Sprintf, Skeleton, Words, Command, IsLine, Joined;
    var sent := Sprintf(Command(names));
    FormatIsKept(Command(names));
    CommandOfNames(names);
    if forall i :: 0 <= i < |names| ==> CanBeNamed(names[i]) {
      CommandNames(names);
    }
    if IsLine(sent) && Words(sent) == ["SETEVENTS"] + names {
      WordsAreNames(sent, "SETEVENTS", names);
      JoinedNames(names);
    }
  }

  /** A percent sign at the end of an event code. */
  lemma PercentInName()
    ensures Sprintf(Command(["A%"])) == "SETEVENTS A%!(NOVERB)"
  {
    assert ["A%"][..0] == [];
    assert Command([]) == "SETEVENTS";
    assert Command(["A%"]) == "SETEVENTS" + " " + "A%" == "SETEVENTS A" + "%";
    hide Sprintf;
    TextThen("SETEVENTS A", "%");
    NoVerb();
    assert "SETEVENTS A" + "%!(NOVERB)" == "SETEVENTS A%!(NOVERB)";
  }
}
