/** Which event a 650 reply is relayed as, and to whom. */
module Events {
  import opened Options
  import opened QuotedStrings
  import opened Replies
  import opened Listeners

  /** An event code with its data before parsing: one text, or the lines after the first. */
  datatype Event = Event(code: string, data: string, dataArray: seq<string>)

  const UNRECOGNIZED: string := "<unrecognized>"

  /** The position of the first line end in s, or -1. */
  function IndexLineEnd(s: string): (i: int)
    ensures i == -1 || (0 <= i < |s| - 1 && s[i] == '\r' && s[i + 1] == '\n')
    ensures forall j :: 0 <= j < |s| - 1 && (j < i || i == -1) ==> !(s[j] == '\r' && s[j + 1] == '\n')
  {
    if |s| < 2 then -1
    else if s[0] == '\r' && s[1] == '\n' then 0
    else
      var i := IndexLineEnd(s[1..]);
      assert forall j :: 0 < j < |s| - 1 ==> s[j] == s[1..][j - 1] && s[j + 1] == s[1..][j];
      if i == -1 then -1 else i + 1
  }

  function RelayedEvent(r: Response): Event {
    if |r.data| == 1 then
      var text := r.data[0];
      var space, end := IndexByte(text, ' '), IndexLineEnd(text);
      if space != -1 then Event(text[..space], text[space + 1..], [])
      else if end != -1 then Event(text[..end], text[end + 2..], [])
      else Event(text, "", [])
    else if |r.data| > 0 then Event(r.data[0], "", r.data[1..])
    else
      var (code, data, _) := PartitionString(r.reply, ' ');
      Event(code, data, [])
  }

  /** An event on a single line is split at its first space. */
  lemma LineEvent(r: Response, code: string, data: string)
    requires r.data == [] && ' ' !in code
    ensures r.reply == code + " " + data ==> RelayedEvent(r) == Event(code, data, [])
    ensures r.reply == code ==> RelayedEvent(r) == Event(code, "", [])
  {
    hide PartitionString, IndexByte, IndexLineEnd;
    PartitionIsUnique(r.reply, ' ', code, data);
    assert code + " " + data == code + [' '] + data;
  }

  /** An event with a dot-encoded body is relayed under the first word of its head line exactly when that line has
      a space or the body has none: without arguments, a space in the body is taken for the end of the code. */
  lemma BodyEvent(r: Response, code: string, arguments: string, body: string)
    requires ' ' !in code && '\r' !in code && (arguments == "" || arguments[0] == ' ')
    requires r.data == [code + arguments + "\r\n" + body]
    ensures RelayedEvent(r).code == code <==> arguments != "" || ' ' !in body
    ensures arguments == "" && ' ' !in body ==> RelayedEvent(r).data == body
    ensures arguments != "" ==> RelayedEvent(r).data == arguments[1..] + "\r\n" + body
  {
    var text := code + arguments + "\r\n" + body;
    var space, end := IndexByte(text, ' '), IndexLineEnd(text);
    assert forall i :: 0 <= i < |code| ==> text[i] == code[i];
    if arguments != "" {
      assert text == code + [' '] + (arguments[1..] + "\r\n" + body);
      PartitionIsUnique(text, ' ', code, arguments[1..] + "\r\n" + body);
    } else {
      assert text == code + "\r\n" + body;
      assert text[|code|] == '\r' && text[|code| + 1] == '\n' && text[|code| + 2..] == body;
      if ' ' in body {
        assert ' ' in text[|code| + 2..];
        assert space > |code|;
      } else {
        assert ' ' !in text;
        assert end == |code|;
        assert text[..end] == code;
      }
    }
  }

  /** So a consensus event, whose head line is a bare code, is relayed under a code that no listener asks for. */
  lemma ConsensusEvent()
    ensures var r := Response(650, "OK", ["NS\r\nr moria1"]);
            RelayedEvent(r).code == "NS\r\nr" && RelayedEvent(r).data == "moria1"
  {
    var code, data := "NS\r\nr", "moria1";
    assert "NS\r\nr moria1" == code + [' '] + data;
    assert ' ' !in code;
    SpaceEvent(Response(650, "OK", ["NS\r\nr moria1"]), code, data);
  }

  /** In a single part with a space, what comes before the first space is the code. */
  lemma SpaceEvent(r: Response, code: string, data: string)
    requires r.data == [code + [' '] + data] && ' ' !in code
    ensures RelayedEvent(r) == Event(code, data, [])
  {
    var text := code + [' '] + data;
    PartitionIsUnique(text, ' ', code, data);
    assert text[..IndexByte(text, ' ')] == code && text[IndexByte(text, ' ') + 1..] == data;
    hide IndexLineEnd, IndexByte;
  }

  // ----- the event of a printed reply

  /** What a reply with at least two parts is relayed as: the text of the first is the code, and those of the others are
      the data. */
  lemma LinesEvent(r: Reply)
    requires |r.parts| >= 2
    ensures var event := RelayedEvent(Meaning(r));
            && event.data == "" && |event.dataArray| == |r.parts| - 1
            && forall i :: 0 <= i < |r.parts| ==>
                 var text := if i == 0 then event.code else event.dataArray[i - 1];
                 && (r.parts[i].Line? ==> text == r.parts[i].text)
                 && (r.parts[i].Body? ==> text == r.parts[i].text + "\r\n" + TrimRight(BodyText(r.parts[i].lines)))
  {
    hide PartTexts, TrimRight, BodyText;
    TextsOfParts(r.parts);
  }

  /** What a reply with one line or none before the closing one is relayed as: that line, or the closing one, is split
      at its first space. */
  lemma WordsEvent(r: Reply, line: string, code: string, data: string)
    requires r.parts == [Line(line)] || (r.parts == [] && r.last == line)
    requires ' ' !in code && '\r' !in code
    ensures line == code + " " + data ==> RelayedEvent(Meaning(r)) == Event(code, data, [])
    ensures line == code ==> RelayedEvent(Meaning(r)) == Event(code, "", [])
  {
    hide PartTexts, PartitionString, IndexByte, IndexLineEnd;
    TextsOfParts(r.parts);
    assert code + " " + data == code + [' '] + data;
    if r.parts == [] {
      LineEvent(Meaning(r), code, data);
    } else if line == code + " " + data {
      SpaceEvent(Meaning(r), code, data);
    } else if line == code {
      BareEvent(Meaning(r), code);
    }
  }

  lemma BareEvent(r: Response, code: string)
    requires r.data == [code] && ' ' !in code && '\r' !in code
    ensures RelayedEvent(r) == Event(code, "", [])
  {
  }

  /** What a reply with a body is relayed as, if no blank line or line end closes the body. */
  lemma BodyReplyEvent(r: Reply, code: string, arguments: string, lines: seq<string>)
    requires ' ' !in code && '\r' !in code && (arguments == "" || arguments[0] == ' ')
    requires !EndsBlank(JoinLines(lines))
    requires r.parts == [Body(code + arguments, StuffedLines(lines))]
    ensures var event := RelayedEvent(Meaning(r));
            && (event.code == code <==> arguments != "" || ' ' !in JoinLines(lines))
            && (arguments == "" && ' ' !in JoinLines(lines) ==> event.data == JoinLines(lines))
            && (arguments != "" ==> event.data == arguments[1..] + "\r\n" + JoinLines(lines))
  {
    hide PartTexts, RelayedEvent, TrimRight, JoinLines, BodyText;
    TextsOfParts(r.parts);
    BodyRoundTrip(lines);
    BodyEvent(Meaning(r), code, arguments, JoinLines(lines));
  }

  // ----- recipients

  /** The listeners of an event, in order; those of unrecognized events follow when its code is not a known one. */
  function Recipients(t: Table, recognized: set<string>, code: string): seq<Channel> {
    ListenersOf(t, code) + if code in recognized then [] else ListenersOf(t, UNRECOGNIZED)
  }

  /** What relaying a response sends. */
  ghost function Deliveries(t: Table, recognized: set<string>, r: Response): (d: seq<(Channel, Event)>)
    ensures |d| == |Recipients(t, recognized, RelayedEvent(r).code)|
  {
    var event := RelayedEvent(r);
    var chans := Recipients(t, recognized, event.code);
    seq(|chans|, i requires 0 <= i < |chans| => (chans[i], event))
  }

  /** Who gets an event, by the table: the listeners of its code in order, and behind them those of unrecognized events
      if and only if the code is not a known one. */
  lemma DeliveredTo(t: Table, recognized: set<string>, r: Response)
    ensures var event := RelayedEvent(r);
            var own := if event.code in t then t[event.code] else [];
            var others := if event.code !in recognized && "<unrecognized>" in t then t["<unrecognized>"] else [];
            var d := Deliveries(t, recognized, r);
            && |d| == |own| + |others|
            && (forall i :: 0 <= i < |own| ==> d[i] == (own[i], event))
            && (forall i :: 0 <= i < |others| ==> d[|own| + i] == (others[i], event))
  {
    hide RelayedEvent;
  }

  ghost function AllDeliveries(t: Table, recognized: set<string>, rs: seq<Response>): seq<(Channel, Event)> {
    if rs == [] then []
    else AllDeliveries(t, recognized, rs[..|rs| - 1]) + Deliveries(t, recognized, rs[|rs| - 1])
  }

  lemma NoDeliveries(t: Table, recognized: set<string>)
    ensures AllDeliveries(t, recognized, []) == []
  {
  }

  lemma MoreDeliveries(t: Table, recognized: set<string>, events: seq<Response>, r: Response)
    ensures AllDeliveries(t, recognized, events + [r])
            == AllDeliveries(t, recognized, events) + Deliveries(t, recognized, r)
  {
    hide Deliveries;
    assert (events + [r])[..|events|] == events;
  }

  /** Every response is relayed once, and in the order in which the responses came. */
  lemma {:induction false} DeliveredInOrder(t: Table, recognized: set<string>, earlier: seq<Response>, r: Response,
                                            later: seq<Response>)
    ensures AllDeliveries(t, recognized, []) == []
    ensures AllDeliveries(t, recognized, earlier + [r] + later)
         == AllDeliveries(t, recognized, earlier) + Deliveries(t, recognized, r) + AllDeliveries(t, recognized, later)
    decreases |later|
  {
    hide AllDeliveries, Deliveries;
    NoDeliveries(t, recognized);
    MoreDeliveries(t, recognized, earlier, r);
    if later == [] {
      assert earlier + [r] + later == earlier + [r];
    } else {
      var before, last := later[..|later| - 1], later[|later| - 1];
      DeliveredInOrder(t, recognized, earlier, r, before);
      MoreDeliveries(t, recognized, earlier + [r] + before, last);
      MoreDeliveries(t, recognized, before, last);
      assert before + [last] == later;
      assert earlier + [r] + before + [last] == earlier + [r] + later;
    }
  }
}
