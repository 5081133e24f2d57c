/** The replies of a Tor control port (section 2.3 of its control protocol) and how they are read from lines.

    A line comes without its line end, and the characters of a line stand for its bytes.
 */
module Replies {
  import opened Options

  datatype Response = Response(code: int, reply: string, data: seq<string>) {
    predicate IsOk() {
      code == 250 || code == 251 || code == 650
    }

    predicate IsAsync() {
      code == 650
    }
  }

  function DataWithReply(r: Response): seq<string> {
    r.data + [r.reply]
  }

  // ----- numbers

  predicate IsDigit(c: char) {
    '0' <= c <= '9'
  }

  function DigitsValue(s: string): (r: Option<int>)
    requires s != []
  {
    if !IsDigit(s[|s| - 1]) then None
    else
      var d := s[|s| - 1] as int - '0' as int;
      if |s| == 1 then Some(d)
      else
        var init := DigitsValue(s[..|s| - 1]);
        if init.None? then None else Some(10 * init.value + d)
  }

  /** Go's strconv.Atoi on short strings: digits with an optional sign. */
  function Atoi(s: string): Option<int> {
    if s == [] then None
    else if s[0] == '-' || s[0] == '+' then
      if |s| == 1 then None
      else
        var n := DigitsValue(s[1..]);
        if n.None? then None else Some(if s[0] == '-' then -n.value else n.value)
    else DigitsValue(s)
  }

  function DigitChar(d: int): char
    requires 0 <= d < 10
  {
    '0' + d as char
  }

  /** A status code as the server writes it. */
  function CodeText(code: int): (s: string)
    requires 100 <= code <= 999
    ensures |s| == 3
  {
    [DigitChar(code / 100), DigitChar(code / 10 % 10), DigitChar(code % 10)]
  }

  lemma ThreeDigits(s: string)
    requires |s| == 3
    ensures forall c | c in s :: IsDigit(c) ==> c as int - '0' as int <= 9
    ensures DigitsValue(s).Some? <==> IsDigit(s[0]) && IsDigit(s[1]) && IsDigit(s[2])
    ensures DigitsValue(s).Some? ==>
              DigitsValue(s).value == 100 * (s[0] as int - '0' as int) + 10 * (s[1] as int - '0' as int)
                                      + (s[2] as int - '0' as int)
  {
    assert s[..2][..1] == s[..1];
    assert DigitsValue(s[..1]).Some? <==> IsDigit(s[0]);
    assert DigitsValue(s[..2]).Some? <==> IsDigit(s[0]) && IsDigit(s[1]);
  }

  lemma TwoDigits(s: string)
    requires |s| == 2 && DigitsValue(s).Some?
    ensures 0 <= DigitsValue(s).value <= 99
  {
    assert DigitsValue(s[..1]).Some? ==> 0 <= DigitsValue(s[..1]).value <= 9;
  }

  /** The numbers of three characters: three digits, or a sign and two digits. */
  lemma AtoiOfThree(a: int, b: int, c: int)
    requires 0 <= a < 10 && 0 <= b < 10 && 0 <= c < 10
    ensures Atoi([DigitChar(a), DigitChar(b), DigitChar(c)]) == Some(100 * a + 10 * b + c)
    ensures Atoi(['-', DigitChar(b), DigitChar(c)]) == Some(-(10 * b + c))
    ensures Atoi(['+', DigitChar(b), DigitChar(c)]) == Some(10 * b + c)
  {
    var s, t := [DigitChar(a), DigitChar(b), DigitChar(c)], [DigitChar(b), DigitChar(c)];
    ThreeDigits(s);
    assert DigitsValue(t) == Some(10 * b + c) by {
      assert t[..1] == [DigitChar(b)];
    }
    assert ['-', DigitChar(b), DigitChar(c)][1..] == t && ['+', DigitChar(b), DigitChar(c)][1..] == t;
    hide DigitsValue;
  }

  lemma AtoiFails(s: string)
    requires |s| == 3
    ensures Atoi(s).Some? ==> IsDigit(s[1]) && IsDigit(s[2]) && (IsDigit(s[0]) || s[0] == '-' || s[0] == '+')
  {
    if s[0] == '-' || s[0] == '+' {
      assert DigitsValue(s[1..][..1]).Some? <==> IsDigit(s[1]);
    } else {
      ThreeDigits(s);
    }
  }

  /** The status code of a line, if its first three bytes are a number of at least 100. */
  function StatusCode(s: string): Option<int> {
    var code := Atoi(s);
    if code.None? || code.value < 100 then None else code
  }

  /** The texts that are accepted as status codes are the three-digit numbers from 100 on: no sign gets through. */
  lemma StatusCodeIsText(s: string, code: int)
    requires |s| == 3
    ensures StatusCode(s) == Some(code) <==> 100 <= code <= 999 && s == CodeText(code)
  {
    ThreeDigits(s);
    if s[0] == '-' || s[0] == '+' {
      if DigitsValue(s[1..]).Some? {
        TwoDigits(s[1..]);
      }
    }
    if 100 <= code <= 999 && s == CodeText(code) {
      DecimalDigits(code);
    }
    if StatusCode(s) == Some(code) {
      assert IsDigit(s[0]) && IsDigit(s[1]) && IsDigit(s[2]);
      var a, b, c := s[0] as int - '0' as int, s[1] as int - '0' as int, s[2] as int - '0' as int;
      DigitsOfCode(a, b, c);
      assert CodeText(code) == s;
    }
  }

  lemma DecimalDigits(code: int)
    requires 100 <= code <= 999
    ensures 1 <= code / 100 <= 9 && code == 100 * (code / 100) + 10 * (code / 10 % 10) + code % 10
  {
  }

  lemma DigitsOfCode(a: int, b: int, c: int)
    requires 0 <= a < 10 && 0 <= b < 10 && 0 <= c < 10
    ensures var code := 100 * a + 10 * b + c;
            code / 100 == a && code / 10 % 10 == b && code % 10 == c
  {
  }

  // ----- texts

  /** Go's strings.TrimRight(s, "\n\r"). */
  function TrimRight(s: string): (t: string)
    ensures |t| <= |s| && t == s[..|t|]
    ensures t != [] ==> t[|t| - 1] != '\n' && t[|t| - 1] != '\r'
    ensures forall i :: |t| <= i < |s| ==> s[i] == '\n' || s[i] == '\r'
  {
    if s != [] && (s[|s| - 1] == '\n' || s[|s| - 1] == '\r') then TrimRight(s[..|s| - 1]) else s
  }

  /** A line of a dot-encoded body as it is meant: a leading dot is a stuffed one. */
  function Unstuffed(line: string): string {
    if line != [] && line[0] == '.' then line[1..] else line
  }

  function Stuffed(line: string): string {
    if line != [] && line[0] == '.' then "." + line else line
  }

  lemma StuffedLine(line: string)
    ensures Unstuffed(Stuffed(line)) == line && Stuffed(line) != "."
  {
    if line != [] && line[0] == '.' {
      assert ("." + line)[1..] == line;
    }
  }

  // ----- replies as the server prints them

  /** A line in the middle of a reply, possibly with the lines of a dot-encoded body. */
  datatype Part = Line(text: string) | Body(text: string, lines: seq<string>)

  datatype Reply = Reply(code: int, parts: seq<Part>, last: string)

  /** The body lines are as transmitted; a lone dot would end the body. */
  ghost predicate WellFormed(r: Reply) {
    100 <= r.code <= 999 && forall i :: 0 <= i < |r.parts| ==> r.parts[i].Body? ==> "." !in r.parts[i].lines
  }

  ghost function PrintPart(code: int, part: Part): seq<string>
    requires 100 <= code <= 999
  {
    match part
    case Line(text) => [CodeText(code) + "-" + text]
    case Body(text, lines) => [CodeText(code) + "+" + text] + lines + ["."]
  }

  ghost function PrintParts(code: int, parts: seq<Part>): seq<string>
    requires 100 <= code <= 999
  {
    if parts == [] then [] else PrintPart(code, parts[0]) + PrintParts(code, parts[1..])
  }

  ghost function Print(r: Reply): seq<string>
    requires 100 <= r.code <= 999
  {
    PrintParts(r.code, r.parts) + [CodeText(r.code) + " " + r.last]
  }

  /** What a body amounts to: every line is ended by a newline. */
  function BodyText(lines: seq<string>): string {
    if lines == [] then "" else Unstuffed(lines[0]) + "\n" + BodyText(lines[1..])
  }

  ghost function PartText(part: Part): string {
    match part
    case Line(text) => text
    case Body(text, lines) => text + "\r\n" + TrimRight(BodyText(lines))
  }

  ghost function PartTexts(parts: seq<Part>): seq<string> {
    if parts == [] then [] else [PartText(parts[0])] + PartTexts(parts[1..])
  }

  /** The response that a reply should be read as. */
  ghost function Meaning(r: Reply): Response {
    Response(r.code, r.last, PartTexts(r.parts))
  }

  /** A reply means one text for each of its parts, in order: the text of a line, or the text and the body. */
  lemma {:induction false} TextsOfParts(parts: seq<Part>)
    ensures |PartTexts(parts)| == |parts|
    ensures forall i :: 0 <= i < |parts| && parts[i].Line? ==> PartTexts(parts)[i] == parts[i].text
    ensures forall i :: 0 <= i < |parts| && parts[i].Body? ==>
              PartTexts(parts)[i] == parts[i].text + "\r\n" + TrimRight(BodyText(parts[i].lines))
  {
    hide TrimRight, BodyText;
    if parts != [] {
      TextsOfParts(parts[1..]);
    }
  }

  // ----- reading

  datatype ReadError = Truncated | InvalidStatusCode | StatusCodeChanged | InvalidSeparator | EndOfStream

  /** The state of ReadResponse between two lines. */
  datatype Parse =
    | Start
    | Mid(code: int, data: seq<string>)
    | InBody(code: int, data: seq<string>, head: string, body: string)
    | Done(response: Response)
    | Failed(error: ReadError)
  {
    predicate Pending() {
      !Done? && !Failed?
    }
  }

  /** The effect of one line. */
  function Feed(p: Parse, line: string): Parse
    requires p.Pending()
  {
    if p.InBody? then
      if line == "." then Mid(p.code, p.data + [p.head + "\r\n" + TrimRight(p.body)])
      else p.(body := p.body + Unstuffed(line) + "\n")
    else if |line| < 4 then Failed(Truncated)
    else
      var code := StatusCode(line[..3]);
      if code.None? then Failed(InvalidStatusCode)
      else if p.Mid? && p.code != code.value then Failed(StatusCodeChanged)
      else
        var data := if p.Mid? then p.data else [];
        match line[3]
        case ' ' => Done(Response(code.value, line[4..], data))
        case '-' => Mid(code.value, data + [line[4..]])
        case '+' => InBody(code.value, data, line[4..], "")
        case _ => Failed(InvalidSeparator)
  }

  /** Reading lines until the response is complete or the stream ends: the outcome, and the lines that remain. */
  function Run(p: Parse, lines: seq<string>): (r: (Parse, seq<string>))
    ensures !r.0.Pending()
    ensures |r.1| <= |lines| && (r.0.Done? && p.Pending() ==> |r.1| < |lines|)
    ensures r.1 == lines[|lines| - |r.1|..]
    decreases |lines|
  {
    if !p.Pending() then (p, lines)
    else if lines == [] then (Failed(EndOfStream), [])
    else Run(Feed(p, lines[0]), lines[1..])
  }

  // ----- reading undoes printing

  lemma FeedCode(p: Parse, code: int, separator: char, text: string)
    requires p.Start? || (p.Mid? && p.code == code)
    requires 100 <= code <= 999
    ensures var line := CodeText(code) + [separator] + text;
            var data := if p.Mid? then p.data else [];
            && (separator == ' ' ==> Feed(p, line) == Done(Response(code, text, data)))
            && (separator == '-' ==> Feed(p, line) == Mid(code, data + [text]))
            && (separator == '+' ==> Feed(p, line) == InBody(code, data, text, ""))
  {
    var line := CodeText(code) + [separator] + text;
    StatusCodeIsText(CodeText(code), code);
    assert line[..3] == CodeText(code) && line[3] == separator && line[4..] == text;
  }

  lemma RunStep(p: Parse, line: string, rest: seq<string>)
    requires p.Pending()
    ensures Run(p, [line] + rest) == Run(Feed(p, line), rest)
  {
    hide Feed;
    assert ([line] + rest)[1..] == rest;
  }

  lemma FeedBody(p: Parse, line: string)
    requires p.InBody?
    ensures line != "." ==> Feed(p, line) == p.(body := p.body + Unstuffed(line) + "\n")
    ensures line == "." ==> Feed(p, line) == Mid(p.code, p.data + [p.head + "\r\n" + TrimRight(p.body)])
  {
  }

  lemma {:induction false} RunBody(p: Parse, lines: seq<string>, rest: seq<string>)
    requires p.InBody? && "." !in lines
    ensures Run(p, lines + rest) == Run(p.(body := p.body + BodyText(lines)), rest)
    decreases |lines|
  {
    hide Run, Feed;
    if lines == [] {
      assert lines + rest == rest && p.body + "" == p.body;
    } else {
      assert lines + rest == [lines[0]] + (lines[1..] + rest);
      RunStep(p, lines[0], lines[1..] + rest);
      FeedBody(p, lines[0]);
      LongerBody(p.body, lines);
      RunBody(p.(body := p.body + Unstuffed(lines[0]) + "\n"), lines[1..], rest);
    }
  }

  lemma LongerBody(body: string, lines: seq<string>)
    requires lines != []
    ensures body + Unstuffed(lines[0]) + "\n" + BodyText(lines[1..]) == body + BodyText(lines)
  {
    hide Unstuffed;
    var u := Unstuffed(lines[0]);
    assert BodyText(lines) == u + "\n" + BodyText(lines[1..]);
  }

  ghost function DataOf(p: Parse): seq<string> {
    if p.Mid? then p.data else []
  }

  lemma RunLine(p: Parse, code: int, text: string, rest: seq<string>)
    requires p.Start? || (p.Mid? && p.code == code)
    requires 100 <= code <= 999
    ensures Run(p, PrintPart(code, Line(text)) + rest) == Run(Mid(code, DataOf(p) + [text]), rest)
  {
    hide Run, Feed, CodeText;
    FeedCode(p, code, '-', text);
    RunStep(p, CodeText(code) + "-" + text, rest);
  }

  lemma RunBodyPart(p: Parse, code: int, text: string, lines: seq<string>, rest: seq<string>)
    requires p.Start? || (p.Mid? && p.code == code)
    requires 100 <= code <= 999 && "." !in lines
    ensures Run(p, PrintPart(code, Body(text, lines)) + rest)
         == Run(Mid(code, DataOf(p) + [PartText(Body(text, lines))]), rest)
  {
    hide Run, Feed, CodeText, TrimRight, BodyText;
    var head := CodeText(code) + "+" + text;
    FeedCode(p, code, '+', text);
    assert PrintPart(code, Body(text, lines)) + rest == [head] + (lines + (["."] + rest));
    RunStep(p, head, lines + (["."] + rest));
    var q := InBody(code, DataOf(p), text, "");
    RunBody(q, lines, ["."] + rest);
    assert "" + BodyText(lines) == BodyText(lines);
    var q' := q.(body := BodyText(lines));
    RunStep(q', ".", rest);
    FeedBody(q', ".");
  }

  lemma RunPart(p: Parse, code: int, part: Part, rest: seq<string>)
    requires p.Start? || (p.Mid? && p.code == code)
    requires 100 <= code <= 999 && (part.Body? ==> "." !in part.lines)
    ensures Run(p, PrintPart(code, part) + rest) == Run(Mid(code, DataOf(p) + [PartText(part)]), rest)
  {
    hide Run, Feed, CodeText, TrimRight, BodyText, PrintPart;
    match part
    case Line(text) => RunLine(p, code, text, rest);
    case Body(text, lines) => RunBodyPart(p, code, text, lines, rest);
  }

  lemma {:induction false} RunParts(p: Parse, code: int, parts: seq<Part>, last: string, rest: seq<string>)
    requires p.Start? || (p.Mid? && p.code == code)
    requires WellFormed(Reply(code, parts, last))
    ensures Run(p, PrintParts(code, parts) + ([CodeText(code) + " " + last] + rest))
         == (Done(Response(code, last, DataOf(p) + PartTexts(parts))), rest)
    decreases |parts|
  {
    hide Run, PrintPart, PartText, CodeText, Feed;
    var line := CodeText(code) + " " + last;
    if parts == [] {
      FeedCode(p, code, ' ', last);
      RunStep(p, line, rest);
      assert PrintParts(code, parts) + ([line] + rest) == [line] + rest && DataOf(p) + [] == DataOf(p);
      RunDone(Response(code, last, DataOf(p)), rest);
    } else {
      var after := PrintParts(code, parts[1..]) + ([line] + rest);
      assert PrintParts(code, parts) + ([line] + rest) == PrintPart(code, parts[0]) + after;
      RunPart(p, code, parts[0], after);
      var q := Mid(code, DataOf(p) + [PartText(parts[0])]);
      RunParts(q, code, parts[1..], last, rest);
      MoreTexts(DataOf(p), parts);
    }
  }

  lemma MoreTexts(data: seq<string>, parts: seq<Part>)
    requires parts != []
    ensures data + [PartText(parts[0])] + PartTexts(parts[1..]) == data + PartTexts(parts)
  {
    hide PartText;
  }

  lemma RunDone(r: Response, rest: seq<string>)
    ensures Run(Done(r), rest) == (Done(r), rest)
  {
  }

  /** A printed reply is read as what it means, and reading stops right behind it. */
  lemma ReadPrinted(r: Reply, rest: seq<string>)
    requires WellFormed(r)
    ensures Run(Start, Print(r) + rest) == (Done(Meaning(r)), rest)
  {
    hide Run, PrintParts, PartTexts, CodeText;
    RunParts(Start, r.code, r.parts, r.last, rest);
    assert [] + PartTexts(r.parts) == PartTexts(r.parts);
    var line := CodeText(r.code) + " " + r.last;
    assert Print(r) + rest == PrintParts(r.code, r.parts) + ([line] + rest);
  }

  // ----- printing undoes reading

  /** A line that does not fail starts with a status code and a separator. */
  lemma AcceptedLine(p: Parse, line: string) returns (code: int, text: string)
    requires p.Start? || p.Mid?
    requires !Feed(p, line).Failed?
    ensures 100 <= code <= 999 && (p.Mid? ==> p.code == code)
    ensures var separator := match Feed(p, line) case Done(_) => ' ' case Mid(_, _) => '-' case _ => '+';
            line == CodeText(code) + [separator] + text
    ensures Feed(p, line) == match Feed(p, line)
                             case Done(_) => Done(Response(code, text, DataOf(p)))
                             case Mid(_, _) => Mid(code, DataOf(p) + [text])
                             case _ => InBody(code, DataOf(p), text, "")
  {
    code, text := StatusCode(line[..3]).value, line[4..];
    StatusCodeIsText(line[..3], code);
    assert line == line[..3] + [line[3]] + line[4..];
  }

  /** The lines are the printed form of the remaining parts of a response, and what is left over. */
  ghost predicate Explained(p: Parse, lines: seq<string>, r: Response, rest: seq<string>, parts: seq<Part>) {
    && WellFormed(Reply(r.code, parts, r.reply)) && (p.Mid? ==> r.code == p.code)
    && r.data == DataOf(p) + PartTexts(parts)
    && lines == PrintParts(r.code, parts) + ([CodeText(r.code) + " " + r.reply] + rest)
  }

  lemma FirstStep(p: Parse, lines: seq<string>, r: Response, rest: seq<string>)
    requires p.Pending() && Run(p, lines) == (Done(r), rest)
    ensures lines != [] && Run(Feed(p, lines[0]), lines[1..]) == (Done(r), rest)
    ensures lines == [lines[0]] + lines[1..]
    ensures !Feed(p, lines[0]).Failed?
    ensures Feed(p, lines[0]).Done? ==> Feed(p, lines[0]) == Done(r) && lines[1..] == rest
  {
    hide Feed;
  }

  /** The body that is being read ends at the first lone dot. */
  lemma {:induction false} ExplainBody(p: Parse, lines: seq<string>, r: Response, rest: seq<string>)
    returns (body: seq<string>, after: seq<string>)
    requires p.InBody? && Run(p, lines) == (Done(r), rest)
    ensures lines == body + (["."] + after) && "." !in body
    ensures Run(Mid(p.code, p.data + [p.head + "\r\n" + TrimRight(p.body + BodyText(body))]), after) == (Done(r), rest)
    decreases |lines|
  {
    hide Run, Feed, TrimRight;
    FirstStep(p, lines, r, rest);
    FeedBody(p, lines[0]);
    if lines[0] == "." {
      body, after := [], lines[1..];
      assert p.body + BodyText(body) == p.body;
      assert lines == body + (["."] + after);
    } else {
      hide BodyText, Unstuffed;
      var q := p.(body := p.body + Unstuffed(lines[0]) + "\n");
      var tail: seq<string>;
      tail, after := ExplainBody(q, lines[1..], r, rest);
      body := [lines[0]] + tail;
      LongerBody(p.body, body);
      assert body[1..] == tail;
      assert lines == body + (["."] + after);
    }
  }

  lemma {:induction false} Explain(p: Parse, lines: seq<string>, r: Response, rest: seq<string>)
    returns (parts: seq<Part>)
    requires p.Start? || p.Mid?
    requires Run(p, lines) == (Done(r), rest)
    ensures Explained(p, lines, r, rest, parts)
    decreases |lines|
  {
    FirstStep(p, lines, r, rest);
    hide Run, Feed, CodeText, Explained, PrintPart, PartText, TrimRight;
    var q := Feed(p, lines[0]);
    var code, text := AcceptedLine(p, lines[0]);
    if q.Done? {
      parts := [];
      ExplainLast(p, lines, r, rest);
    } else if q.Mid? {
      parts := Explain(q, lines[1..], r, rest);
      SameCode(q, lines[1..], r, rest, parts);
      PrintedLine(code, text, lines);
      ExplainPart(p, lines, r, rest, Line(text), lines[1..], parts);
      parts := [Line(text)] + parts;
    } else {
      var body, after := ExplainBody(q, lines[1..], r, rest);
      PrintedBody(code, text, body, lines, after);
      var m := Mid(code, DataOf(p) + [PartText(Body(text, body))]);
      parts := Explain(m, after, r, rest);
      SameCode(m, after, r, rest, parts);
      ExplainPart(p, lines, r, rest, Body(text, body), after, parts);
      parts := [Body(text, body)] + parts;
    }
  }

  lemma SameCode(p: Parse, lines: seq<string>, r: Response, rest: seq<string>, parts: seq<Part>)
    requires p.Mid? && Explained(p, lines, r, rest, parts)
    ensures r.code == p.code
  {
  }

  lemma ExplainLast(p: Parse, lines: seq<string>, r: Response, rest: seq<string>)
    requires (p.Start? || (p.Mid? && r.code == p.code)) && 100 <= r.code <= 999 && r.data == DataOf(p)
    requires lines == [CodeText(r.code) + [' '] + r.reply] + rest
    ensures Explained(p, lines, r, rest, [])
  {
    assert DataOf(p) + [] == DataOf(p);
    assert CodeText(r.code) + [' '] + r.reply == CodeText(r.code) + " " + r.reply;
    assert lines == [] + lines;
  }

  lemma PrintedLine(code: int, text: string, lines: seq<string>)
    requires 100 <= code <= 999 && lines != [] && lines[0] == CodeText(code) + ['-'] + text
    ensures lines == PrintPart(code, Line(text)) + lines[1..] && PartText(Line(text)) == text
  {
    assert CodeText(code) + ['-'] + text == CodeText(code) + "-" + text;
  }

  lemma PrintedBody(code: int, text: string, body: seq<string>, lines: seq<string>, after: seq<string>)
    requires 100 <= code <= 999 && lines != [] && lines[0] == CodeText(code) + ['+'] + text
    requires lines[1..] == body + (["."] + after)
    ensures lines == PrintPart(code, Body(text, body)) + after
    ensures PartText(Body(text, body)) == text + "\r\n" + TrimRight("" + BodyText(body))
  {
    hide TrimRight, BodyText, CodeText;
    assert CodeText(code) + ['+'] + text == CodeText(code) + "+" + text;
    assert "" + BodyText(body) == BodyText(body);
    assert lines == [lines[0]] + (body + (["."] + after)) == [lines[0]] + body + ["."] + after;
  }

  lemma ExplainPart(p: Parse, lines: seq<string>, r: Response, rest: seq<string>, part: Part, after: seq<string>,
                    parts: seq<Part>)
    requires p.Start? || (p.Mid? && p.code == r.code)
    requires 100 <= r.code <= 999 && (part.Body? ==> "." !in part.lines)
    requires lines == PrintPart(r.code, part) + after
    requires Explained(Mid(r.code, DataOf(p) + [PartText(part)]), after, r, rest, parts)
    ensures Explained(p, lines, r, rest, [part] + parts)
  {
    hide PrintPart, PartText, CodeText;
    assert ([part] + parts)[1..] == parts;
  }

  /** Whatever is read as a response is the printed form of a reply with that meaning, up to the lines left unread. */
  lemma PrintRead(lines: seq<string>, response: Response, rest: seq<string>) returns (r: Reply)
    requires Run(Start, lines) == (Done(response), rest)
    ensures WellFormed(r) && Meaning(r) == response && lines == Print(r) + rest
  {
    hide Run, PrintParts, PartTexts, CodeText;
    var parts := Explain(Start, lines, response, rest);
    r := Reply(response.code, parts, response.reply);
    var line := CodeText(r.code) + " " + r.last;
    assert Print(r) + rest == PrintParts(r.code, parts) + ([line] + rest);
    assert [] + PartTexts(parts) == PartTexts(parts);
  }

  // ----- bodies

  function JoinLines(lines: seq<string>): string {
    if lines == [] then "" else if |lines| == 1 then lines[0] else lines[0] + "\n" + JoinLines(lines[1..])
  }

  function StuffedLines(lines: seq<string>): (s: seq<string>)
    ensures |s| == |lines| && forall i :: 0 <= i < |lines| ==> s[i] == Stuffed(lines[i])
    ensures "." !in s
  {
    if lines == [] then []
    else
      StuffedLine(lines[0]);
      [Stuffed(lines[0])] + StuffedLines(lines[1..])
  }

  lemma {:induction false} BodyTextOfStuffed(lines: seq<string>)
    requires lines != []
    ensures BodyText(StuffedLines(lines)) == JoinLines(lines) + "\n"
  {
    hide Stuffed, Unstuffed;
    StuffedLine(lines[0]);
    var s := StuffedLines(lines);
    assert s[1..] == StuffedLines(lines[1..]);
    if |lines| > 1 {
      BodyTextOfStuffed(lines[1..]);
    }
  }

  predicate EndsBlank(s: string) {
    s != [] && (s[|s| - 1] == '\n' || s[|s| - 1] == '\r')
  }

  /** A body that was stuffed for transmission is read as its lines joined by newlines, exactly when no blank line,
      and no line end, closes it. */
  lemma BodyRoundTrip(lines: seq<string>)
    ensures TrimRight(BodyText(StuffedLines(lines))) == JoinLines(lines) <==> !EndsBlank(JoinLines(lines))
  {
    if lines != [] {
      BodyTextOfStuffed(lines);
      var j := JoinLines(lines);
      assert (j + "\n")[..|j|] == j;
      assert TrimRight(j + "\n") == TrimRight(j);
    }
  }

  // ----- errors

  lemma CodeOfLine(s: string)
    requires |s| == 3
    ensures StatusCode(s) == None <==> s[0] == '0' || exists i :: 0 <= i < 3 && !('0' <= s[i] <= '9')
  {
    if forall i :: 0 <= i < 3 ==> '0' <= s[i] <= '9' {
      var a, b, c := s[0] as int - '0' as int, s[1] as int - '0' as int, s[2] as int - '0' as int;
      if s[0] != '0' {
        DigitsOfCode(a, b, c);
        assert CodeText(100 * a + 10 * b + c) == s;
        StatusCodeIsText(s, 100 * a + 10 * b + c);
      } else if StatusCode(s).Some? {
        StatusCodeIsText(s, StatusCode(s).value);
      }
    } else if StatusCode(s).Some? {
      StatusCodeIsText(s, StatusCode(s).value);
    }
  }

  lemma FailedStep(p: Parse, line: string, rest: seq<string>, error: ReadError)
    requires p.Pending() && Feed(p, line) == Failed(error)
    ensures Run(p, [line] + rest) == (Failed(error), rest)
  {
    hide Feed;
    RunStep(p, line, rest);
  }

  /** What is wrong with a line outside of a body: it has less than four characters, it does not start with three digits
      of which the first is not zero, its code is not the one of the reply, or no separator comes behind it. */
  ghost function LineError(p: Parse, line: string): Option<ReadError>
    requires p.Start? || (p.Mid? && 100 <= p.code <= 999)
  {
    if |line| < 4 then Some(Truncated)
    else if line[0] == '0' || exists i :: 0 <= i < 3 && !('0' <= line[i] <= '9') then Some(InvalidStatusCode)
    else if p.Mid? && line[..3] != CodeText(p.code) then Some(StatusCodeChanged)
    else if line[3] != ' ' && line[3] != '-' && line[3] != '+' then Some(InvalidSeparator)
    else None
  }

  /** Reading ends behind such a line with its error, and behind no other line; it also ends when there is none. */
  lemma LineFails(p: Parse, line: string, rest: seq<string>)
    requires p.Start? || (p.Mid? && 100 <= p.code <= 999)
    ensures Run(p, []) == (Failed(EndOfStream), [])
    ensures LineError(p, line).Some? ==> Run(p, [line] + rest) == (Failed(LineError(p, line).value), rest)
    ensures LineError(p, line).None? ==> !Feed(p, line).Failed?
  {
    FeedFails(p, line);
    hide Feed, LineError;
    if LineError(p, line).Some? {
      FailedStep(p, line, rest, LineError(p, line).value);
    }
  }

  lemma FeedFails(p: Parse, line: string)
    requires p.Start? || (p.Mid? && 100 <= p.code <= 999)
    ensures LineError(p, line).Some? ==> Feed(p, line) == Failed(LineError(p, line).value)
    ensures LineError(p, line).None? ==> !Feed(p, line).Failed?
  {
    if |line| >= 4 {
      CodeOfLine(line[..3]);
      if p.Mid? {
        StatusCodeIsText(line[..3], p.code);
      }
      hide StatusCode, CodeText;
      assert forall i :: 0 <= i < 3 ==> line[..3][i] == line[i];
    }
  }

  // ----- an example

  /** A reply with a line and a dot-encoded body. */
  lemma ExampleIsPrinted(r: Reply)
    requires r == Reply(250, [Line("version=1"), Body("config-text=", ["a", "..b", ".c"])], "OK")
    ensures WellFormed(r)
    ensures Print(r) == ["250-version=1", "250+config-text=", "a", "..b", ".c", ".", "250 OK"]
  {
    assert CodeText(250) == "250";
    hide CodeText;
    var p, q := r.parts[0], r.parts[1];
    assert r.parts[1..] == [q] && r.parts[1..][1..] == [];
    assert PrintPart(250, p) == ["250-version=1"] by {
      assert "250" + "-" + "version=1" == "250-version=1";
    }
    assert PrintPart(250, q) == ["250+config-text=", "a", "..b", ".c", "."] by {
      assert "250" + "+" + "config-text=" == "250+config-text=";
    }
    assert "250" + " " + "OK" == "250 OK";
    hide PrintPart;
    assert PrintParts(250, []) == [];
    assert PrintParts(250, [q]) == PrintPart(250, q) + [];
    assert PrintParts(250, r.parts) == PrintPart(250, p) + PrintParts(250, [q]);
  }

  lemma ExampleBody()
    ensures TrimRight(BodyText(["a", "..b", ".c"])) == "a\n.b\nc"
  {
    assert Unstuffed("a") == "a" && Unstuffed("..b") == ".b" && Unstuffed(".c") == "c";
    hide Unstuffed, TrimRight;
    assert BodyText([".c"]) == "c" + "\n" + "" by {
      assert [".c"][1..] == [];
    }
    assert BodyText(["..b", ".c"]) == ".b" + "\n" + BodyText([".c"]) by {
      assert ["..b", ".c"][1..] == [".c"];
    }
    assert BodyText(["a", "..b", ".c"]) == "a" + "\n" + BodyText(["..b", ".c"]) by {
      assert ["a", "..b", ".c"][1..] == ["..b", ".c"];
    }
    hide BodyText;
    assert BodyText(["a", "..b", ".c"]) == "a\n.b\nc\n";
    ExampleTrimmed();
  }

  lemma ExampleTrimmed()
    ensures TrimRight("a\n.b\nc\n") == "a\n.b\nc"
  {
    assert "a\n.b\nc\n"[..6] == "a\n.b\nc";
  }

  lemma ExampleMeaning(r: Reply)
    requires r == Reply(250, [Line("version=1"), Body("config-text=", ["a", "..b", ".c"])], "OK")
    ensures Meaning(r) == Response(250, "OK", ["version=1", "config-text=\r\na\n.b\nc"])
  {
    ExampleBody();
    TextsOfParts(r.parts);
    hide PartTexts, TrimRight, BodyText;
    assert "config-text=" + "\r\n" + "a\n.b\nc" == "config-text=\r\na\n.b\nc";
    assert PartTexts(r.parts) == ["version=1", "config-text=\r\na\n.b\nc"];
  }

  /** It is read up to its closing line. */
  lemma ReadExample()
    ensures Run(Start, ["250-version=1", "250+config-text=", "a", "..b", ".c", ".", "250 OK"] + ["650 BW 1 2"])
         == (Done(Response(250, "OK", ["version=1", "config-text=\r\na\n.b\nc"])), ["650 BW 1 2"])
  {
    var r := Reply(250, [Line("version=1"), Body("config-text=", ["a", "..b", ".c"])], "OK");
    ExampleIsPrinted(r);
    ExampleMeaning(r);
    hide Run, Print, Meaning;
    ReadPrinted(r, ["650 BW 1 2"]);
  }
}
