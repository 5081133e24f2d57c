/** The whole line that SETCONF sends, and what a reader gets who splits it at its unquoted spaces. */
module SetConf {
  import opened Options
  import opened QuotedStrings
  import opened Formats
  import opened Conf

  ghost function EntryTexts(entries: seq<KeyVal>): string {
    if entries == [] then ""
    else EntryTexts(entries[..|entries| - 1]) + " " + EntryText(entries[|entries| - 1])
  }

  method SetConfCommand(cmd: string, entries: seq<KeyVal>) returns (line: string)
    ensures line == cmd + EntryTexts(entries)
  {
    line := cmd;
    for i := 0 to |entries|
      invariant line == cmd + EntryTexts(entries[..i])
    {
      var entry := entries[i];
      line := line + " " + entry.key;
      if entry.ValSet() {
        line := line + "=" + EscapeSimpleQuotedStringIfNeeded(entry.val);
      }
      OneMoreEntry(cmd, entries, i);
    }
    assert entries[..|entries|] == entries;
  }

  lemma OneMoreEntry(cmd: string, entries: seq<KeyVal>, i: nat)
    requires i < |entries|
    ensures cmd + EntryTexts(entries[..i + 1])
            == cmd + EntryTexts(entries[..i]) + " " + entries[i].key
               + if entries[i].ValSet() then "=" + EscapeSimpleQuotedStringIfNeeded(entries[i].val) else ""
  {
    hide EscapeSimpleQuotedStringIfNeeded;
    assert entries[..i + 1][..i] == entries[..i];
  }

  // ----- splitting a line

  /** Where a reader of a line is: in a key, behind its '=', in a value, inside its quotes, behind a backslash there. */
  datatype Scan = InKey | AtValue | Bare | Quoted | Escaped

  function Next(state: Scan, c: char): Scan {
    match state
    case InKey => if c == '=' then AtValue else InKey
    case AtValue => if c == '\"' then Quoted else Bare
    case Bare => Bare
    case Quoted => if c == '\"' then Bare else if c == '\\' then Escaped else Quoted
    case Escaped => Quoted
  }

  predicate Separates(state: Scan, c: char) {
    c == ' ' && !state.Quoted? && !state.Escaped?
  }

  /** A line split at its unquoted spaces. */
  function Split(s: string, state: Scan): (words: seq<string>)
    ensures words != []
  {
    if s == "" then [""]
    else if Separates(state, s[0]) then [""] + Split(s[1..], InKey)
    else
      var words := Split(s[1..], Next(state, s[0]));
      [[s[0]] + words[0]] + words[1..]
  }

  lemma {:induction false} JoinedSplit(s: string, state: Scan)
    ensures Joined(Split(s, state)) == s
  {
    if s == "" {
    } else if Separates(state, s[0]) {
      JoinedSplit(s[1..], InKey);
      assert Split(s, state)[1..] == Split(s[1..], InKey);
    } else {
      JoinedSplit(s[1..], Next(state, s[0]));
      var words := Split(s[1..], Next(state, s[0]));
      assert Split(s, state)[1..] == words[1..];
    }
  }

  /** Where the reader is after a text without separators. */
  function After(s: string, state: Scan): Option<Scan> {
    if s == "" then Some(state)
    else if Separates(state, s[0]) then None
    else After(s[1..], Next(state, s[0]))
  }

  lemma {:induction false} AfterSum(a: string, b: string, state: Scan)
    ensures After(a + b, state) == var r := After(a, state); if r.None? then None else After(b, r.value)
  {
    if a == "" {
      assert a + b == b;
    } else {
      assert (a + b)[1..] == a[1..] + b;
      if !Separates(state, a[0]) {
        AfterSum(a[1..], b, Next(state, a[0]));
      }
    }
  }

  /** A text without separators that does not end inside quotes is one word. */
  predicate IsWord(s: string, state: Scan) {
    var r := After(s, state);
    r.Some? && !r.value.Quoted? && !r.value.Escaped?
  }

  lemma {:induction false} OneWord(word: string, state: Scan)
    requires IsWord(word, state)
    ensures Split(word, state) == [word]
  {
    if word != "" {
      OneWord(word[1..], Next(state, word[0]));
      assert [word[0]] + word[1..] == word;
    }
  }

  lemma {:induction false} SplitWord(word: string, state: Scan, rest: string)
    requires IsWord(word, state)
    ensures Split(word + " " + rest, state) == [word] + Split(rest, InKey)
  {
    var s := word + " " + rest;
    if word == "" {
      assert s[1..] == rest;
    } else {
      assert s[1..] == word[1..] + " " + rest;
      SplitWord(word[1..], Next(state, word[0]), rest);
      assert [word[0]] + word[1..] == word;
    }
  }

  lemma {:induction false} SplitJoined(words: seq<string>)
    requires words != [] && forall i :: 0 <= i < |words| ==> IsWord(words[i], InKey)
    ensures Split(Joined(words), InKey) == words
  {
    if |words| == 1 {
      OneWord(words[0], InKey);
    } else {
      SplitJoined(words[1..]);
      SplitWord(words[0], InKey, Joined(words[1..]));
    }
  }

  lemma {:induction false} AfterKey(s: string)
    requires '=' !in s
    ensures After(s, InKey) == if ' ' in s then None else Some(InKey)
  {
    if s != "" {
      AfterKey(s[1..]);
    }
  }

  lemma {:induction false} AfterBare(s: string)
    requires ' ' !in s
    ensures After(s, Bare) == Some(Bare)
  {
    if s != "" {
      AfterBare(s[1..]);
    }
  }

  lemma {:induction false} AfterContents(s: string)
    ensures After(EscapeSimpleQuotedStringContents(s), Quoted) == Some(Quoted)
  {
    if s != "" {
      AfterContents(s[1..]);
      AfterEscape(s[0]);
      AfterSum(EscapedChar(s[0]), EscapeSimpleQuotedStringContents(s[1..]), Quoted);
    }
  }

  lemma AfterEscape(c: char)
    ensures After(EscapedChar(c), Quoted) == Some(Quoted)
  {
    var e := EscapedChar(c);
    if |e| == 2 {
      assert e[1..][1..] == "";
      assert After(e[1..], Escaped) == After("", Quoted);
    } else {
      assert e[1..] == "";
    }
  }

  lemma ValueIsWord(val: string)
    ensures IsWord(EscapeSimpleQuotedStringIfNeeded(val), AtValue)
  {
    if NeedsQuotes(val) {
      var contents := EscapeSimpleQuotedStringContents(val);
      AfterContents(val);
      AfterSum("\"" + contents, "\"", AtValue);
      AfterSum("\"", contents, AtValue);
      hide EscapeSimpleQuotedStringContents;
      assert After("\"", AtValue) == Some(Quoted) && After("\"", Quoted) == Some(Bare);
    } else if val != "" {
      assert val[0] in val && ' ' !in val;
      AfterBare(val[1..]);
    }
  }

  lemma EntryIsWord(entry: KeyVal)
    requires '=' !in entry.key && ' ' !in entry.key
    ensures IsWord(EntryText(entry), InKey)
  {
    AfterKey(entry.key);
    if entry.ValSet() {
      var text := EscapeSimpleQuotedStringIfNeeded(entry.val);
      ValueIsWord(entry.val);
      hide EscapeSimpleQuotedStringIfNeeded;
      AfterSum(entry.key + "=", text, InKey);
      AfterSum(entry.key, "=", InKey);
      assert After("=", InKey) == Some(AtValue);
      assert EntryText(entry) == entry.key + "=" + text;
    } else {
      assert EntryText(entry) == entry.key;
    }
  }

  /** The words of a line begin with keys, which hold no spaces. */
  lemma {:induction false} KeysOfWords(s: string, state: Scan)
    ensures forall i :: 0 <= i < |Split(s, state)| && (i > 0 || state == InKey) ==>
              ' ' !in PartitionString(Split(s, state)[i], '=').0
  {
    if s == "" {
    } else if Separates(state, s[0]) {
      KeysOfWords(s[1..], InKey);
    } else {
      KeysOfWords(s[1..], Next(state, s[0]));
      KeyExtended(s[0], Split(s[1..], Next(state, s[0]))[0]);
    }
  }

  lemma KeyExtended(c: char, word: string)
    ensures PartitionString([c] + word, '=').0 == if c == '=' then "" else [c] + PartitionString(word, '=').0
  {
    assert ([c] + word)[1..] == word;
    var i := IndexByte(word, '=');
    if i != -1 {
      assert ([c] + word)[..i + 1] == [c] + word[..i];
    }
  }

  // ----- SETCONF as the server reads it

  ghost function Texts(entries: seq<KeyVal>): seq<string> {
    if entries == [] then [] else [EntryText(entries[0])] + Texts(entries[1..])
  }

  lemma {:induction false} TextsAt(entries: seq<KeyVal>)
    ensures |Texts(entries)| == |entries|
    ensures forall i :: 0 <= i < |entries| ==> Texts(entries)[i] == EntryText(entries[i])
  {
    if entries != [] {
      TextsAt(entries[1..]);
    }
  }

  lemma {:induction false} EntryTextsFromStart(entries: seq<KeyVal>)
    requires entries != []
    ensures EntryTexts(entries) == " " + EntryText(entries[0]) + EntryTexts(entries[1..])
  {
    hide EntryText;
    var n := |entries| - 1;
    if n == 0 {
      assert entries[..n] == [] && entries[1..] == [];
    } else {
      EntryTextsFromStart(entries[..n]);
      assert entries[..n][1..] == entries[1..][..n - 1];
      assert entries[1..][n - 1] == entries[n];
    }
  }

  /** The line that SETCONF builds is the command and the texts of the entries with spaces between them. */
  lemma {:induction false} LineOfTexts(cmd: string, entries: seq<KeyVal>)
    ensures cmd + EntryTexts(entries) == Joined([cmd] + Texts(entries))
    decreases entries
  {
    hide EntryText;
    if entries == [] {
      assert cmd + "" == cmd;
    } else {
      LineOfTexts(EntryText(entries[0]), entries[1..]);
      EntryTextsFromStart(entries);
      assert ([cmd] + Texts(entries))[1..] == [EntryText(entries[0])] + Texts(entries[1..]);
    }
  }

  /** A reader of the line gets the command and then these entries, each from one word. */
  ghost predicate Received(line: string, cmd: string, entries: seq<KeyVal>) {
    var words := Split(line, InKey);
    && IsLine(line) && |words| == 1 + |entries| && words[0] == cmd
    && forall i :: 0 <= i < |entries| ==> ReadsAs(words[1 + i], entries[i])
  }

  /** What a caller can check before the call. */
  predicate CanBeSent(entry: KeyVal) {
    && '=' !in entry.key && ' ' !in entry.key && IsLine(entry.key)
    && '%' !in entry.key && '%' !in entry.val
  }

  lemma {:induction false} InJoined(words: seq<string>, c: char)
    requires words != []
    ensures c in Joined(words) <==> (|words| > 1 && c == ' ') || exists i :: 0 <= i < |words| && c in words[i]
  {
    if |words| > 1 {
      InJoined(words[1..], c);
      if exists i :: 0 <= i < |words| && c in words[i] {
        var i :| 0 <= i < |words| && c in words[i];
        assert i > 0 ==> words[i] == words[1..][i - 1];
      }
      if exists i :: 0 <= i < |words| - 1 && c in words[1..][i] {
        var i :| 0 <= i < |words| - 1 && c in words[1..][i];
        assert words[1..][i] == words[i + 1];
      }
    }
  }

  lemma {:induction false} SkeletonOfJoined(v: seq<string>, w: seq<string>)
    requires |v| == |w| > 0 && forall i :: 0 <= i < |v| ==> Skeleton(v[i]) == Skeleton(w[i])
    ensures Skeleton(Joined(v)) == Skeleton(Joined(w))
  {
    hide Skeleton;
    if |v| > 1 {
      SkeletonOfJoined(v[1..], w[1..]);
      SkeletonSum(v[0] + " ", Joined(v[1..]));
      SkeletonSum(w[0] + " ", Joined(w[1..]));
      SkeletonSum(v[0], " ");
      SkeletonSum(w[0], " ");
    }
  }

  lemma {:induction false} EscapedIsLine(s: string)
    ensures IsLine(EscapeSimpleQuotedStringContents(s))
  {
    if s != "" {
      EscapedIsLine(s[1..]);
    }
  }

  lemma EntryIsLine(entry: KeyVal)
    ensures IsLine(EntryText(entry)) <==> IsLine(entry.key)
  {
    var text := EscapeSimpleQuotedStringIfNeeded(entry.val);
    assert IsLine(text) by {
      EscapedIsLine(entry.val);
      hide EscapeSimpleQuotedStringContents;
    }
    hide EscapeSimpleQuotedStringIfNeeded;
    assert forall c :: c in entry.key ==> c in EntryText(entry);
  }

  /** The words that SETCONF sends before they go out as a format. */
  ghost function Sent(cmd: string, entries: seq<KeyVal>): (words: seq<string>)
    ensures words != []
  {
    [cmd] + Texts(entries)
  }

  lemma PercentInLine(cmd: string, entries: seq<KeyVal>)
    requires '%' !in cmd
    ensures '%' !in Joined(Sent(cmd, entries))
            <==> forall i :: 0 <= i < |entries| ==> '%' !in entries[i].key && '%' !in entries[i].val
  {
    InJoined(Sent(cmd, entries), '%');
    TextsAt(entries);
    hide EntryText, Texts, Joined;
    forall i | 0 <= i < |entries|
      ensures '%' in Sent(cmd, entries)[i + 1] <==> '%' in entries[i].key || '%' in entries[i].val
    {
      PercentInEntry(entries[i]);
    }
    assert forall i :: 0 < i < |Sent(cmd, entries)| ==>
        ('%' in Sent(cmd, entries)[i] <==> '%' in entries[i - 1].key || '%' in entries[i - 1].val);
  }

  lemma LineOfKeys(cmd: string, entries: seq<KeyVal>)
    requires IsLine(cmd)
    ensures IsLine(Joined(Sent(cmd, entries))) <==> forall i :: 0 <= i < |entries| ==> IsLine(entries[i].key)
  {
    InJoined(Sent(cmd, entries), '\r');
    InJoined(Sent(cmd, entries), '\n');
    TextsAt(entries);
    hide EntryText, Texts, Joined;
    forall i | 0 <= i < |entries| ensures IsLine(Sent(cmd, entries)[i + 1]) <==> IsLine(entries[i].key) {
      EntryIsLine(entries[i]);
    }
    assert forall i :: 0 < i < |Sent(cmd, entries)| ==>
        (IsLine(Sent(cmd, entries)[i]) <==> IsLine(entries[i - 1].key));
  }

  lemma SendableIsReceived(cmd: string, entries: seq<KeyVal>)
    requires '=' !in cmd && ' ' !in cmd
    requires forall i :: 0 <= i < |entries| ==> CanBeSent(entries[i])
    requires IsLine(Joined(Sent(cmd, entries)))
    ensures Received(Joined(Sent(cmd, entries)), cmd, entries)
  {
    var words := Sent(cmd, entries);
    AfterKey(cmd);
    TextsAt(entries);
    hide EntryText, Texts, Joined, Split, IsWord, ReadsAs, After;
    forall i | 0 <= i < |words| ensures IsWord(words[i], InKey) {
      if i > 0 {
        EntryIsWord(entries[i - 1]);
      } else {
        KeyIsWord(cmd);
      }
    }
    SplitJoined(words);
    forall i | 0 <= i < |entries| ensures ReadsAs(words[1 + i], entries[i]) {
      ReadsAsWritten(entries[i]);
    }
  }

  lemma KeyIsWord(key: string)
    requires '=' !in key && ' ' !in key
    ensures IsWord(key, InKey)
  {
    AfterKey(key);
  }

  lemma ReceivedIsSendable(line: string, cmd: string, entries: seq<KeyVal>)
    requires Received(line, cmd, entries)
    ensures Skeleton(line) == Skeleton(Joined(Sent(cmd, entries)))
    ensures forall i :: 0 <= i < |entries| ==> '=' !in entries[i].key && ' ' !in entries[i].key
  {
    var words, sent := Split(line, InKey), Sent(cmd, entries);
    JoinedSplit(line, InKey);
    KeysOfWords(line, InKey);
    WordsOfEntries(words, cmd, entries);
    hide Joined, Split, Sent, Skeleton, ReadsAs;
    SkeletonOfJoined(words, sent);
  }

  lemma WordsOfEntries(words: seq<string>, cmd: string, entries: seq<KeyVal>)
    requires |words| == 1 + |entries| && words[0] == cmd
    requires forall i :: 0 <= i < |entries| ==> ReadsAs(words[1 + i], entries[i])
    requires forall i :: 0 < i < |words| ==> ' ' !in PartitionString(words[i], '=').0
    ensures |Sent(cmd, entries)| == |words|
    ensures forall i :: 0 <= i < |words| ==> Skeleton(words[i]) == Skeleton(Sent(cmd, entries)[i])
    ensures forall i :: 0 <= i < |entries| ==> '=' !in entries[i].key && ' ' !in entries[i].key
  {
    TextsAt(entries);
    hide EntryText, Texts, Skeleton, ReadsAs, PartitionString;
    forall i | 0 < i < |words|
      ensures Skeleton(words[i]) == Skeleton(Sent(cmd, entries)[i])
      ensures '=' !in entries[i - 1].key && ' ' !in entries[i - 1].key
    {
      assert ReadsAs(words[1 + (i - 1)], entries[i - 1]);
      SkeletonOfEntry(words[i], entries[i - 1]);
      KeyOfRead(words[i], entries[i - 1]);
    }
    assert forall i :: 0 <= i < |entries| ==> entries[i] == entries[(i + 1) - 1];
  }

  lemma KeyOfRead(word: string, entry: KeyVal)
    requires ReadsAs(word, entry)
    ensures PartitionString(word, '=').0 == entry.key
  {
    hide PartitionString, UnescapedIfNeeded;
  }

  predicate IsCommand(cmd: string) {
    '=' !in cmd && ' ' !in cmd && '%' !in cmd && IsLine(cmd)
  }

  lemma CommandReceived(cmd: string, entries: seq<KeyVal>, line: string)
    requires IsCommand(cmd) && line == Joined(Sent(cmd, entries))
    ensures Received(Sprintf(line), cmd, entries) <==> forall i :: 0 <= i < |entries| ==> CanBeSent(entries[i])
  {
    hide Sprintf, Skeleton, Received, Joined, Sent;
    FormatIsKept(line);
    PercentInLine(cmd, entries);
    LineOfKeys(cmd, entries);
    if forall i :: 0 <= i < |entries| ==> CanBeSent(entries[i]) {
      SendableIsReceived(cmd, entries);
    }
    if Received(Sprintf(line), cmd, entries) {
      ReceivedIsSendable(Sprintf(line), cmd, entries);
      ReceivedIsLine(line, cmd, entries);
    }
  }

  lemma ReceivedIsLine(line: string, cmd: string, entries: seq<KeyVal>)
    requires Received(line, cmd, entries)
    ensures IsLine(line)
  {
  }

  /** What a reader of the sent line gets are the entries exactly when all of them can be sent. */
  lemma SetConfReceived(cmd: string, entries: seq<KeyVal>)
    requires cmd == "SETCONF" || cmd == "RESETCONF"
    ensures Received(Sprintf(cmd + EntryTexts(entries)), cmd, entries)
            <==> forall i :: 0 <= i < |entries| ==> CanBeSent(entries[i])
  {
    hide Sprintf, Received, Joined, CanBeSent, Sent;
    assert IsCommand(cmd);
    LineIsSent(cmd, entries);
    CommandReceived(cmd, entries, cmd + EntryTexts(entries));
  }

  lemma LineIsSent(cmd: string, entries: seq<KeyVal>)
    ensures cmd + EntryTexts(entries) == Joined(Sent(cmd, entries))
  {
    LineOfTexts(cmd, entries);
  }

  /** A percent sign spoils the value that it ends. */
  lemma PercentAtEnd()
    ensures EntryText(KeyVal("ContactInfo", "100%", false)) == "ContactInfo=100%"
    ensures Sprintf("ContactInfo=100%") == "ContactInfo=100%!(NOVERB)"
  {
    hide Sprintf, EntryText;
    PlainText("ContactInfo", "100%");
    assert "ContactInfo" + "=" + "100%" == "ContactInfo=100%" == "ContactInfo=100" + "%";
    TextThen("ContactInfo=100", "%");
    NoVerb();
  }

  /** And it spoils the entry behind. */
  lemma PercentBeforeEntry()
    ensures "SETCONF" + EntryTexts([KeyVal("A", "100%", false), KeyVal("B", "1", false)]) == "SETCONF A=100% B=1"
    ensures Sprintf("SETCONF A=100% B=1") == "SETCONF A=100%!B(MISSING)=1"
  {
    hide Sprintf, EntryTexts, EntryText;
    PlainText("A", "100%");
    PlainText("B", "1");
    TwoEntries(KeyVal("A", "100%", false), KeyVal("B", "1", false));
    TwoTexts();
    TextThen("SETCONF A=100", "% B=1");
    SpaceAndVerb();
  }

  lemma TwoTexts()
    ensures "SETCONF" + (" " + ("A" + "=" + "100%") + " " + ("B" + "=" + "1")) == "SETCONF A=100% B=1"
    ensures "SETCONF A=100" + "% B=1" == "SETCONF A=100% B=1"
    ensures "SETCONF A=100" + "%!B(MISSING)=1" == "SETCONF A=100%!B(MISSING)=1"
  {
  }

  lemma PlainText(key: string, val: string)
    requires val != "" && !NeedsQuotes(val)
    ensures EntryText(KeyVal(key, val, false)) == key + "=" + val
  {
  }

  lemma TwoEntries(a: KeyVal, b: KeyVal)
    ensures EntryTexts([a, b]) == " " + EntryText(a) + " " + EntryText(b)
  {
    assert [a, b][..1] == [a] && [a][..0] == [];
    assert EntryTexts([a]) == EntryTexts([]) + " " + EntryText(a);
    assert EntryTexts([]) == "";
  }
}
