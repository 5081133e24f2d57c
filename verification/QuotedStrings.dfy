/** Partitioning of strings, and the quoted strings of the control protocol.

    A string is a sequence of Unicode scalar values, which is what a valid UTF-8 string of Go iterates over.
 */
module QuotedStrings {
  import opened Options

  // ----- partitions

  /** The position of the first ch in s, or -1. */
  function IndexByte(s: string, ch: char): (i: int)
    ensures i == -1 ==> ch !in s
    ensures i != -1 ==> 0 <= i < |s| && s[i] == ch && ch !in s[..i]
  {
    if s == [] then -1
    else if s[0] == ch then 0
    else
      var i := IndexByte(s[1..], ch);
      if i == -1 then -1
      else
        assert s[..i + 1] == [s[0]] + s[1..][..i];
        i + 1
  }

  /** The position of the last ch in s, or -1. */
  function LastIndexByte(s: string, ch: char): (i: int)
    ensures i == -1 ==> ch !in s
    ensures i != -1 ==> 0 <= i < |s| && s[i] == ch && ch !in s[i + 1..]
  {
    if s == [] then -1
    else if s[|s| - 1] == ch then |s| - 1
    else
      var i := LastIndexByte(s[..|s| - 1], ch);
      if i == -1 then -1
      else
        assert s[i + 1..] == s[..|s| - 1][i + 1..] + [s[|s| - 1]];
        i
  }

  function PartitionString(s: string, ch: char): (string, string, bool) {
    var index := IndexByte(s, ch);
    if index == -1 then (s, "", false) else (s[..index], s[index + 1..], true)
  }

  function PartitionStringFromEnd(s: string, ch: char): (string, string, bool) {
    var index := LastIndexByte(s, ch);
    if index == -1 then (s, "", false) else (s[..index], s[index + 1..], true)
  }

  /** Joining the parts gives the string back, and the first part is the longest without ch. */
  lemma PartitionIsUnique(s: string, ch: char, first: string, rest: string)
    ensures PartitionString(s, ch) == (first, rest, true) <==> s == first + [ch] + rest && ch !in first
    ensures PartitionString(s, ch) == (s, "", false) <==> ch !in s
  {
    var index := IndexByte(s, ch);
    if index != -1 {
      assert s == s[..index] + [ch] + s[index + 1..];
    }
    if s == first + [ch] + rest && ch !in first {
      assert s[|first|] == ch;
      assert index == |first|;
      assert s[..index] == first && s[index + 1..] == rest;
    }
  }

  /** The same from the end: the second part is the longest without ch. */
  lemma PartitionFromEndIsUnique(s: string, ch: char, first: string, rest: string)
    ensures PartitionStringFromEnd(s, ch) == (first, rest, true) <==> s == first + [ch] + rest && ch !in rest
    ensures PartitionStringFromEnd(s, ch) == (s, "", false) <==> ch !in s
  {
    var index := LastIndexByte(s, ch);
    if index != -1 {
      assert s == s[..index] + [ch] + s[index + 1..];
    }
    if s == first + [ch] + rest && ch !in rest {
      assert s[|first|] == ch;
      assert s[|first| + 1..] == rest;
      assert index == |first|;
      assert s[..index] == first && s[index + 1..] == rest;
    }
  }

  // ----- escaping

  function EscapedChar(c: char): string {
    match c
    case '\\' => "\\\\"
    case '\"' => "\\\""
    case '\r' => "\\r"
    case '\n' => "\\n"
    case _ => [c]
  }

  function EscapeSimpleQuotedStringContents(s: string): string {
    if s == [] then [] else EscapedChar(s[0]) + EscapeSimpleQuotedStringContents(s[1..])
  }

  function EscapeSimpleQuotedString(s: string): string {
    "\"" + EscapeSimpleQuotedStringContents(s) + "\""
  }

  predicate NeedsQuotes(s: string) {
    exists c :: c in s && (c == ' ' || c == '\\' || c == '\"' || c == '\r' || c == '\n')
  }

  function EscapeSimpleQuotedStringIfNeeded(s: string): string {
    if NeedsQuotes(s) then EscapeSimpleQuotedString(s) else s
  }

  /** Exactly the strings with a space, a backslash, a quote or a line end are quoted. */
  lemma QuotedIfNeeded(s: string)
    ensures EscapeSimpleQuotedStringIfNeeded(s) == s
            <==> forall i :: 0 <= i < |s| ==>
                   s[i] != ' ' && s[i] != '\\' && s[i] != '\"' && s[i] != '\r' && s[i] != '\n'
    ensures EscapeSimpleQuotedStringIfNeeded(s) != s ==>
              EscapeSimpleQuotedStringIfNeeded(s) == "\"" + EscapeSimpleQuotedStringContents(s) + "\""
  {
    hide EscapeSimpleQuotedStringContents;
    EscapedIsLonger(s);
    assert |EscapeSimpleQuotedString(s)| > |s|;
    hide EscapeSimpleQuotedString;
    if NeedsQuotes(s) {
      var c :| c in s && (c == ' ' || c == '\\' || c == '\"' || c == '\r' || c == '\n');
      var i :| 0 <= i < |s| && s[i] == c;
      assert EscapeSimpleQuotedStringIfNeeded(s) != s;
    } else {
      assert forall i :: 0 <= i < |s| ==> s[i] in s;
    }
  }

  lemma {:induction false} EscapedIsLonger(s: string)
    ensures |EscapeSimpleQuotedStringContents(s)| >= |s|
  {
    if s != "" {
      EscapedIsLonger(s[1..]);
    }
  }

  /** Characters are escaped one by one. */
  lemma {:induction false} EscapedSum(s: string, t: string)
    ensures EscapeSimpleQuotedStringContents(s + t)
         == EscapeSimpleQuotedStringContents(s) + EscapeSimpleQuotedStringContents(t)
  {
    hide EscapedChar;
    if s == "" {
      assert s + t == t;
    } else {
      assert (s + t)[1..] == s[1..] + t;
      EscapedSum(s[1..], t);
    }
  }

  /** Four of them by a backslash and a letter or themselves, all others not. */
  lemma EscapedAlone(c: char)
    ensures EscapeSimpleQuotedStringContents([c])
         == if c == '\r' then ['\\', 'r'] else if c == '\n' then ['\\', 'n']
            else if c == '\\' || c == '\"' then ['\\', c] else [c]
  {
    assert [c][1..] == "";
  }

  // ----- unescaping

  /** The decoding of the rest of a string, after a backslash or not. */
  function Unescaped(s: string, escaping: bool): Option<string> {
    if s == [] then Some("")
    else match s[0]
      case '\\' => if escaping then Prefixed('\\', Unescaped(s[1..], false)) else Unescaped(s[1..], true)
      case '\"' => if escaping then Prefixed('\"', Unescaped(s[1..], false)) else None
      case '\r' => None
      case '\n' => None
      case c =>
        if !escaping then Prefixed(c, Unescaped(s[1..], false))
        else if c == 'r' then Prefixed('\r', Unescaped(s[1..], false))
        else if c == 'n' then Prefixed('\n', Unescaped(s[1..], false))
        else None
  }

  function Prefixed(c: char, r: Option<string>): Option<string> {
    if r.None? then None else Some([c] + r.value)
  }

  method UnescapeSimpleQuotedStringContents(str: string) returns (r: Option<string>)
    ensures r == Unescaped(str, false)
  {
    var ret := "";
    var escaping := false;
    assert str[0..] == str;
    assert Unescaped(str, false) == Appended("", Unescaped(str, false)) by {
      AppendPrefixed("", str);
    }
    for i := 0 to |str|
      invariant Unescaped(str, false) == Appended(ret, Unescaped(str[i..], escaping))
    {
      var c := str[i];
      assert str[i..][1..] == str[i + 1..];
      AppendPrefixed(ret, str[i + 1..]);
      match c
      case '\\' =>
        if escaping {
          ret := ret + "\\";
        }
        escaping := !escaping;
      case '\"' =>
        if !escaping {
          return None;
        }
        ret := ret + "\"";
        escaping := false;
      case '\r' =>
        return None;
      case '\n' =>
        return None;
      case _ =>
        if escaping {
          if c == 'r' {
            ret := ret + "\r";
          } else if c == 'n' {
            ret := ret + "\n";
          } else {
            return None;
          }
        } else {
          ret := ret + [c];
        }
        escaping := false;
    }
    assert str[|str|..] == "" && ret + "" == ret;
    return Some(ret);
  }

  ghost function Appended(ret: string, r: Option<string>): Option<string> {
    if r.None? then None else Some(ret + r.value)
  }

  lemma AppendPrefixed(ret: string, rest: string)
    ensures forall c: char ::
              Appended(ret, Prefixed(c, Unescaped(rest, false))) == Appended(ret + [c], Unescaped(rest, false))
    ensures Appended("", Unescaped(rest, false)) == Unescaped(rest, false)
  {
    var r := Unescaped(rest, false);
    if r.Some? {
      assert "" + r.value == r.value;
    }
    forall c: char ensures Appended(ret, Prefixed(c, r)) == Appended(ret + [c], r) {
      if r.Some? {
        assert ret + ([c] + r.value) == ret + [c] + r.value;
      }
    }
  }

  predicate IsQuoted(s: string) {
    |s| >= 2 && s[0] == '\"' && s[|s| - 1] == '\"'
  }

  method UnescapeSimpleQuotedString(str: string) returns (r: Option<string>)
    ensures r == if IsQuoted(str) then Unescaped(str[1..|str| - 1], false) else None
  {
    if |str| < 2 || str[0] != '\"' || str[|str| - 1] != '\"' {
      return None;
    }
    r := UnescapeSimpleQuotedStringContents(str[1..|str| - 1]);
  }

  /** What UnescapeSimpleQuotedStringIfNeeded returns. */
  ghost function UnescapedIfNeeded(s: string): Option<string> {
    if IsQuoted(s) then Unescaped(s[1..|s| - 1], false) else Some(s)
  }

  method UnescapeSimpleQuotedStringIfNeeded(str: string) returns (r: Option<string>)
    ensures r == UnescapedIfNeeded(str)
  {
    if |str| >= 2 && str[0] == '\"' && str[|str| - 1] == '\"' {
      r := UnescapeSimpleQuotedString(str);
    } else {
      r := Some(str);
    }
  }

  /** What stands between two quotes is decoded, and every other string stands for itself. */
  lemma QuotedOrNot(s: string, contents: string)
    ensures IsQuoted(s) <==> exists t: string :: s == "\"" + t + "\""
    ensures s == "\"" + contents + "\"" ==> UnescapedIfNeeded(s) == Unescaped(contents, false)
    ensures (forall t: string :: s != "\"" + t + "\"") ==> UnescapedIfNeeded(s) == Some(s)
  {
    hide Unescaped;
    if IsQuoted(s) {
      assert s == "\"" + s[1..|s| - 1] + "\"";
    }
    if s == "\"" + contents + "\"" {
      assert s[1..|s| - 1] == contents;
    }
  }

  // ----- round trips

  lemma UnescapeChar(c: char, t: string)
    ensures Unescaped(EscapedChar(c) + t, false) == Prefixed(c, Unescaped(t, false))
  {
    var e := EscapedChar(c);
    assert (e + t)[|e|..] == t;
    assert |e| == 2 ==> (e + t)[1..][1..] == t;
  }

  lemma {:induction false} UnescapeEscaped(s: string, rest: string)
    ensures Unescaped(EscapeSimpleQuotedStringContents(s) + rest, false) == Appended(s, Unescaped(rest, false))
  {
    hide Unescaped, EscapedChar;
    if s == [] {
      AppendPrefixed("", rest);
      assert EscapeSimpleQuotedStringContents(s) + rest == rest;
    } else {
      var t := EscapeSimpleQuotedStringContents(s[1..]) + rest;
      assert EscapeSimpleQuotedStringContents(s) + rest == EscapedChar(s[0]) + t;
      UnescapeEscaped(s[1..], rest);
      UnescapeChar(s[0], t);
      AppendToPrefix(s, Unescaped(rest, false));
    }
  }

  lemma AppendToPrefix(s: string, r: Option<string>)
    requires s != []
    ensures Prefixed(s[0], Appended(s[1..], r)) == Appended(s, r)
  {
    if r.Some? {
      assert [s[0]] + (s[1..] + r.value) == s + r.value;
    }
  }

  /** Unescaping undoes escaping. */
  lemma UnescapeContents(s: string)
    ensures Unescaped(EscapeSimpleQuotedStringContents(s), false) == Some(s)
  {
    UnescapeEscaped(s, "");
    assert EscapeSimpleQuotedStringContents(s) + "" == EscapeSimpleQuotedStringContents(s);
    assert s + "" == s;
  }

  lemma UnescapeQuoted(s: string)
    ensures IsQuoted(EscapeSimpleQuotedString(s))
    ensures UnescapedIfNeeded(EscapeSimpleQuotedString(s)) == Some(s)
  {
    var q := EscapeSimpleQuotedString(s);
    assert q[1..|q| - 1] == EscapeSimpleQuotedStringContents(s);
    UnescapeContents(s);
  }

  /** Also when quotes are added only where they are needed: a string that begins with a quote needs them. */
  lemma UnescapeIfNeeded(s: string)
    ensures UnescapedIfNeeded(EscapeSimpleQuotedStringIfNeeded(s)) == Some(s)
  {
    if IsQuoted(s) {
      assert s[0] in s;
    }
    if NeedsQuotes(s) {
      UnescapeQuoted(s);
    }
  }

  /** A single backslash at the end, which unescaping drops silently. */
  predicate Dangles(s: string, escaping: bool) {
    if s == [] then escaping else Dangles(s[1..], s[0] == '\\' && !escaping)
  }

  /** What one accepted character stands for, if it does not begin an escape. */
  lemma AcceptedChar(t: string, escaping: bool) returns (d: char)
    requires t != [] && Unescaped(t, escaping).Some?
    ensures var escaping' := t[0] == '\\' && !escaping;
            && Unescaped(t[1..], escaping').Some?
            && (escaping' ==> Unescaped(t, escaping) == Unescaped(t[1..], true))
            && (!escaping' ==> Unescaped(t, escaping) == Prefixed(d, Unescaped(t[1..], false))
                               && (if escaping then ['\\', t[0]] else [t[0]]) == EscapedChar(d))
  {
    d := if t[0] == '\\' || t[0] == '\"' || !escaping then t[0] else if t[0] == 'r' then '\r' else '\n';
  }

  function Backslash(present: bool): string {
    if present then "\\" else ""
  }

  /** Every accepted string is the escaped form of what it stands for, except for a dangling backslash. */
  lemma {:induction false} EscapeUnescaped(t: string, escaping: bool)
    requires Unescaped(t, escaping).Some?
    ensures Backslash(escaping) + t
         == EscapeSimpleQuotedStringContents(Unescaped(t, escaping).value) + Backslash(Dangles(t, escaping))
  {
    if t == [] {
    } else {
      var d := AcceptedChar(t, escaping);
      var escaping' := t[0] == '\\' && !escaping;
      var dangles := Dangles(t, escaping);
      assert dangles == Dangles(t[1..], escaping');
      hide Unescaped, EscapedChar, EscapeSimpleQuotedStringContents, Dangles, Backslash;
      EscapeUnescaped(t[1..], escaping');
      FirstChar(t, escaping);
      if !escaping' {
        EscapePrefixed(d, Unescaped(t[1..], false).value, Backslash(dangles));
      }
    }
  }

  lemma FirstChar(t: string, escaping: bool)
    requires t != []
    ensures !escaping && t[0] == '\\' ==> Backslash(escaping) + t == Backslash(true) + t[1..]
    ensures Backslash(escaping) + t == (if escaping then ['\\', t[0]] else [t[0]]) + (Backslash(false) + t[1..])
  {
  }

  lemma EscapePrefixed(d: char, rest: string, tail: string)
    ensures EscapeSimpleQuotedStringContents([d] + rest) + tail
         == EscapedChar(d) + (EscapeSimpleQuotedStringContents(rest) + tail)
  {
    assert ([d] + rest)[1..] == rest;
  }

  /** So escaping undoes unescaping exactly on the strings without a dangling backslash. */
  lemma EscapeContents(t: string, s: string)
    requires Unescaped(t, false) == Some(s)
    ensures EscapeSimpleQuotedStringContents(s) == t <==> !Dangles(t, false)
  {
    EscapeUnescaped(t, false);
    assert "" + t == t;
    var e := EscapeSimpleQuotedStringContents(s);
    assert |e + "\\"| == |e| + 1;
    assert e + "" == e;
  }

  lemma DanglingBackslash()
    ensures Unescaped("a\\", false) == Some("a") && Dangles("a\\", false)
    ensures EscapeSimpleQuotedStringContents("a") != "a\\"
  {
    var t := "a\\";
    assert t[1..] == "\\" && t[1..][1..] == "";
    assert Unescaped(t[1..], false) == Unescaped("", true) == Some("");
    assert Unescaped(t, false) == Prefixed('a', Some(""));
    assert "a" + "" == "a";
    assert Dangles(t[1..], false) == Dangles("", true);
    assert "a"[1..] == "";
  }
}
