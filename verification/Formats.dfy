/** What fmt.Fprintf writes for a format without arguments.

    Requests pass their finished text as a format to textproto's Cmd, which hands it to fmt.Fprintf.  A format is a
    sequence of Unicode scalar values, and the parts of a directive are taken in the order in which Go's fmt package
    looks for them: flags, argument index, width, precision, argument index, verb.
 */
module Formats {
  import opened QuotedStrings

  /** A request is one line. */
  predicate IsLine(s: string) {
    '\r' !in s && '\n' !in s
  }

  /** Go's strings.Join with a space. */
  function Joined(words: seq<string>): string {
    if words == [] then "" else if |words| == 1 then words[0] else words[0] + " " + Joined(words[1..])
  }

  lemma {:induction false} JoinedLast(words: seq<string>, last: string)
    requires words != []
    ensures Joined(words + [last]) == Joined(words) + " " + last
  {
    if |words| > 1 {
      JoinedLast(words[1..], last);
      assert (words + [last])[1..] == words[1..] + [last];
    } else {
      assert (words + [last])[1..] == [last];
    }
  }

  // ----- directives

  predicate IsFlag(c: char) {
    c == '#' || c == '0' || c == '+' || c == '-' || c == ' '
  }

  predicate IsDigit(c: char) {
    '0' <= c <= '9'
  }

  /** A directive as far as it is parsed: what was written for it, what follows, whether the last part was an argument
      index with a number, and whether any argument index was there, which without arguments is always a bad one. */
  datatype Spec = Spec(out: string, rest: string, indexed: bool, bad: bool)

  predicate StartsWith(s: string, c: char) {
    s != "" && s[0] == c
  }

  function AfterFlags(s: string): string {
    if s != "" && IsFlag(s[0]) then AfterFlags(s[1..]) else s
  }

  /** Digits up to the next character that is none; a number that gets beyond a million takes the whole rest. */
  function AfterNumber(s: string, n: nat): string {
    if s == "" || !IsDigit(s[0]) then s
    else if n > 1000000 then ""
    else AfterNumber(s[1..], 10 * n + (s[0] as nat - '0' as nat))
  }

  /** Whether a text is a number, and not too large a one. */
  predicate IsNumber(s: string, n: nat)
    decreases s
  {
    if s == "" then false
    else IsDigit(s[0]) && n <= 1000000
         && (|s| == 1 || IsNumber(s[1..], 10 * n + (s[0] as nat - '0' as nat)))
  }

  function Index(d: Spec): Spec {
    if !StartsWith(d.rest, '[') then d.(indexed := false)
    else
      var k := IndexByte(d.rest, ']');
      if k == -1 || |d.rest| < 3 then Spec(d.out, d.rest[1..], false, true)
      else Spec(d.out, d.rest[k + 1..], IsNumber(d.rest[1..k], 0), true)
  }

  function Width(d: Spec): Spec {
    if StartsWith(d.rest, '*') then Spec(d.out + "%!(BADWIDTH)", d.rest[1..], false, d.bad)
    else d.(rest := AfterNumber(d.rest, 0))
  }

  function Precision(d: Spec): Spec {
    if !StartsWith(d.rest, '.') then d
    else
      var e := Index(d.(rest := d.rest[1..]));
      if StartsWith(e.rest, '*') then Spec(e.out + "%!(BADPREC)", e.rest[1..], false, e.bad)
      else e.(rest := AfterNumber(e.rest, 0))
  }

  /** Everything of a directive between its percent sign and its verb. */
  function Parsed(s: string): Spec {
    var d := Precision(Width(Index(Spec("", AfterFlags(s), false, false))));
    if d.indexed then d else Index(d)
  }

  /** What a verb writes when there are no arguments. */
  function VerbText(c: char, bad: bool): string {
    if c == '%' then "%" else "%!" + [c] + if bad then "(BADINDEX)" else "(MISSING)"
  }

  /** What a directive writes, and what follows it, both from behind its percent sign. */
  function Directive(s: string): (r: (string, string)) {
    var d := Parsed(s);
    if d.rest == "" then (d.out + "%!(NOVERB)", "") else (d.out + VerbText(d.rest[0], d.bad), d.rest[1..])
  }

  function Sprintf(format: string): string
    decreases |format|
  {
    if format == "" then ""
    else if format[0] != '%' then [format[0]] + Sprintf(format[1..])
    else
      var (out, rest) := Directive(format[1..]);
      DirectiveTakes(format[1..]);
      out + Sprintf(rest)
  }

  // ----- what a directive takes

  /** The characters that may follow a percent sign in front of the verb. */
  predicate IsPart(c: char) {
    IsFlag(c) || IsDigit(c) || c == '[' || c == '*' || c == '.'
  }

  /** The parts taken so far are the beginning of s and start with a character of a part. */
  ghost predicate Takes(s: string, rest: string) {
    |rest| <= |s| && rest == s[|s| - |rest|..] && (|rest| < |s| ==> IsPart(s[0]))
  }

  lemma TakesMore(s: string, mid: string, rest: string)
    requires Takes(s, mid) && Takes(mid, rest)
    ensures Takes(s, rest) && |rest| <= |mid| <= |s|
  {
  }

  lemma TakesOne(s: string)
    ensures Takes(s, s)
    ensures s != "" && IsPart(s[0]) ==> Takes(s, s[1..])
  {
  }

  lemma {:induction false} FlagsTake(s: string)
    ensures Takes(s, AfterFlags(s))
  {
    if s != "" && IsFlag(s[0]) {
      FlagsTake(s[1..]);
    }
  }

  lemma {:induction false} NumberTakes(s: string, n: nat)
    ensures Takes(s, AfterNumber(s, n))
    decreases s
  {
    if s != "" && IsDigit(s[0]) && n <= 1000000 {
      NumberTakes(s[1..], 10 * n + (s[0] as nat - '0' as nat));
    }
  }

  lemma IndexTakes(d: Spec)
    ensures Takes(d.rest, Index(d).rest) && Index(d).out == d.out
  {
    hide IndexByte, IsNumber;
  }

  lemma WidthTakes(d: Spec)
    ensures Takes(d.rest, Width(d).rest)
    ensures Width(d).out == d.out || (Width(d).out == d.out + "%!(BADWIDTH)" && |Width(d).rest| < |d.rest|)
  {
    NumberTakes(d.rest, 0);
  }

  lemma PrecisionTakes(d: Spec)
    ensures Takes(d.rest, Precision(d).rest)
    ensures Precision(d).out == d.out
            || (Precision(d).out == d.out + "%!(BADPREC)" && |Precision(d).rest| < |d.rest|)
  {
    hide AfterNumber, Index, Takes;
    TakesOne(d.rest);
    if StartsWith(d.rest, '.') {
      var c := d.(rest := d.rest[1..]);
      var e := Index(c);
      IndexTakes(c);
      NumberTakes(e.rest, 0);
      TakesOne(e.rest);
      TakesMore(d.rest, c.rest, e.rest);
      TakesMore(d.rest, e.rest, Precision(d).rest);
    }
  }

  /** The errors that are written before the verb. */
  ghost predicate IsErrors(out: string) {
    out == "" || out == "%!(BADWIDTH)" || out == "%!(BADPREC)" || out == "%!(BADWIDTH)%!(BADPREC)"
  }

  lemma ParsedTakes(s: string)
    ensures Takes(s, Parsed(s).rest) && IsErrors(Parsed(s).out)
    ensures Parsed(s).out != "" ==> |Parsed(s).rest| < |s|
  {
    hide AfterFlags, Index, Width, Precision, Takes, IsErrors;
    var a := Spec("", AfterFlags(s), false, false);
    var b := Index(a);
    var c := Width(b);
    var d := Precision(c);
    FlagsTake(s);
    IndexTakes(a);
    WidthTakes(b);
    PrecisionTakes(c);
    IndexTakes(d);
    TakesMore(s, a.rest, b.rest);
    TakesMore(s, b.rest, c.rest);
    TakesMore(s, c.rest, d.rest);
    TakesMore(s, d.rest, Index(d).rest);
    ErrorsJoined(c.out, d.out);
  }

  lemma ErrorsJoined(width: string, both: string)
    requires width == "" || width == "" + "%!(BADWIDTH)"
    requires both == width || both == width + "%!(BADPREC)"
    ensures IsErrors(both) && (both != "" ==> width != "" || both != width)
  {
    assert "" + "%!(BADWIDTH)" == "%!(BADWIDTH)";
    assert "" + "%!(BADPREC)" == "%!(BADPREC)";
    BothErrors();
  }

  lemma BothErrors()
    ensures "%!(BADWIDTH)" + "%!(BADPREC)" == "%!(BADWIDTH)%!(BADPREC)"
  {
  }

  lemma DirectiveTakes(s: string)
    ensures |Directive(s).1| <= |s|
  {
    ParsedTakes(s);
    hide Parsed;
  }

  // ----- a format is kept only if it has no directive

  /** What quoting and escaping leave alone: a text without quotes and backslashes, a line end being its letter. */
  function Skeleton(s: string): string {
    if s == "" then "" else SkeletonChar(s[0]) + Skeleton(s[1..])
  }

  function SkeletonChar(c: char): string {
    match c
    case '\"' => ""
    case '\\' => ""
    case '\n' => "n"
    case '\r' => "r"
    case _ => [c]
  }

  lemma {:induction false} SkeletonSum(a: string, b: string)
    ensures Skeleton(a + b) == Skeleton(a) + Skeleton(b)
  {
    if a == "" {
      assert a + b == b;
    } else {
      assert (a + b)[1..] == a[1..] + b;
      SkeletonSum(a[1..], b);
      hide SkeletonChar;
      assert Skeleton(a + b) == SkeletonChar(a[0]) + (Skeleton(a[1..]) + Skeleton(b));
    }
  }

  lemma SkeletonOfChar(c: char)
    ensures Skeleton([c]) == SkeletonChar(c)
  {
    assert [c][1..] == "";
  }

  /** A text that is its own skeleton. */
  lemma {:induction false} SkeletonOfPlain(s: string)
    requires forall i :: 0 <= i < |s| ==> SkeletonChar(s[i]) == [s[i]]
    ensures Skeleton(s) == s
  {
    if s != "" {
      SkeletonOfPlain(s[1..]);
    }
  }

  /** Every percent sign but one at the end has an exclamation mark behind it. */
  ghost predicate ShowsErrors(o: string) {
    forall i :: 0 <= i < |o| - 1 && o[i] == '%' ==> o[i + 1] == '!'
  }

  /** A directive with parts, or a doubled percent sign, in terms of skeletons: o is written for g. */
  ghost predicate IsLong(g: string, o: string) {
    && |g| >= 2 && g[0] == '%' && g[1] != '!'
    && ShowsErrors(o) && (o == "%" || (|o| >= 2 && o[0] == '%' && o[1] == '!'))
  }

  /** A directive that is only a verb, or not even that. */
  ghost predicate IsShort(g: string, o: string, v: string, e: string) {
    |v| <= 1 && '%' !in v && '%' !in e && g == "%" + v && o == "%!" + v + e
  }

  /** The text of a directive from its percent sign on. */
  ghost function Taken(s: string): string {
    DirectiveTakes(s);
    "%" + s[..|s| - |Directive(s).1|]
  }

  lemma TakenAndRest(s: string)
    ensures |Directive(s).1| <= |s| && "%" + s == Taken(s) + Directive(s).1
  {
    ParsedTakes(s);
    hide Parsed;
  }

  lemma ShowsBoth(a: string, b: string)
    requires ShowsErrors(a) && ShowsErrors(b) && (a == "" || a[|a| - 1] != '%')
    ensures ShowsErrors(a + b)
  {
  }

  lemma ErrorsShown(out: string)
    requires IsErrors(out)
    ensures Skeleton(out) == out && ShowsErrors(out)
    ensures out != "" ==> |out| > 2 && out[|out| - 1] == ')' && out[0] == '%' && out[1] == '!'
  {
    hide Skeleton;
    var w, p := "%!(BADWIDTH)", "%!(BADPREC)";
    if out == "" {
      SkeletonOfPlain("");
    } else if out == w {
      BadWidth();
    } else if out == p {
      BadPrec();
    } else {
      BothErrors();
      BadWidth();
      BadPrec();
      assert out == w + p;
      SkeletonSum(w, p);
      ShowsBoth(w, p);
    }
  }

  lemma BadWidth()
    ensures var w := "%!(BADWIDTH)"; Skeleton(w) == w && ShowsErrors(w)
  {
    hide Skeleton;
    SkeletonOfPlain("%!(BADWIDTH)");
  }

  lemma BadPrec()
    ensures var p := "%!(BADPREC)"; Skeleton(p) == p && ShowsErrors(p)
  {
    hide Skeleton;
    SkeletonOfPlain("%!(BADPREC)");
  }

  lemma ErrorNames()
    ensures Skeleton("(BADINDEX)") == "(BADINDEX)" && '%' !in "(BADINDEX)"
    ensures Skeleton("(MISSING)") == "(MISSING)" && '%' !in "(MISSING)"
    ensures Skeleton("(NOVERB)") == "(NOVERB)" && '%' !in "(NOVERB)"
    ensures Skeleton("%!") == "%!" && Skeleton("%") == "%"
  {
    hide Skeleton;
    SkeletonOfPlain("(BADINDEX)");
    SkeletonOfPlain("(MISSING)");
    SkeletonOfPlain("(NOVERB)");
    SkeletonOfPlain("%!");
    SkeletonOfPlain("%");
  }

  /** What the verb adds. */
  lemma VerbShown(c: char, bad: bool) returns (e: string)
    ensures var t := Skeleton(VerbText(c, bad));
            '%' !in e && t == if c == '%' then "%" else "%!" + SkeletonChar(c) + e
  {
    hide Skeleton;
    ErrorNames();
    e := if bad then "(BADINDEX)" else "(MISSING)";
    SkeletonSum("%!" + [c], e);
    SkeletonSum("%!", [c]);
    SkeletonOfChar(c);
  }

  lemma PartShown(u: string)
    requires |u| >= 2 && u[0] == '%' && IsPart(u[1])
    ensures |Skeleton(u)| >= 2 && Skeleton(u)[0] == '%' && Skeleton(u)[1] == u[1] != '!'
  {
    assert u[1..][0] == u[1];
    assert Skeleton(u) == "%" + ([u[1]] + Skeleton(u[1..][1..]));
  }

  lemma CharShown(c: char)
    ensures Skeleton("%" + [c]) == "%" + SkeletonChar(c) && Skeleton("%") == "%"
  {
    SkeletonOfPlain("%");
    SkeletonSum("%", [c]);
    SkeletonOfChar(c);
  }

  /** Errors and what the verb adds, behind a part. */
  lemma LongShown(a: string, b: string, x: string, g: string)
    requires IsErrors(a) && '%' !in x && (b == "%" || b == "%!" + x)
    requires |g| >= 2 && g[0] == '%' && g[1] != '!'
    ensures IsLong(g, a + b)
  {
    ErrorsShown(a);
    hide IsErrors;
    ShowsBoth(a, b);
  }

  /** What the verb adds, or its absence, in terms of skeletons. */
  lemma TailShown(d: Spec) returns (v: string, e: string)
    ensures v == if d.rest == "" then "" else SkeletonChar(d.rest[0])
    ensures |v| <= 1 && (v == "%" || '%' !in v)
    ensures var t := if d.rest == "" then "%!(NOVERB)" else VerbText(d.rest[0], d.bad);
            '%' !in e && Skeleton(t) == if v == "%" then "%" else "%!" + v + e
  {
    hide Skeleton, VerbText;
    if d.rest == "" {
      ErrorNames();
      v, e := "", "(NOVERB)";
      SkeletonSum("%!", e);
      assert "%!" + v + e == "%!" + e == "%!(NOVERB)";
    } else {
      v := SkeletonChar(d.rest[0]);
      e := VerbShown(d.rest[0], d.bad);
    }
  }

  lemma OnlyVerb(s: string)
    requires |Parsed(s).rest| == |s|
    ensures Skeleton(Taken(s)) == "%" + if s == "" then "" else SkeletonChar(s[0])
  {
    ParsedTakes(s);
    hide Parsed, Skeleton;
    if s == "" {
      assert Taken(s) == "%";
      ErrorNames();
    } else {
      assert Taken(s) == "%" + [s[0]];
      CharShown(s[0]);
    }
  }

  lemma DirectiveShown(s: string) returns (v: string, e: string)
    ensures var (g, o) := (Skeleton(Taken(s)), Skeleton(Directive(s).0));
            IsLong(g, o) || IsShort(g, o, v, e)
  {
    hide Parsed, VerbText, Skeleton, IsErrors, SkeletonChar, Takes, Taken, IsLong, IsShort;
    ParsedTakes(s);
    var d := Parsed(s);
    var t := if d.rest == "" then "%!(NOVERB)" else VerbText(d.rest[0], d.bad);
    v, e := TailShown(d);
    SkeletonSum(d.out, t);
    ErrorsShown(d.out);
    IsWhole(s, d.rest);
    if |d.rest| < |s| {
      PartsTaken(s);
      assert "%!" + v + e == "%!" + (v + e);
      LongShown(d.out, Skeleton(t), if v == "%" then "" else v + e, Skeleton(Taken(s)));
    } else {
      OnlyVerb(s);
      VerbIsShort(v, e, Skeleton(t));
      assert "" + Skeleton(t) == Skeleton(t);
    }
  }

  lemma IsWhole(s: string, rest: string)
    requires Takes(s, rest)
    ensures |rest| <= |s| && (|rest| == |s| ==> rest == s)
  {
  }

  lemma PartsTaken(s: string)
    requires |Parsed(s).rest| < |s|
    ensures var g := Skeleton(Taken(s)); |g| >= 2 && g[0] == '%' && g[1] != '!'
  {
    ParsedTakes(s);
    hide Parsed, Skeleton;
    PartShown(Taken(s));
  }

  lemma VerbIsShort(v: string, e: string, o: string)
    requires |v| <= 1 && '%' !in e && o == if v == "%" then "%" else "%!" + v + e
    ensures IsLong("%" + v, o) || IsShort("%" + v, o, v, e)
  {
  }

  // ----- the main theorem: reading on, what is written never catches up with what is read

  lemma Step(format: string, o: string, g: string)
    requires format != "" && format[0] == '%'
    requires o == Skeleton(Directive(format[1..]).0) && g == Skeleton(Taken(format[1..]))
    ensures var rest := Directive(format[1..]).1;
            && |rest| < |format| && Skeleton(Sprintf(format)) == o + Skeleton(Sprintf(rest))
            && Skeleton(format) == g + Skeleton(rest)
  {
    var (out, rest) := Directive(format[1..]);
    TakenAndRest(format[1..]);
    assert format == "%" + format[1..];
    hide Directive, Skeleton;
    SkeletonSum(out, Sprintf(rest));
    SkeletonSum(Taken(format[1..]), rest);
  }

  lemma TextStep(format: string)
    requires format != "" && format[0] != '%'
    ensures Skeleton(Sprintf(format)) == SkeletonChar(format[0]) + Skeleton(Sprintf(format[1..]))
    ensures Skeleton(format) == SkeletonChar(format[0]) + Skeleton(format[1..])
  {
    SkeletonSum([format[0]], Sprintf(format[1..]));
    SkeletonOfChar(format[0]);
  }

  /** What is written never has all that is read at its end, behind more. */
  lemma {:induction false} NeverAhead(r: string, q: string)
    requires q != ""
    ensures Skeleton(Sprintf(r)) != q + Skeleton(r)
    decreases |r|
  {
    if r == "" {
    } else if r[0] != '%' {
      TextStep(r);
      var c := SkeletonChar(r[0]);
      hide Sprintf, Skeleton, SkeletonChar;
      assert |c| <= 1 by { CharLength(r[0]); }
      if Skeleton(Sprintf(r)) == q + Skeleton(r) {
        assert q + (c + Skeleton(r[1..])) == q + c + Skeleton(r[1..]);
        var q' := Behind(q + c, c, Skeleton(Sprintf(r[1..])), Skeleton(r[1..]));
        NeverAhead(r[1..], q');
      }
    } else {
      hide Sprintf, Skeleton;
      if Skeleton(Sprintf(r)) == q + Skeleton(r) {
        var rest, q' := AheadOfDirective(r, q);
        NeverAhead(rest, q');
      }
    }
  }

  lemma CharLength(c: char)
    ensures |SkeletonChar(c)| <= 1 && (c != '%' ==> '%' !in SkeletonChar(c))
  {
  }

  lemma AheadOfDirective(r: string, q: string) returns (rest: string, q': string)
    requires r != "" && r[0] == '%' && q != "" && Skeleton(Sprintf(r)) == q + Skeleton(r)
    ensures |rest| < |r| && q' != "" && Skeleton(Sprintf(rest)) == q' + Skeleton(rest)
  {
    hide Sprintf, Skeleton, Directive, Taken;
    var v, e := DirectiveShown(r[1..]);
    var o, g := Skeleton(Directive(r[1..]).0), Skeleton(Taken(r[1..]));
    Step(r, o, g);
    rest := Directive(r[1..]).1;
    hide IsLong, IsShort;
    var x, y := Skeleton(Sprintf(rest)), Skeleton(rest);
    NotBefore(o, q, g, v, e, x, y);
    assert q + (g + y) == q + g + y;
    q' := Behind(q + g, o, x, y);
  }

  lemma Behind(a: string, b: string, x: string, y: string) returns (q: string)
    requires |b| < |a| && b + x == a + y
    ensures q != "" && x == q + y && a == b + q
  {
    q := a[|b|..];
    assert b == (b + x)[..|b|] == a[..|b|];
    assert x == (b + x)[|b|..] == (a + y)[|b|..];
  }

  /** A directive does not write itself behind something else. */
  lemma NotBefore(o: string, q: string, g: string, v: string, e: string, x: string, y: string)
    requires IsLong(g, o) || IsShort(g, o, v, e)
    requires q != "" && o + x == q + (g + y)
    ensures |o| < |q + g|
  {
    Overlap(o, q, g, x, y);
    if IsShort(g, o, v, e) {
      OnePercent(v, e);
    }
  }

  lemma Overlap(o: string, q: string, g: string, x: string, y: string)
    requires o + x == q + (g + y) && g != ""
    ensures |q| + |g| <= |o| ==> o[|q|] == g[0] && (|g| >= 2 ==> o[|q| + 1] == g[1])
  {
    if |q| + |g| <= |o| {
      assert o[|q|] == (o + x)[|q|] == (g + y)[0];
      if |g| >= 2 {
        assert o[|q| + 1] == (o + x)[|q| + 1] == (g + y)[1];
      }
    }
  }

  lemma OnePercent(v: string, e: string)
    requires '%' !in v && '%' !in e
    ensures forall k :: 1 <= k < |"%!" + v + e| ==> ("%!" + v + e)[k] != '%'
  {
  }

  /** Nor is the rest of what is read ever what is written behind a text. */
  lemma {:induction false} NeverBehind(r: string, e: string)
    requires e != "" && '%' !in e
    ensures e + Skeleton(Sprintf(r)) != Skeleton(r)
    decreases |r|
  {
    if r == "" {
    } else if r[0] != '%' {
      TextStep(r);
      var c := SkeletonChar(r[0]);
      hide Sprintf, Skeleton, SkeletonChar;
      assert |c| <= 1 && '%' !in c by { CharLength(r[0]); }
      var x, y := Skeleton(Sprintf(r[1..])), Skeleton(r[1..]);
      if e + Skeleton(Sprintf(r)) == Skeleton(r) {
        assert e + (c + x) == e + c + x;
        var e' := Behind(e + c, c, y, x);
        NoPercentIn(e, c, e');
        NeverBehind(r[1..], e');
      }
    } else {
      StartsWithPercent(r);
      hide Skeleton, Sprintf;
      assert (e + Skeleton(Sprintf(r)))[0] == e[0];
    }
  }

  lemma NoPercentIn(e: string, c: string, e': string)
    requires '%' !in e && '%' !in c && e + c == c + e'
    ensures '%' !in e'
  {
    assert '%' !in e + c;
    assert forall i :: 0 <= i < |e'| ==> e'[i] == (c + e')[|c| + i];
  }

  lemma StartsWithPercent(r: string)
    requires r != "" && r[0] == '%'
    ensures Skeleton(r) != "" && Skeleton(r)[0] == '%'
  {
  }

  /** Without a directive a format is written as it is. */
  lemma {:induction false} TextIsKept(format: string)
    requires '%' !in format
    ensures Sprintf(format) == format
  {
    if format != "" {
      TextIsKept(format[1..]);
    }
  }

  /** A directive changes it, even up to quotes and backslashes. */
  lemma {:induction false} DirectiveChanges(format: string)
    requires '%' in format
    ensures Skeleton(Sprintf(format)) != Skeleton(format)
    decreases |format|
  {
    if format[0] != '%' {
      TextStep(format);
      hide Sprintf, Skeleton;
      DirectiveChanges(format[1..]);
      Cancel(SkeletonChar(format[0]), Skeleton(Sprintf(format[1..])), Skeleton(format[1..]));
    } else {
      hide Sprintf, Skeleton, Directive, Taken;
      var v, e := DirectiveShown(format[1..]);
      var o, g := Skeleton(Directive(format[1..]).0), Skeleton(Taken(format[1..]));
      Step(format, o, g);
      var rest := Directive(format[1..]).1;
      if IsLong(g, o) {
        NeverAhead(rest, g[1..]);
        LongDiffers(o, g, Skeleton(Sprintf(rest)), Skeleton(rest));
      } else {
        NeverBehind(rest, "!" + e);
        ShortDiffers(o, g, v, e, Skeleton(Sprintf(rest)), Skeleton(rest));
      }
    }
  }

  lemma Cancel(c: string, x: string, y: string)
    requires x != y
    ensures c + x != c + y
  {
    assert (c + x)[|c|..] == x && (c + y)[|c|..] == y;
  }

  lemma LongDiffers(o: string, g: string, x: string, y: string)
    requires IsLong(g, o) && x != g[1..] + y
    ensures o + x != g + y
  {
    if o == "%" {
      assert (o + x)[1..] == x && (g + y)[1..] == g[1..] + y;
    } else {
      assert (o + x)[1] == o[1] && (g + y)[1] == g[1];
    }
  }

  lemma ShortDiffers(o: string, g: string, v: string, e: string, x: string, y: string)
    requires IsShort(g, o, v, e) && "!" + e + x != y
    ensures o + x != g + y
  {
    if v == "" {
      assert (o + x)[1..] == "!" + e + x && (g + y)[1..] == y;
    } else if v == "!" {
      assert (o + x)[2..] == "!" + e + x && (g + y)[2..] == y;
    } else {
      assert (o + x)[1] == '!' && (g + y)[1] == v[0];
    }
  }

  /** A format without arguments is written as it is exactly when it has no percent sign. */
  lemma FormatIsKept(format: string)
    ensures Sprintf(format) == format <==> '%' !in format
    ensures Skeleton(Sprintf(format)) == Skeleton(format) <==> '%' !in format
  {
    if '%' in format {
      DirectiveChanges(format);
    } else {
      TextIsKept(format);
    }
  }

  // ----- examples

  lemma {:induction false} TextThen(text: string, rest: string)
    requires '%' !in text
    ensures Sprintf(text + rest) == text + Sprintf(rest)
  {
    if text == "" {
      assert text + rest == rest;
    } else {
      var s := text + rest;
      assert s[1..] == text[1..] + rest;
      TextThen(text[1..], rest);
      CharKept(s);
      hide Sprintf;
      assert [text[0]] + (text[1..] + Sprintf(rest)) == text + Sprintf(rest);
    }
  }

  lemma CharKept(s: string)
    requires s != "" && s[0] != '%'
    ensures Sprintf(s) == [s[0]] + Sprintf(s[1..])
  {
  }

  lemma NoVerb()
    ensures Sprintf("%") == "%!(NOVERB)"
  {
    assert "%"[1..] == "";
    assert Parsed("") == Spec("", "", false, false);
  }

  /** A space is a flag, so the next character is the verb. */
  lemma SpaceAndVerb()
    ensures Sprintf("% B=1") == "%!B(MISSING)=1"
  {
    assert "% B=1"[1..] == " B=1" && " B=1"[1..] == "B=1" && "B=1"[1..] == "=1";
    assert AfterFlags(" B=1") == "B=1";
    assert Parsed(" B=1") == Spec("", "B=1", false, false);
    assert "%!" + ['B'] + "(MISSING)" == "%!B(MISSING)";
    assert VerbText('B', false) == "%!B(MISSING)";
    assert Directive(" B=1") == ("" + "%!B(MISSING)", "=1");
    assert "" + "%!B(MISSING)" + "=1" == "%!B(MISSING)=1";
    TextIsKept("=1");
  }

  predicate IsVerbChar(v: char) {
    !IsPart(v) && v != '%'
  }

  lemma DirectiveAtEnd(s: string, d: Spec, v: char)
    requires Parsed(s) == d && d.rest == [v]
    ensures Sprintf(['%'] + s) == d.out + VerbText(v, d.bad)
  {
    hide Parsed, VerbText;
    var format, out := ['%'] + s, d.out + VerbText(v, d.bad);
    assert format[1..] == s && [v][1..] == "";
    assert Sprintf(format) == out + Sprintf("");
    hide Sprintf;
    TextIsKept("");
  }

  /** The steps of parsing on the examples below. */
  lemma PartsOfExamples(v: char)
    requires IsVerbChar(v)
    ensures Parsed([v]) == Spec("", [v], false, false)
    ensures Parsed(['*', v]) == Spec("" + "%!(BADWIDTH)", [v], false, false)
    ensures Parsed(['.', '*', v]) == Spec("" + "%!(BADPREC)", [v], false, false)
  {
    hide AfterNumber, IndexByte, IsNumber;
    StopsAt([v]);
    assert ['*', v][1..] == [v] && ['.', '*', v][1..] == ['*', v];
    StopsAt(['*', v]);
    StopsAt(['.', '*', v]);
    hide AfterFlags;
  }

  lemma StopsAt(s: string)
    ensures s == "" || !IsDigit(s[0]) ==> AfterNumber(s, 0) == s
    ensures s == "" || !IsFlag(s[0]) ==> AfterFlags(s) == s
  {
  }

  /** A directive without arguments, with one for the width and with one for the precision. */
  lemma MissingArguments(v: char)
    requires IsVerbChar(v)
    ensures Sprintf(['%'] + [v]) == "%!" + [v] + "(MISSING)"
    ensures Sprintf(['%'] + ['*', v]) == "%!(BADWIDTH)" + ("%!" + [v] + "(MISSING)")
    ensures Sprintf(['%'] + ['.', '*', v]) == "%!(BADPREC)" + ("%!" + [v] + "(MISSING)")
  {
    hide Sprintf, Parsed;
    PartsOfExamples(v);
    DirectiveAtEnd([v], Spec("", [v], false, false), v);
    DirectiveAtEnd(['*', v], Spec("" + "%!(BADWIDTH)", [v], false, false), v);
    DirectiveAtEnd(['.', '*', v], Spec("" + "%!(BADPREC)", [v], false, false), v);
    EmptyFront("%!" + [v] + "(MISSING)");
    EmptyFront("%!(BADWIDTH)");
    EmptyFront("%!(BADPREC)");
  }

  lemma EmptyFront(s: string)
    ensures "" + s == s
  {
  }

  /** An argument index is always a bad one, and a doubled percent sign is a percent sign. */
  lemma IndexAndPercent(v: char)
    requires IsVerbChar(v)
    ensures Sprintf(['%'] + ['[', '1', ']', v]) == "%!" + [v] + "(BADINDEX)"
    ensures Sprintf(['%'] + ['%']) == "%"
  {
    hide Sprintf, Parsed;
    IndexOfExample(v);
    DirectiveAtEnd(['[', '1', ']', v], Spec("", [v], true, true), v);
    DirectiveAtEnd(['%'], Spec("", ['%'], false, false), '%');
    EmptyFront("%!" + [v] + "(BADINDEX)");
    EmptyFront("%");
  }

  lemma IndexOfExample(v: char)
    requires IsVerbChar(v)
    ensures Parsed(['[', '1', ']', v]) == Spec("", [v], true, true)
    ensures Parsed(['%']) == Spec("", ['%'], false, false)
  {
    var s := ['[', '1', ']', v];
    StopsAt(s);
    StopsAt([v]);
    StopsAt(['%']);
    assert s[1..2] == ['1'] && s[3..] == [v];
    assert s[2] == ']' && s[..3][2] == ']' && IndexByte(s, ']') == 2;
    assert IsNumber(['1'], 0);
    hide AfterNumber, IndexByte, IsNumber, AfterFlags;
    assert Index(Spec("", s, false, false)) == Spec("", [v], true, true);
  }
}
