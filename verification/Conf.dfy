/** Configuration entries as SETCONF writes them and as GETCONF replies are read. */
module Conf {
  import opened Options
  import opened QuotedStrings
  import opened Formats

  /** An empty value means that the key is unset, unless the last field says otherwise. */
  datatype KeyVal = KeyVal(key: string, val: string, valSetAndEmpty: bool) {
    predicate ValSet() {
      |val| > 0 || valSetAndEmpty
    }
  }

  // ----- the text of an entry in SETCONF

  ghost function EntryText(entry: KeyVal): string {
    entry.key + if entry.ValSet() then "=" + EscapeSimpleQuotedStringIfNeeded(entry.val) else ""
  }

  // ----- GETCONF

  /** How one line of a reply is read. */
  ghost function ReadEntry(data: string): Option<KeyVal> {
    var (key, val, ok) := PartitionString(data, '=');
    if !ok then Some(KeyVal(key, "", false))
    else
      var unescaped := UnescapedIfNeeded(val);
      if unescaped.None? then None else Some(KeyVal(key, unescaped.value, unescaped.value == ""))
  }

  /** A line without '=' is a key that is unset; behind the first '=' is the value, which is set even if it is empty,
      and which must be well escaped if it is quoted. */
  lemma EntryOfLine(key: string, text: string)
    requires '=' !in key
    ensures ReadEntry(key) == Some(KeyVal(key, "", false))
    ensures var r, val := ReadEntry(key + "=" + text), UnescapedIfNeeded(text);
            && (r.None? <==> val.None?)
            && (r.Some? ==> r.value == KeyVal(key, val.value, val.value == ""))
  {
    hide PartitionString, UnescapedIfNeeded;
    assert key + "=" + text == key + ['='] + text;
    PartitionIsUnique(key + "=" + text, '=', key, text);
    PartitionIsUnique(key, '=', "", "");
  }

  /** One entry from each line, or none at all when some line cannot be read. */
  ghost predicate IsReading(data: seq<string>, r: Option<seq<KeyVal>>) {
    if r.Some? then |r.value| == |data| && forall i :: 0 <= i < |data| ==> ReadEntry(data[i]) == Some(r.value[i])
    else exists i :: 0 <= i < |data| && ReadEntry(data[i]) == None
  }

  method GetConfEntries(data: seq<string>) returns (r: Option<seq<KeyVal>>)
    ensures IsReading(data, r)
  {
    var ret: seq<KeyVal> := [];
    for i := 0 to |data|
      invariant |ret| == i && forall j :: 0 <= j < i ==> ReadEntry(data[j]) == Some(ret[j])
    {
      var (key, val, ok) := PartitionString(data[i], '=');
      var entry := KeyVal(key, "", false);
      if ok {
        var unescaped := UnescapeSimpleQuotedStringIfNeeded(val);
        if unescaped == None {
          return None;
        }
        entry := entry.(val := unescaped.value);
        if |entry.val| == 0 {
          entry := entry.(valSetAndEmpty := true);
        }
      }
      ret := ret + [entry];
    }
    return Some(ret);
  }

  // ----- an entry is read back as it was written

  /** Same key, same value, and set or unset alike; the first one marks an empty value as set only where it is empty. */
  predicate SameEntry(a: KeyVal, b: KeyVal) {
    && a.key == b.key && a.val == b.val
    && (a.ValSet() <==> b.ValSet()) && (a.valSetAndEmpty <==> b.val == "" && b.valSetAndEmpty)
  }

  /** The text of an entry reads back as the same entry exactly when its key has no '='. */
  lemma ReadWritten(entry: KeyVal)
    ensures var r := ReadEntry(EntryText(entry));
            (r.Some? && SameEntry(r.value, entry)) <==> '=' !in entry.key
  {
    var text := EntryText(entry);
    var escaped := EscapeSimpleQuotedStringIfNeeded(entry.val);
    hide EscapeSimpleQuotedStringIfNeeded, UnescapedIfNeeded;
    if '=' !in entry.key {
      if entry.ValSet() {
        assert text == entry.key + ['='] + escaped;
        PartitionIsUnique(text, '=', entry.key, escaped);
        UnescapeIfNeeded(entry.val);
      } else {
        assert text == entry.key;
        PartitionIsUnique(text, '=', "", "");
      }
    } else {
      assert text[IndexByte(entry.key, '=')] == '=';
    }
  }

  ghost predicate ReadsAs(data: string, entry: KeyVal) {
    var r := ReadEntry(data);
    r.Some? && SameEntry(r.value, entry)
  }

  /** The texts of a list of entries read back as the same list exactly when no key has a '='. */
  lemma ReadAllWritten(entries: seq<KeyVal>, data: seq<string>)
    requires |data| == |entries| && forall i :: 0 <= i < |entries| ==> data[i] == EntryText(entries[i])
    ensures (forall i :: 0 <= i < |entries| ==> ReadsAs(data[i], entries[i]))
            <==> forall i :: 0 <= i < |entries| ==> '=' !in entries[i].key
  {
    hide EntryText, ReadEntry;
    forall i | 0 <= i < |entries| ensures ReadsAs(data[i], entries[i]) <==> '=' !in entries[i].key {
      ReadWritten(entries[i]);
    }
  }

  // ----- what of an entry survives when its text goes out as a format

  lemma {:induction false} SkeletonOfContents(s: string)
    ensures Skeleton(EscapeSimpleQuotedStringContents(s)) == Skeleton(s)
  {
    if s != "" {
      SkeletonOfContents(s[1..]);
      SkeletonOfEscape(s[0]);
      SkeletonSum(EscapedChar(s[0]), EscapeSimpleQuotedStringContents(s[1..]));
    }
  }

  lemma SkeletonOfEscape(c: char)
    ensures Skeleton(EscapedChar(c)) == SkeletonChar(c)
  {
    var e := EscapedChar(c);
    SkeletonOfChar(e[0]);
    if |e| == 2 {
      assert e == [e[0]] + [e[1]];
      SkeletonSum([e[0]], [e[1]]);
      SkeletonOfChar(e[1]);
    } else {
      assert e == [e[0]];
    }
  }

  lemma SkeletonOfQuoted(s: string)
    ensures Skeleton("\"" + s + "\"") == Skeleton(s)
  {
    SkeletonOfChar('\"');
    SkeletonSum("\"" + s, "\"");
    SkeletonSum("\"", s);
  }

  /** Quoting and escaping leave the skeleton alone, and so do all other ways to write a value. */
  lemma SkeletonOfWritten(val: string)
    ensures Skeleton(EscapeSimpleQuotedStringIfNeeded(val)) == Skeleton(val)
  {
    hide Skeleton;
    SkeletonOfContents(val);
    SkeletonOfQuoted(EscapeSimpleQuotedStringContents(val));
  }

  lemma SkeletonOfRead(text: string, val: string)
    requires UnescapedIfNeeded(text) == Some(val)
    ensures Skeleton(text) == Skeleton(val)
  {
    hide Skeleton, Unescaped, EscapeSimpleQuotedStringContents;
    if IsQuoted(text) {
      var inner := text[1..|text| - 1];
      assert text == "\"" + inner + "\"";
      SkeletonOfQuoted(inner);
      EscapeUnescaped(inner, false);
      assert "" + inner == inner;
      SkeletonSum(EscapeSimpleQuotedStringContents(val), Backslash(Dangles(inner, false)));
      SkeletonOfBackslash(Dangles(inner, false));
      SkeletonOfContents(val);
    }
  }

  lemma SkeletonOfBackslash(present: bool)
    ensures Skeleton(Backslash(present)) == ""
  {
    SkeletonOfChar('\\');
  }

  /** Whatever reads as an entry has the skeleton of the entry's text. */
  lemma SkeletonOfEntry(data: string, entry: KeyVal)
    requires ReadsAs(data, entry)
    ensures Skeleton(data) == Skeleton(EntryText(entry)) && '=' !in entry.key
  {
    var (key, text, ok) := PartitionString(data, '=');
    PartsOf(data);
    hide Skeleton, UnescapedIfNeeded, EscapeSimpleQuotedStringIfNeeded, PartitionString;
    if ok {
      SkeletonSum(key + "=", text);
      SkeletonOfRead(text, entry.val);
      SkeletonOfWritten(entry.val);
      SkeletonSum(key + "=", EscapeSimpleQuotedStringIfNeeded(entry.val));
      assert EntryText(entry) == key + "=" + EscapeSimpleQuotedStringIfNeeded(entry.val);
    } else {
      assert EntryText(entry) == key + "" == data;
    }
  }

  lemma PartsOf(data: string)
    ensures var (key, text, ok) := PartitionString(data, '=');
            '=' !in key && data == if ok then key + "=" + text else key
  {
    var (key, text, ok) := PartitionString(data, '=');
    PartitionIsUnique(data, '=', key, text);
    assert ok ==> data == key + "=" + text;
  }

  lemma {:induction false} PercentInSkeleton(s: string)
    ensures '%' in Skeleton(s) <==> '%' in s
  {
    if s != "" {
      PercentInSkeleton(s[1..]);
    }
  }

  lemma PercentInEntry(entry: KeyVal)
    ensures '%' in EntryText(entry) <==> '%' in entry.key || '%' in entry.val
  {
    hide Skeleton;
    var text := EscapeSimpleQuotedStringIfNeeded(entry.val);
    SkeletonOfWritten(entry.val);
    PercentInSkeleton(text);
    PercentInSkeleton(entry.val);
    hide EscapeSimpleQuotedStringIfNeeded;
    if entry.ValSet() {
      assert EntryText(entry) == entry.key + "=" + text;
    }
  }

  /** A sent entry reads back as the same entry exactly when its key has no '=' and neither key nor value a '%'. */
  lemma ReadSent(entry: KeyVal)
    ensures ReadsAs(Sprintf(EntryText(entry)), entry)
            <==> '=' !in entry.key && '%' !in entry.key && '%' !in entry.val
  {
    hide Skeleton, ReadsAs, EntryText, Sprintf;
    FormatIsKept(EntryText(entry));
    PercentInEntry(entry);
    ReadsAsWritten(entry);
    if ReadsAs(Sprintf(EntryText(entry)), entry) {
      SkeletonOfEntry(Sprintf(EntryText(entry)), entry);
    }
  }

  lemma ReadsAsWritten(entry: KeyVal)
    ensures ReadsAs(EntryText(entry), entry) <==> '=' !in entry.key
  {
    ReadWritten(entry);
  }
}
