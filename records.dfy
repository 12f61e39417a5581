/**
 * Reading the output of `iscsiadm -m iface -I <iface> -o show`: a block of `key = value`
 * lines between `# BEGIN RECORD` and `# END RECORD` markers.
 *
 * parseIscsiadmShow turns the `iface.` lines into a settings map, and extractTransportname
 * picks the transport name out of the raw text the way the regular expression
 * `iface.transport_name = (.*)\n` does.
 */
module Records {
  import opened Wrappers
  import opened Strings

  /** The value iscsiadm prints for an unset parameter. */
  const EmptyValue := "<empty>"
  /** Only lines starting with this are interface settings. */
  const SettingPrefix := "iface."
  /** The interface name: immutable once the interface exists, so never copied. */
  const IfaceNameKey := "iface.iscsi_ifacename"
  const TransportNameKey := "iface.transport_name"
  const InitiatorNameKey := "iface.initiatorname"
  const DefaultTransport := "tcp"
  /** The marker lines around a record, as iscsiadm 2.0-873 prints them. */
  const BeginMarker := "# BEGIN RECORD " + "2.0-873"
  const EndMarker := "# END " + "RECORD"

  /** A malformed setting line; carries the white-space separated fields of that line. */
  datatype ParseError = InvalidSetting(fields: seq<string>)

  /** What one line of the show output contributes. */
  datatype LineKind = Skipped | Setting(key: string, value: string) | Malformed(fields: seq<string>)

  /** A line is well formed when it is exactly the three fields `key`, `=`, `value`. */
  predicate WellFormed(fields: seq<string>)
  {
    |fields| == 3 && fields[1] == "="
  }

  /** How parseIscsiadmShow reads one line of the show output. */
  function ClassifyLine(line: string): LineKind
  {
    if !HasPrefix(line, SettingPrefix) then Skipped
    else
      var f := Fields(line);
      if !WellFormed(f) then Malformed(f)
      else if f[2] == EmptyValue || f[0] == IfaceNameKey then Skipped
      else Setting(f[0], f[2])
  }

  /** The settings of `lines`, stored on top of `params` from left to right. */
  function ParseLines(lines: seq<string>, params: map<string, string>): (r: Result<map<string, string>, ParseError>)
    decreases |lines|
  {
    if |lines| == 0 then Ok(params)
    else match ClassifyLine(lines[0])
      case Skipped => ParseLines(lines[1..], params)
      case Setting(k, v) => ParseLines(lines[1..], params[k := v])
      case Malformed(f) => Err(InvalidSetting(f))
  }

  /** parseIscsiadmShow */
  function ParseIscsiadmShow(output: string): Result<map<string, string>, ParseError>
  {
    ParseLines(SplitLines(output), map[])
  }

  /** The value the last setting line for `key` gives, if any. */
  function LastSetting(lines: seq<string>, key: string): (r: Option<string>)
    ensures r.Some? ==> exists i :: 0 <= i < |lines| && ClassifyLine(lines[i]) == Setting(key, r.value)
    ensures r.None? ==> forall i :: 0 <= i < |lines| ==> !(ClassifyLine(lines[i]).Setting? && ClassifyLine(lines[i]).key == key)
  {
    if |lines| == 0 then None
    else
      var l := lines[|lines| - 1];
      var k := ClassifyLine(l);
      if k.Setting? && k.key == key then Some(k.value)
      else
        var r := LastSetting(lines[..|lines| - 1], key);
        assert forall i :: 0 <= i < |lines| - 1 ==> lines[..|lines| - 1][i] == lines[i];
        r
  }

  /** The first malformed line, if any. */
  function FirstMalformed(lines: seq<string>): (r: Option<nat>)
    ensures r.Some? ==> r.value < |lines| && ClassifyLine(lines[r.value]).Malformed?
    ensures r.Some? ==> forall i :: 0 <= i < r.value ==> !ClassifyLine(lines[i]).Malformed?
    ensures r.None? ==> forall i :: 0 <= i < |lines| ==> !ClassifyLine(lines[i]).Malformed?
  {
    if |lines| == 0 then None
    else if ClassifyLine(lines[0]).Malformed? then Some(0)
    else match FirstMalformed(lines[1..])
      case None => None
      case Some(i) => Some(i + 1)
  }

  /**
   * Parsing fails exactly when some line is malformed, and then it reports the first
   * malformed line.
   */
  lemma {:induction false} ParseFailsOnFirstMalformed(lines: seq<string>, params: map<string, string>)
    ensures ParseLines(lines, params).Err? <==> FirstMalformed(lines).Some?
    ensures ParseLines(lines, params).Err? ==>
              ParseLines(lines, params).error == InvalidSetting(Fields(lines[FirstMalformed(lines).value]))
    decreases |lines|
  {
    if |lines| > 0 {
      match ClassifyLine(lines[0])
      case Skipped => ParseFailsOnFirstMalformed(lines[1..], params);
      case Setting(k, v) => ParseFailsOnFirstMalformed(lines[1..], params[k := v]);
      case Malformed(f) =>
    }
  }

  /**
   * A successful parse holds exactly the keys of the setting lines (and of `params`), each
   * with the value of its last setting line.
   */
  lemma {:induction false} ParseLinesContents(lines: seq<string>, params: map<string, string>)
    requires ParseLines(lines, params).Ok?
    ensures forall key :: key in ParseLines(lines, params).value <==> key in params || LastSetting(lines, key).Some?
    ensures forall key :: key in ParseLines(lines, params).value ==>
              ParseLines(lines, params).value[key] ==
                (if LastSetting(lines, key).Some? then LastSetting(lines, key).value else params[key])
    decreases |lines|
  {
    if |lines| > 0 {
      var m := ParseLines(lines, params).value;
      var tail := lines[1..];
      var p' := match ClassifyLine(lines[0]) case Setting(k, v) => params[k := v] case _ => params;
      assert ParseLines(lines, params) == ParseLines(tail, p');
      ParseLinesContents(tail, p');
      forall key ensures LastSetting(lines, key) == (if LastSetting(tail, key).Some? then LastSetting(tail, key)
                                                     else if ClassifyLine(lines[0]).Setting? && ClassifyLine(lines[0]).key == key
                                                     then Some(ClassifyLine(lines[0]).value) else None) {
        LastSettingCons(lines[0], tail, key);
        assert [lines[0]] + tail == lines;
      }
    }
  }

  lemma {:induction false} LastSettingCons(line: string, tail: seq<string>, key: string)
    ensures LastSetting([line] + tail, key) ==
              (if LastSetting(tail, key).Some? then LastSetting(tail, key)
               else if ClassifyLine(line).Setting? && ClassifyLine(line).key == key
               then Some(ClassifyLine(line).value) else None)
    decreases |tail|
  {
    var lines := [line] + tail;
    if |tail| == 0 {
      assert lines[..0] == [];
    } else {
      assert lines[|lines| - 1] == tail[|tail| - 1];
      assert lines[..|lines| - 1] == [line] + tail[..|tail| - 1];
      LastSettingCons(line, tail[..|tail| - 1], key);
    }
  }

  /** What the parse keeps never holds the interface name or an `<empty>` value. */
  lemma ParseShowKeepsNoSentinel(output: string)
    requires ParseIscsiadmShow(output).Ok?
    ensures IfaceNameKey !in ParseIscsiadmShow(output).value
    ensures forall key :: key in ParseIscsiadmShow(output).value ==>
              HasPrefix(key, SettingPrefix) && ParseIscsiadmShow(output).value[key] != EmptyValue
  {
    var lines := SplitLines(output);
    ParseLinesContents(lines, map[]);
    var m := ParseIscsiadmShow(output).value;
    forall key | key in m
      ensures HasPrefix(key, SettingPrefix) && m[key] != EmptyValue
    {
      var v := LastSetting(lines, key).value;
      var i :| 0 <= i < |lines| && ClassifyLine(lines[i]) == Setting(key, v);
      SettingKeyPrefix(lines[i]);
    }
  }

  /** The key of a setting line starts with `iface.`. */
  lemma SettingKeyPrefix(line: string)
    requires ClassifyLine(line).Setting?
    ensures HasPrefix(ClassifyLine(line).key, SettingPrefix)
  {
    var f := Fields(line);
    var key := f[0];
    WordIsFirstField(line);
    assert key == Word(line);
    assert line[..|key|] == key;
    assert line[..6] == SettingPrefix;
    assert key[..6] == line[..6];
  }

  /** A line whose first character is not white space starts with its first field. */
  lemma WordIsFirstField(line: string)
    requires |line| > 0 && !IsSpace(line[0])
    ensures Fields(line)[0] == Word(line)
    ensures |Word(line)| > 0
  {
  }

  // ---------------------------------------------------------------- rendering

  /** A non-empty token of visible ASCII characters (no white space). */
  predicate Token(s: string)
  {
    |s| > 0 && forall c :: c in s ==> '!' <= c <= '~'
  }

  /** The line iscsiadm prints for one setting. */
  function SettingLine(key: string, value: string): string
  {
    key + " = " + value
  }

  lemma TokenNoSpace(s: string)
    requires Token(s)
    ensures s != "" && NoSpace(s) && '\n' !in s
  {
  }

  /** The fields of a setting line are its key, `=` and its value. */
  lemma FieldsOfSettingLine(key: string, value: string)
    requires Token(key) && Token(value)
    ensures Fields(SettingLine(key, value)) == [key, "=", value]
    ensures '\n' !in SettingLine(key, value)
  {
    TokenNoSpace(key);
    TokenNoSpace(value);
    FieldsOfThree(key, "=", value);
    assert SettingLine(key, value) == key + " " + "=" + " " + value;
  }

  /** Three tokens separated by single spaces are three fields. */
  lemma FieldsOfThree(a: string, b: string, c: string)
    requires Token(a) && Token(b) && Token(c)
    ensures Fields(a + " " + b + " " + c) == [a, b, c]
  {
    TokenNoSpace(a);
    TokenNoSpace(b);
    TokenNoSpace(c);
    var words := [a, b, c];
    assert SpaceJoin(words[2..]) == c;
    assert SpaceJoin(words[1..]) == b + " " + c;
    assert SpaceJoin(words) == a + " " + b + " " + c;
    FieldsOfSpaceJoin(words);
  }

  /** A single token is a single field. */
  lemma FieldsOfToken(a: string)
    requires Token(a)
    ensures Fields(a) == [a]
  {
    TokenNoSpace(a);
    assert SpaceJoin([a]) == a;
    FieldsOfSpaceJoin([a]);
  }

  /** How a setting line is read: kept unless its value is `<empty>` or it names the interface. */
  lemma ClassifySettingLine(key: string, value: string)
    requires Token(key) && Token(value) && HasPrefix(key, SettingPrefix)
    ensures ClassifyLine(SettingLine(key, value)) ==
              if value == EmptyValue || key == IfaceNameKey then Skipped else Setting(key, value)
  {
    FieldsOfSettingLine(key, value);
    assert SettingLine(key, value)[..6] == key[..6];
  }

  /** A line that does not start with `iface.` is ignored. */
  lemma ClassifyOtherLine(line: string)
    requires !HasPrefix(line, SettingPrefix)
    ensures ClassifyLine(line) == Skipped
    ensures forall params :: ParseLines([line], params) == Ok(params)
  {
  }

  /** A record as iscsiadm prints it: a marker line, one line per setting, a marker line. */
  function RenderRecord(entries: seq<(string, string)>): string
  {
    JoinLines(RecordLines(entries))
  }

  /** The lines of a printed record. */
  function RecordLines(entries: seq<(string, string)>): seq<string>
  {
    [BeginMarker] + RenderSettings(entries) + [EndMarker]
  }

  function RenderSettings(entries: seq<(string, string)>): (lines: seq<string>)
    ensures |lines| == |entries|
    ensures forall i :: 0 <= i < |entries| ==> lines[i] == SettingLine(entries[i].0, entries[i].1)
  {
    if |entries| == 0 then [] else [SettingLine(entries[0].0, entries[0].1)] + RenderSettings(entries[1..])
  }

  /** A setting iscsiadm can print: a key starting with `iface.` and a value, both single tokens. */
  predicate Printable(e: (string, string))
  {
    Token(e.0) && Token(e.1) && HasPrefix(e.0, SettingPrefix)
  }

  predicate AllPrintable(entries: seq<(string, string)>)
  {
    forall i :: 0 <= i < |entries| ==> Printable(entries[i])
  }

  /** A setting the parse keeps: neither an `<empty>` value nor the interface name. */
  predicate Kept(e: (string, string))
  {
    e.1 != EmptyValue && e.0 != IfaceNameKey
  }

  /** The settings the parse keeps, in order. */
  function KeptOnly(entries: seq<(string, string)>): (r: seq<(string, string)>)
    ensures forall i :: 0 <= i < |r| ==> Kept(r[i]) && r[i] in entries
  {
    if |entries| == 0 then []
    else if Kept(entries[0]) then [entries[0]] + KeptOnly(entries[1..])
    else KeptOnly(entries[1..])
  }

  lemma {:induction false} KeptOnlyAll(entries: seq<(string, string)>)
    requires forall i :: 0 <= i < |entries| ==> Kept(entries[i])
    ensures KeptOnly(entries) == entries
  {
    if |entries| > 0 {
      KeptOnlyAll(entries[1..]);
      assert [entries[0]] + entries[1..] == entries;
    }
  }

  /** Storing settings from left to right. */
  function Store(entries: seq<(string, string)>, params: map<string, string>): map<string, string>
  {
    if |entries| == 0 then params else Store(entries[1..], params[entries[0].0 := entries[0].1])
  }

  /** The map a list of settings with distinct keys stands for. */
  function EntriesMap(entries: seq<(string, string)>): map<string, string>
  {
    if |entries| == 0 then map[] else EntriesMap(entries[1..])[entries[0].0 := entries[0].1]
  }

  predicate DistinctKeys(entries: seq<(string, string)>)
  {
    forall i, j :: 0 <= i < j < |entries| ==> entries[i].0 != entries[j].0
  }

  /** Parsing the lines of printable settings stores the kept ones on top of `params`. */
  lemma {:induction false} ParseRenderedSettings(entries: seq<(string, string)>, rest: seq<string>, params: map<string, string>)
    requires AllPrintable(entries)
    ensures ParseLines(RenderSettings(entries) + rest, params) == ParseLines(rest, Store(KeptOnly(entries), params))
    decreases |entries|
  {
    if |entries| > 0 {
      var e := entries[0];
      ClassifySettingLine(e.0, e.1);
      var lines := RenderSettings(entries) + rest;
      var p' := if Kept(e) then params[e.0 := e.1] else params;
      assert lines[0] == SettingLine(e.0, e.1);
      assert lines[1..] == RenderSettings(entries[1..]) + rest;
      assert ParseLines(lines, params) == ParseLines(lines[1..], p');
      assert Store(KeptOnly(entries), params) == Store(KeptOnly(entries[1..]), p');
      ParseRenderedSettings(entries[1..], rest, p');
    } else {
      assert RenderSettings(entries) + rest == rest;
    }
  }

  /** With distinct keys the order of storing does not matter. */
  lemma {:induction false} StoreDistinct(entries: seq<(string, string)>, params: map<string, string>)
    requires DistinctKeys(entries)
    ensures forall key :: key in Store(entries, params) <==> key in params || key in EntriesMap(entries)
    ensures forall key :: key in EntriesMap(entries) ==> Store(entries, params)[key] == EntriesMap(entries)[key]
    ensures forall key :: key in params && key !in EntriesMap(entries) ==> Store(entries, params)[key] == params[key]
    decreases |entries|
  {
    if |entries| > 0 {
      var e := entries[0];
      StoreDistinct(entries[1..], params[e.0 := e.1]);
      EntriesMapKeys(entries[1..]);
      assert forall j :: 0 <= j < |entries| - 1 ==> entries[1..][j].0 != e.0 by {
        forall j | 0 <= j < |entries| - 1 ensures entries[1..][j].0 != e.0 {
          assert entries[1..][j] == entries[j + 1];
        }
      }
      assert e.0 !in EntriesMap(entries[1..]);
    }
  }

  lemma {:induction false} EntriesMapKeys(entries: seq<(string, string)>)
    ensures forall key :: key in EntriesMap(entries) ==> exists j :: 0 <= j < |entries| && entries[j].0 == key
    decreases |entries|
  {
    if |entries| > 0 {
      EntriesMapKeys(entries[1..]);
      forall key | key in EntriesMap(entries) ensures exists j :: 0 <= j < |entries| && entries[j].0 == key {
        if key != entries[0].0 {
          assert key in EntriesMap(entries[1..]);
          var j :| 0 <= j < |entries[1..]| && entries[1..][j].0 == key;
          assert entries[j + 1].0 == key;
        }
      }
    }
  }

  lemma StoreIntoEmpty(entries: seq<(string, string)>)
    requires DistinctKeys(entries)
    ensures Store(entries, map[]) == EntriesMap(entries)
  {
    StoreDistinct(entries, map[]);
  }

  /** No line of a printed record holds a newline, so splitting gives the lines back. */
  lemma RecordLinesSplit(entries: seq<(string, string)>)
    requires AllPrintable(entries)
    ensures SplitLines(RenderRecord(entries)) == RecordLines(entries)
  {
    var lines := RecordLines(entries);
    var settings := RenderSettings(entries);
    forall i | 0 <= i < |lines| ensures '\n' !in lines[i] {
      if i == 0 {
        assert '\n' !in "# BEGIN RECORD " && '\n' !in "2.0-873";
      } else if i == |lines| - 1 {
        assert '\n' !in EndMarker;
      } else {
        assert lines[i] == settings[i - 1];
        FieldsOfSettingLine(entries[i - 1].0, entries[i - 1].1);
      }
    }
    SplitJoinLines(lines);
  }

  /** Settings framed by two lines that are not settings parse to the kept settings alone. */
  lemma ParseFramedSettings(header: string, entries: seq<(string, string)>, footer: string)
    requires AllPrintable(entries)
    requires |header| > 0 && header[0] != 'i' && |footer| > 0 && footer[0] != 'i'
    ensures ParseLines([header] + RenderSettings(entries) + [footer], map[]) == Ok(Store(KeptOnly(entries), map[]))
  {
    var R := RenderSettings(entries);
    var tail := R + [footer];
    var m := Store(KeptOnly(entries), map[]);
    assert ParseLines([header] + tail, map[]) == ParseLines(tail, map[]) by {
      ParseSkippedLine(header, tail, map[]);
    }
    assert ParseLines(tail, map[]) == ParseLines([footer], m) by {
      ParseRenderedSettings(entries, [footer], map[]);
    }
    assert ParseLines([footer], m) == Ok(m) by {
      ParseSkippedLine(footer, [], m);
      assert [footer] + [] == [footer];
    }
    assert [header] + R + [footer] == [header] + tail;
    assert ParseLines([header] + R + [footer], map[]) == Ok(m);
  }

  /** A line that does not start with `iface.` leaves the parse unchanged. */
  lemma ParseSkippedLine(line: string, rest: seq<string>, params: map<string, string>)
    requires |line| > 0 && line[0] != 'i'
    ensures ParseLines([line] + rest, params) == ParseLines(rest, params)
  {
    assert !HasPrefix(line, SettingPrefix) by {
      if |line| >= 6 {
        assert line[..6][0] != SettingPrefix[0];
      }
    }
    ClassifyOtherLine(line);
    assert ([line] + rest)[0] == line;
    assert ([line] + rest)[1..] == rest;
  }

  /**
   * A printed record parses to its kept settings: the marker lines are ignored and the
   * `<empty>` values and the interface name are dropped.
   */
  lemma ParsePrintedRecord(entries: seq<(string, string)>)
    requires AllPrintable(entries)
    requires DistinctKeys(KeptOnly(entries))
    ensures ParseIscsiadmShow(RenderRecord(entries)) == Ok(EntriesMap(KeptOnly(entries)))
  {
    RecordLinesSplit(entries);
    assert ParseIscsiadmShow(RenderRecord(entries)) == ParseLines(RecordLines(entries), map[]);
    assert BeginMarker[0] == '#' && EndMarker[0] == '#';
    ParseFramedSettings(BeginMarker, entries, EndMarker);
    StoreIntoEmpty(KeptOnly(entries));
  }

  /**
   * Round trip: a record printed from distinct settings that the parse keeps reads back as
   * exactly those settings.
   */
  lemma ParseRenderedRecord(entries: seq<(string, string)>)
    requires AllPrintable(entries)
    requires forall i :: 0 <= i < |entries| ==> Kept(entries[i])
    requires DistinctKeys(entries)
    ensures ParseIscsiadmShow(RenderRecord(entries)) == Ok(EntriesMap(entries))
  {
    KeptOnlyAll(entries);
    ParsePrintedRecord(entries);
  }

  /** Settings as `iscsiadm -m iface -I <iface> -o show` prints them: one line each, each ending in a newline. */
  function RenderShow(entries: seq<(string, string)>): string
  {
    JoinLines(RenderSettings(entries) + [""])
  }

  /** Printed settings parse to the kept ones; the empty text after the last newline is ignored. */
  lemma ParsePrintedShow(entries: seq<(string, string)>)
    requires AllPrintable(entries)
    requires DistinctKeys(KeptOnly(entries))
    ensures ParseIscsiadmShow(RenderShow(entries)) == Ok(EntriesMap(KeptOnly(entries)))
  {
    var lines := RenderSettings(entries) + [""];
    forall i | 0 <= i < |lines| ensures '\n' !in lines[i] {
      if i < |entries| {
        FieldsOfSettingLine(entries[i].0, entries[i].1);
      }
    }
    SplitJoinLines(lines);
    var m := Store(KeptOnly(entries), map[]);
    assert ParseLines(lines, map[]) == ParseLines([""], m) by {
      ParseRenderedSettings(entries, [""], map[]);
    }
    assert ClassifyLine("") == Skipped;
    StoreIntoEmpty(KeptOnly(entries));
  }

  /** A single `iface.` line that is not `key = value` makes the whole parse fail. */
  lemma ParseRejectsLine(line: string)
    requires '\n' !in line && HasPrefix(line, SettingPrefix) && !WellFormed(Fields(line))
    ensures ParseIscsiadmShow(line) == Err(InvalidSetting(Fields(line)))
  {
    SplitLinesSingle(line);
  }

  // ------------------------------------------------------- extractTransportname

  /**
   * The expression before the capture group is `iface` + any one character but a newline +
   * the text below (the `.` of `iface.transport_name` is the regular expression's `.`).
   */
  const PatternHead := "iface"
  const PatternTail := "transport_name = "
  const PatternLength := 23
  /** The text of an `iface.transport_name` line up to its value. */
  const TransportPattern := "iface.transport_name = "

  /** The expression before the group matches `s` at position `i`. */
  predicate PatternAt(s: string, i: int)
  {
    0 <= i && i + PatternLength <= |s|
    && s[i..i + 5] == PatternHead && s[i + 5] != '\n' && s[i + 6..i + PatternLength] == PatternTail
  }

  /** The whole expression matches at `i`: the pattern text, then a newline somewhere after it. */
  predicate MatchesAt(s: string, i: int)
  {
    PatternAt(s, i) && '\n' in s[i + PatternLength..]
  }

  /** The text up to (not including) the first newline. */
  function LineHead(t: string): (h: string)
    ensures |h| <= |t| && h == t[..|h|] && '\n' !in h
    ensures |h| < |t| <==> '\n' in t
    ensures |h| < |t| ==> t[|h|] == '\n'
  {
    if |t| == 0 then ""
    else if t[0] == '\n' then ""
    else
      var h := [t[0]] + LineHead(t[1..]);
      assert t == [t[0]] + t[1..];
      h
  }

  /** The leftmost match at or after `from`; the value is what the group `(.*)` captures. */
  function MatchFrom(s: string, from: nat): Option<(nat, string)>
    decreases |s| - from
  {
    if from + PatternLength > |s| then None
    else if MatchesAt(s, from) then Some((from, LineHead(s[from + PatternLength..])))
    else MatchFrom(s, from + 1)
  }

  /** The match found is a match, the leftmost one at or after `from`, with its captured value. */
  lemma {:induction false} MatchFromMeaning(s: string, from: nat)
    ensures var r := MatchFrom(s, from);
      && (r.Some? ==> from <= r.value.0 && MatchesAt(s, r.value.0))
      && (r.Some? ==> r.value.1 == LineHead(s[r.value.0 + PatternLength..]))
      && (forall j :: from <= j && (r.None? || j < r.value.0) ==> !MatchesAt(s, j))
    decreases |s| - from
  {
    MatchFromStep(s, from);
    if from + PatternLength > |s| {
      forall j | from <= j ensures !MatchesAt(s, j) {
      }
    } else if !MatchesAt(s, from) {
      MatchFromMeaning(s, from + 1);
      var r := MatchFrom(s, from);
      forall j | from <= j && (r.None? || j < r.value.0) ensures !MatchesAt(s, j) {
        if j > from {
          assert from + 1 <= j;
        }
      }
    }
  }

  /** extractTransportname */
  function ExtractTransportname(output: string): (name: string)
  {
    match MatchFrom(output, 0)
    case None => ""
    case Some((_, v)) => if v == EmptyValue then DefaultTransport else v
  }

  /**
   * The transport name is what the leftmost match captures, `tcp` when that is `<empty>`,
   * and "" when the expression matches nowhere.
   */
  lemma TransportnameMeaning(output: string)
    ensures (forall j :: 0 <= j ==> !MatchesAt(output, j)) ==> ExtractTransportname(output) == ""
    ensures forall i :: MatchesAt(output, i) && (forall j :: 0 <= j < i ==> !MatchesAt(output, j)) ==>
              ExtractTransportname(output) ==
                var v := LineHead(output[i + PatternLength..]);
                if v == EmptyValue then DefaultTransport else v
  {
    var r := MatchFrom(output, 0);
    MatchFromMeaning(output, 0);
    if r.Some? {
      var at := r.value.0;
      forall i | MatchesAt(output, i) && (forall j :: 0 <= j < i ==> !MatchesAt(output, j))
        ensures at == i
      {
        assert !(at < i);
        assert !(i < at);
      }
    }
  }


  /** Lines that cannot hold the pattern text: a newline-free line lacking a character it needs. */
  ghost predicate NoPatternIn(line: string)
  {
    forall j :: !PatternAt(line, j)
  }

  lemma MissingPatternChar(line: string, k: nat)
    requires k < |PatternTail| && PatternTail[k] !in line
    ensures NoPatternIn(line)
  {
    forall j ensures !PatternAt(line, j) {
      if 0 <= j && j + PatternLength <= |line| {
        assert line[j + 6..j + PatternLength][k] == line[j + 6 + k];
        assert line[j + 6 + k] in line;
      }
    }
  }

  lemma ShortLineNoPattern(line: string)
    requires |line| < PatternLength
    ensures NoPatternIn(line)
  {
  }

  /** A window of the pattern's length that holds a newline is not a match. */
  lemma PatternAvoidsNewline(s: string, j: int, p: int)
    requires 0 <= j <= p < j + PatternLength && p < |s| && s[p] == '\n'
    ensures !PatternAt(s, j)
  {
    if j + PatternLength <= |s| {
      if p < j + 5 {
        assert s[j..j + 5][p - j] == s[p];
        assert '\n' !in PatternHead;
      } else if p > j + 5 {
        assert s[j + 6..j + PatternLength][p - j - 6] == s[p];
        assert '\n' !in PatternTail;
      }
    }
  }

  /** A leading line that cannot hold the pattern does not change the result. */
  lemma {:induction false} SkipLine(line: string, rest: string)
    requires '\n' !in line && NoPatternIn(line)
    ensures ExtractTransportname(line + "\n" + rest) == ExtractTransportname(rest)
  {
    var s := line + "\n" + rest;
    var n := |line| + 1;
    forall j | 0 <= j < n ensures !PatternAt(s, j) {
      if j + PatternLength <= |line| {
        assert s[j..j + PatternLength] == line[j..j + PatternLength];
        assert !PatternAt(line, j);
      } else {
        PatternAvoidsNewline(s, j, |line|);
      }
    }
    MatchSkips(s, 0, n);
    MatchShift(line + "\n", rest, 0);
    assert s == (line + "\n") + rest;
  }

  lemma {:induction false} MatchSkips(s: string, from: nat, to: nat)
    requires from <= to
    requires forall j :: from <= j < to ==> !PatternAt(s, j)
    ensures MatchFrom(s, from) == MatchFrom(s, to)
    decreases (to as int) - (from as int)
  {
    if from < to {
      if from + PatternLength <= |s| {
        MatchSkips(s, from + 1, to);
      } else {
        MatchNoneBeyond(s, from, to);
      }
    }
  }

  lemma MatchNoneBeyond(s: string, from: nat, to: nat)
    requires from <= to && from + PatternLength > |s|
    ensures MatchFrom(s, from) == None && MatchFrom(s, to) == None
  {
  }

  /** A match found in `rest`, moved right by `n` positions. */
  function Shifted(r: Option<(nat, string)>, n: nat): Option<(nat, string)>
  {
    match r
    case None => None
    case Some((at, v)) => Some((n + at, v))
  }

  /** Matching after a prefix is matching in the rest, shifted. */
  lemma {:induction false} MatchShift(p: string, rest: string, i: nat)
    ensures MatchFrom(p + rest, |p| + i) == Shifted(MatchFrom(rest, i), |p|)
    decreases |rest| - i
  {
    if i + PatternLength > |rest| {
      MatchFromStep(p + rest, |p| + i);
      MatchFromStep(rest, i);
    } else if MatchesAt(rest, i) {
      MatchShiftHere(p, rest, i);
    } else {
      MatchShift(p, rest, i + 1);
      MatchShiftSkip(p, rest, i);
    }
  }

  /** Where the rest matches, the whole text matches at the shifted position. */
  lemma MatchShiftHere(p: string, rest: string, i: nat)
    requires i + PatternLength <= |rest| && MatchesAt(rest, i)
    ensures MatchFrom(p + rest, |p| + i) == Shifted(MatchFrom(rest, i), |p|)
  {
    var s, t := p + rest, rest[i + PatternLength..];
    MatchesAtShift(p, rest, i);
    assert MatchesAt(s, |p| + i) && s[|p| + i + PatternLength..] == t;
    MatchFromStep(s, |p| + i);
    MatchFromStep(rest, i);
    assert MatchFrom(rest, i) == Some((i, LineHead(t)));
  }

  /** Where the rest does not match, both searches move on by one. */
  lemma MatchShiftSkip(p: string, rest: string, i: nat)
    requires i + PatternLength <= |rest| && !MatchesAt(rest, i)
    ensures MatchFrom(p + rest, |p| + i) == MatchFrom(p + rest, |p| + i + 1)
    ensures MatchFrom(rest, i) == MatchFrom(rest, i + 1)
  {
    MatchesAtShift(p, rest, i);
    MatchFromStep(p + rest, |p| + i);
    MatchFromStep(rest, i);
  }

  /** One step of the search for the leftmost match. */
  lemma MatchFromStep(s: string, from: nat)
    ensures from + PatternLength > |s| ==> MatchFrom(s, from) == None
    ensures from + PatternLength <= |s| && MatchesAt(s, from) ==>
              MatchFrom(s, from) == Some((from, LineHead(s[from + PatternLength..])))
    ensures from + PatternLength <= |s| && !MatchesAt(s, from) ==> MatchFrom(s, from) == MatchFrom(s, from + 1)
  {
  }

  /** The expression matches after a prefix exactly where it matches in the rest. */
  lemma MatchesAtShift(p: string, rest: string, i: nat)
    requires i + PatternLength <= |rest|
    ensures MatchesAt(p + rest, |p| + i) == MatchesAt(rest, i)
    ensures (p + rest)[|p| + i + PatternLength..] == rest[i + PatternLength..]
  {
    var s := p + rest;
    var j := |p| + i;
    assert s[j..j + 5] == rest[i..i + 5];
    assert s[j + 5] == rest[i + 5];
    assert s[j + 6..j + PatternLength] == rest[i + 6..i + PatternLength];
    assert s[j + PatternLength..] == rest[i + PatternLength..];
  }

  /** Text that starts with the transport line yields that line's value. */
  lemma TransportLineFirst(value: string, rest: string)
    requires '\n' !in value
    ensures ExtractTransportname(TransportPattern + value + "\n" + rest) ==
              if value == EmptyValue then DefaultTransport else value
  {
    var t := value + "\n" + rest;
    var s := TransportPattern + t;
    assert s == TransportPattern + value + "\n" + rest;
    PatternAtStart(s);
    assert s[PatternLength..] == t;
    assert t[|value|] == '\n';
    assert '\n' in t;
    LineHeadOf(value, rest);
  }

  lemma PatternAtStart(s: string)
    requires HasPrefix(s, TransportPattern)
    ensures PatternAt(s, 0)
  {
    assert s[..PatternLength] == TransportPattern;
    assert TransportPattern[..5] == PatternHead;
    assert TransportPattern[6..] == PatternTail;
    assert s[..5] == s[..PatternLength][..5];
    assert s[6..PatternLength] == s[..PatternLength][6..];
  }

  lemma {:induction false} LineHeadOf(value: string, rest: string)
    requires '\n' !in value
    ensures LineHead(value + "\n" + rest) == value
  {
    var t := value + "\n" + rest;
    if |value| > 0 {
      assert t[1..] == value[1..] + "\n" + rest;
      LineHeadOf(value[1..], rest);
      assert [value[0]] + value[1..] == value;
    }
  }

  /** Text too short for the pattern text has no transport name. */
  lemma NoTransportInShortText(s: string)
    requires |s| < PatternLength
    ensures ExtractTransportname(s) == ""
  {
  }

  // ------------------------------------------------------------- test cases

  const MtuKey := "iface.mtu"

  /** The records of TestParseIscsiadmShow: interface name, transport, initiator name, MTU. */
  function ShowEntries(ifaceName: string, transport: string): seq<(string, string)>
  {
    [(IfaceNameKey, ifaceName), (TransportNameKey, transport), (InitiatorNameKey, EmptyValue), (MtuKey, "0")]
  }

  lemma KeyFacts()
    ensures Token(IfaceNameKey) && Token(TransportNameKey) && Token(InitiatorNameKey) && Token(MtuKey)
    ensures Token(EmptyValue) && Token("0")
    ensures HasPrefix(IfaceNameKey, SettingPrefix) && HasPrefix(TransportNameKey, SettingPrefix)
    ensures HasPrefix(InitiatorNameKey, SettingPrefix) && HasPrefix(MtuKey, SettingPrefix)
  {
    KeyTokens();
    KeyPrefixes();
  }

  lemma KeyTokens()
    ensures Token(IfaceNameKey) && Token(TransportNameKey) && Token(InitiatorNameKey) && Token(MtuKey)
    ensures Token(EmptyValue) && Token("0")
  {
    assert Token(IfaceNameKey) by {}
    assert Token(TransportNameKey) by {}
    assert Token(InitiatorNameKey) by {}
    assert Token(MtuKey) by {}
    assert Token(EmptyValue) by {}
  }

  lemma KeyPrefixes()
    ensures HasPrefix(IfaceNameKey, SettingPrefix) && HasPrefix(TransportNameKey, SettingPrefix)
    ensures HasPrefix(InitiatorNameKey, SettingPrefix) && HasPrefix(MtuKey, SettingPrefix)
  {
    assert IfaceNameKey[..6] == SettingPrefix;
    assert TransportNameKey[..6] == SettingPrefix;
    assert InitiatorNameKey[..6] == SettingPrefix;
    assert MtuKey[..6] == SettingPrefix;
  }

  lemma KeptOnlyCons(e: (string, string), rest: seq<(string, string)>)
    ensures KeptOnly([e] + rest) == if Kept(e) then [e] + KeptOnly(rest) else KeptOnly(rest)
  {
    assert ([e] + rest)[1..] == rest;
  }

  /**
   * TestParseIscsiadmShow, records 1 to 3: the markers, the interface name and the
   * `<empty>` values are dropped; the transport (unless `<empty>`) and the MTU are kept.
   */
  lemma ParseShowRecord(ifaceName: string, transport: string)
    requires Token(ifaceName) && Token(transport)
    ensures ParseIscsiadmShow(RenderRecord(ShowEntries(ifaceName, transport))) ==
              Ok(if transport == EmptyValue then map[MtuKey := "0"] else map[TransportNameKey := transport, MtuKey := "0"])
  {
    var entries := ShowEntries(ifaceName, transport);
    var mtu := (MtuKey, "0");
    var tr := (TransportNameKey, transport);
    var kept := if transport == EmptyValue then [mtu] else [tr, mtu];
    assert AllPrintable(entries) by {
      KeyFacts();
    }
    assert KeptOnly(entries) == kept by {
      KeptOfShow(ifaceName, transport);
    }
    assert DistinctKeys(kept);
    ParsePrintedRecord(entries);
    KeptShowMap(transport);
  }

  /** The map of the settings a shown record keeps. */
  lemma KeptShowMap(transport: string)
    ensures EntriesMap([(MtuKey, "0")]) == map[MtuKey := "0"]
    ensures EntriesMap([(TransportNameKey, transport), (MtuKey, "0")]) == map[TransportNameKey := transport, MtuKey := "0"]
  {
    assert [(TransportNameKey, transport), (MtuKey, "0")][1..] == [(MtuKey, "0")];
  }

  lemma KeptOfShow(ifaceName: string, transport: string)
    ensures KeptOnly(ShowEntries(ifaceName, transport)) ==
              if transport == EmptyValue then [(MtuKey, "0")] else [(TransportNameKey, transport), (MtuKey, "0")]
  {
    var tail := [(TransportNameKey, transport), (InitiatorNameKey, EmptyValue), (MtuKey, "0")];
    ShowVerdicts(ifaceName, transport);
    KeptOnlyCons((IfaceNameKey, ifaceName), tail);
    assert ShowEntries(ifaceName, transport) == [(IfaceNameKey, ifaceName)] + tail;
    KeptOfShowTail(transport);
  }

  /** The settings after the interface name that the parse keeps. */
  lemma KeptOfShowTail(transport: string)
    ensures KeptOnly([(TransportNameKey, transport), (InitiatorNameKey, EmptyValue), (MtuKey, "0")]) ==
              if transport == EmptyValue then [(MtuKey, "0")] else [(TransportNameKey, transport), (MtuKey, "0")]
  {
    var mtu := (MtuKey, "0");
    var tr := (TransportNameKey, transport);
    var init := (InitiatorNameKey, EmptyValue);
    ShowVerdicts("", transport);
    KeptOnlyCons(mtu, []);
    assert [mtu] == [mtu] + [];
    KeptOnlyCons(init, [mtu]);
    assert [init, mtu] == [init] + [mtu];
    KeptOnlyCons(tr, [init, mtu]);
    assert [tr, init, mtu] == [tr] + [init, mtu];
  }


  lemma ParseShowCases()
    ensures ParseIscsiadmShow(RenderRecord(ShowEntries("default", "tcp")))
              == Ok(map[TransportNameKey := "tcp", MtuKey := "0"])
    ensures ParseIscsiadmShow(RenderRecord(ShowEntries("default", "cxgb4i")))
              == Ok(map[TransportNameKey := "cxgb4i", MtuKey := "0"])
    ensures ParseIscsiadmShow(RenderRecord(ShowEntries("custom", EmptyValue)))
              == Ok(map[MtuKey := "0"])
  {
    KeyFacts();
    ParseShowRecord("default", "tcp");
    ParseShowRecord("default", "cxgb4i");
    ParseShowRecord("custom", EmptyValue);
  }

  /** TestParseIscsiadmShow, records 4 and 5: no spaced `=`, and `+` in place of `=`. */
  /** Which settings of a shown record the parse keeps. */
  lemma ShowVerdicts(ifaceName: string, transport: string)
    ensures Kept((MtuKey, "0")) && !Kept((InitiatorNameKey, EmptyValue)) && !Kept((IfaceNameKey, ifaceName))
    ensures Kept((TransportNameKey, transport)) <==> transport != EmptyValue
  {
    assert MtuKey != IfaceNameKey by { assert |MtuKey| != |IfaceNameKey|; }
    assert TransportNameKey != IfaceNameKey by { assert TransportNameKey[6] != IfaceNameKey[6]; }
  }

  lemma ParseShowRejects()
    ensures ParseIscsiadmShow(IfaceNameKey + "=error").Err?
    ensures ParseIscsiadmShow(IfaceNameKey + " + error").Err?
  {
    ParseRejectsNoSpaces();
    ParseRejectsPlus();
  }

  /** A setting written without spaces around "=" is one field, not three. */
  lemma ParseRejectsNoSpaces()
    ensures ParseIscsiadmShow(IfaceNameKey + "=error").Err?
  {
    KeyFacts();
    var noSpaces := IfaceNameKey + "=error";
    assert Token(noSpaces);
    FieldsOfToken(noSpaces);
    assert noSpaces[..6] == IfaceNameKey[..6];
    ParseRejectsLine(noSpaces);
  }

  /** A setting with "+" in place of "=" is rejected. */
  lemma ParseRejectsPlus()
    ensures ParseIscsiadmShow(IfaceNameKey + " + error").Err?
  {
    KeyFacts();
    var plus := IfaceNameKey + " + error";
    FieldsOfThree(IfaceNameKey, "+", "error");
    assert plus == IfaceNameKey + " " + "+" + " " + "error";
    assert plus[..6] == IfaceNameKey[..6];
    assert '\n' !in plus;
    ParseRejectsLine(plus);
  }

  /** The records of TestExtractTransportname, with and without a transport line. */
  function TransportEntries(transport: string): seq<(string, string)>
  {
    [(IfaceNameKey, "default"), (TransportNameKey, transport), (InitiatorNameKey, EmptyValue)]
  }

  function NoTransportEntries(): seq<(string, string)>
  {
    [(IfaceNameKey, "default"), (InitiatorNameKey, EmptyValue)]
  }

  /** Neither the interface-name line nor the initiator line can hold the pattern. */
  lemma OtherLinesNoPattern()
    ensures NoPatternIn(SettingLine(IfaceNameKey, "default"))
    ensures NoPatternIn(SettingLine(InitiatorNameKey, EmptyValue))
    ensures '\n' !in SettingLine(IfaceNameKey, "default") && '\n' !in SettingLine(InitiatorNameKey, EmptyValue)
  {
    IfaceLineNoPattern();
    InitiatorLineNoPattern();
  }

  lemma IfaceLineNoPattern()
    ensures NoPatternIn(SettingLine(IfaceNameKey, "default")) && '\n' !in SettingLine(IfaceNameKey, "default")
  {
    assert PatternTail[5] == 'p';
    assert 'p' !in SettingLine(IfaceNameKey, "default") by {
      NotInSettingLine('p', IfaceNameKey, "default");
    }
    MissingPatternChar(SettingLine(IfaceNameKey, "default"), 5);
    NotInSettingLine('\n', IfaceNameKey, "default");
  }

  lemma InitiatorLineNoPattern()
    ensures NoPatternIn(SettingLine(InitiatorNameKey, EmptyValue)) && '\n' !in SettingLine(InitiatorNameKey, EmptyValue)
  {
    assert PatternTail[4] == 's';
    assert 's' !in SettingLine(InitiatorNameKey, EmptyValue) by {
      NotInSettingLine('s', InitiatorNameKey, EmptyValue);
    }
    MissingPatternChar(SettingLine(InitiatorNameKey, EmptyValue), 4);
    NotInSettingLine('\n', InitiatorNameKey, EmptyValue);
  }

  lemma NotInSettingLine(c: char, key: string, value: string)
    requires c !in key && c != ' ' && c != '=' && c !in value
    ensures c !in SettingLine(key, value)
  {
  }

  lemma MarkersNoPattern()
    ensures NoPatternIn(BeginMarker) && NoPatternIn(EndMarker)
    ensures '\n' !in BeginMarker && '\n' !in EndMarker
    ensures |EndMarker| < PatternLength
  {
    ShortLineNoPattern(BeginMarker);
    ShortLineNoPattern(EndMarker);
  }

  /** JoinLines of two or more lines puts the first one in front of the rest. */
  lemma JoinLinesCons(line: string, rest: seq<string>)
    requires |rest| > 0
    ensures JoinLines([line] + rest) == line + "\n" + JoinLines(rest)
  {
    assert ([line] + rest)[1..] == rest;
  }

  /** TestExtractTransportname, records 1 to 3: the value, or `tcp` for `<empty>`. */
  lemma TransportOfRecord(transport: string)
    requires '\n' !in transport
    ensures ExtractTransportname(RenderRecord(TransportEntries(transport))) ==
              if transport == EmptyValue then DefaultTransport else transport
  {
    var l1 := SettingLine(IfaceNameKey, "default");
    var l2 := SettingLine(TransportNameKey, transport);
    var l3 := SettingLine(InitiatorNameKey, EmptyValue);
    var rest := JoinLines([l3, EndMarker]);
    assert RenderRecord(TransportEntries(transport)) == BeginMarker + "\n" + (l1 + "\n" + (l2 + "\n" + rest)) by {
      assert RecordLines(TransportEntries(transport)) == [BeginMarker] + ([l1] + ([l2] + [l3, EndMarker]));
      JoinLinesCons(l2, [l3, EndMarker]);
      JoinLinesCons(l1, [l2] + [l3, EndMarker]);
      JoinLinesCons(BeginMarker, [l1] + ([l2] + [l3, EndMarker]));
    }
    assert ExtractTransportname(BeginMarker + "\n" + (l1 + "\n" + (l2 + "\n" + rest)))
           == ExtractTransportname(l2 + "\n" + rest) by {
      OtherLinesNoPattern();
      MarkersNoPattern();
      SkipLine(BeginMarker, l1 + "\n" + (l2 + "\n" + rest));
      SkipLine(l1, l2 + "\n" + rest);
    }
    assert l2 == TransportPattern + transport;
    TransportLineFirst(transport, rest);
  }

  /** TestExtractTransportname, record 4: without a transport line the result is "". */
  lemma TransportOfRecordWithout()
    ensures ExtractTransportname(RenderRecord(NoTransportEntries())) == ""
  {
    var l1 := SettingLine(IfaceNameKey, "default");
    var l3 := SettingLine(InitiatorNameKey, EmptyValue);
    assert RecordLines(NoTransportEntries()) == [BeginMarker] + ([l1] + ([l3] + [EndMarker]));
    JoinLinesCons(l3, [EndMarker]);
    JoinLinesCons(l1, [l3] + [EndMarker]);
    JoinLinesCons(BeginMarker, [l1] + ([l3] + [EndMarker]));
    assert JoinLines([EndMarker]) == EndMarker;
    OtherLinesNoPattern();
    MarkersNoPattern();
    SkipLine(BeginMarker, l1 + "\n" + (l3 + "\n" + EndMarker));
    SkipLine(l1, l3 + "\n" + EndMarker);
    SkipLine(l3, EndMarker);
    NoTransportInShortText(EndMarker);
  }

  /** TestExtractTransportname, record 1: transport `tcp`. */
  lemma TransportnameTcpCase()
    ensures ExtractTransportname(RenderRecord(TransportEntries("tcp"))) == "tcp"
  {
    TransportOfRecord("tcp");
  }

  /** TestExtractTransportname, record 2: transport `cxgb4i`. */
  lemma TransportnameCxgb4iCase()
    ensures ExtractTransportname(RenderRecord(TransportEntries("cxgb4i"))) == "cxgb4i"
  {
    assert "cxgb4i"[0] != EmptyValue[0];
    TransportOfRecord("cxgb4i");
  }

  /** TestExtractTransportname, record 3: transport `<empty>` means `tcp`. */
  lemma TransportnameEmptyCase()
    ensures ExtractTransportname(RenderRecord(TransportEntries(EmptyValue))) == "tcp"
  {
    TransportOfRecord(EmptyValue);
  }

}
