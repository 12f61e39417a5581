/**
 * The part of Go's `strings` package that the iSCSI helpers rely on, over `seq<char>`:
 * prefix tests, first and last occurrence of a substring, splitting output into lines,
 * and splitting a line into white-space separated fields.
 */
module Strings {

  /** Go's unicode.IsSpace, the separator test of strings.Fields. */
  predicate IsSpace(c: char)
  {
    c == ' ' || c == '\t' || c == '\n' || c == '\U{0B}' || c == '\U{0C}' || c == '\r'
    || c == '\U{85}' || c == '\U{A0}' || c == '\U{1680}' || ('\U{2000}' <= c <= '\U{200A}')
    || c == '\U{2028}' || c == '\U{2029}' || c == '\U{202F}' || c == '\U{205F}' || c == '\U{3000}'
  }

  predicate NoSpace(s: string)
  {
    forall c :: c in s ==> !IsSpace(c)
  }

  /** strings.HasPrefix */
  predicate HasPrefix(s: string, p: string)
  {
    |p| <= |s| && s[..|p|] == p
  }

  /** `sub` occurs in `s` starting at position `i`. */
  predicate OccursAt(s: string, sub: string, i: int)
  {
    0 <= i && i + |sub| <= |s| && s[i..i + |sub|] == sub
  }

  /** The first position at or after `from` where `sub` occurs in `s`, or -1. */
  function IndexFrom(s: string, sub: string, from: nat): (r: int)
    decreases |s| + 1 - from
    ensures r == -1 || (from <= r && OccursAt(s, sub, r))
    ensures forall j :: from <= j && (r == -1 || j < r) ==> !OccursAt(s, sub, j)
  {
    if from + |sub| > |s| then -1
    else if s[from..from + |sub|] == sub then from
    else IndexFrom(s, sub, from + 1)
  }

  /** strings.Index: the first position where `sub` occurs in `s`, or -1. */
  function Index(s: string, sub: string): (r: int)
    ensures r == -1 || OccursAt(s, sub, r)
    ensures forall j :: 0 <= j && (r == -1 || j < r) ==> !OccursAt(s, sub, j)
  {
    IndexFrom(s, sub, 0)
  }

  /** The last position at or before `i` where `sub` occurs in `s`, or -1. */
  function LastIndexUpTo(s: string, sub: string, i: int): (r: int)
    decreases i + 1
    ensures r == -1 || (r <= i && OccursAt(s, sub, r))
    ensures forall j :: r < j <= i ==> !OccursAt(s, sub, j)
  {
    if i < 0 then -1
    else if OccursAt(s, sub, i) then i
    else LastIndexUpTo(s, sub, i - 1)
  }

  /** strings.LastIndex: the last position where `sub` occurs in `s`, or -1. */
  function LastIndex(s: string, sub: string): (r: int)
    ensures r == -1 || OccursAt(s, sub, r)
    ensures forall j :: r < j ==> !OccursAt(s, sub, j)
  {
    LastIndexUpTo(s, sub, |s| - |sub|)
  }

  /** An occurrence with none before it is the one strings.Index finds. */
  lemma IndexIs(s: string, sub: string, i: nat)
    requires OccursAt(s, sub, i)
    requires forall j :: 0 <= j < i ==> !OccursAt(s, sub, j)
    ensures Index(s, sub) == i
  {
  }

  /** An occurrence with none after it is the one strings.LastIndex finds. */
  lemma LastIndexIs(s: string, sub: string, i: nat)
    requires OccursAt(s, sub, i)
    requires forall j :: i < j ==> !OccursAt(s, sub, j)
    ensures LastIndex(s, sub) == i
  {
  }

  /** A character absent from `s` occurs nowhere in it. */
  lemma CharNotOccurring(s: string, c: char)
    requires c !in s
    ensures forall j :: !OccursAt(s, [c], j)
    ensures Index(s, [c]) == -1
  {
    forall j | 0 <= j && j + 1 <= |s| ensures !OccursAt(s, [c], j) {
      assert s[j..j + 1] == [s[j]];
      assert s[j] in s;
    }
  }

  /** strings.Split(s, "\n"): the lines of `s`; never empty, and no line holds a newline. */
  function SplitLines(s: string): (lines: seq<string>)
    ensures |lines| > 0
    ensures forall i :: 0 <= i < |lines| ==> '\n' !in lines[i]
  {
    if |s| == 0 then [""]
    else if s[0] == '\n' then [""] + SplitLines(s[1..])
    else
      var rest := SplitLines(s[1..]);
      [[s[0]] + rest[0]] + rest[1..]
  }

  /** strings.Join(lines, "\n") */
  function JoinLines(lines: seq<string>): string
  {
    if |lines| == 0 then ""
    else if |lines| == 1 then lines[0]
    else lines[0] + "\n" + JoinLines(lines[1..])
  }

  /** Joining the lines of `s` gives back `s`. */
  lemma {:induction false} JoinSplitLines(s: string)
    ensures JoinLines(SplitLines(s)) == s
  {
    if |s| == 0 {
    } else if s[0] == '\n' {
      var rest := SplitLines(s[1..]);
      JoinSplitLines(s[1..]);
      assert ([""] + rest)[1..] == rest;
    } else {
      var rest := SplitLines(s[1..]);
      JoinSplitLines(s[1..]);
      var lines := [[s[0]] + rest[0]] + rest[1..];
      assert lines[1..] == rest[1..];
      if |rest| == 1 {
        assert JoinLines(lines) == [s[0]] + rest[0];
      } else {
        assert JoinLines(rest) == rest[0] + "\n" + JoinLines(rest[1..]);
      }
      assert s == [s[0]] + s[1..];
    }
  }

  /** A line without a newline followed by "\n" splits off as the first line. */
  lemma {:induction false} SplitLinesCons(line: string, rest: string)
    requires '\n' !in line
    ensures SplitLines(line + "\n" + rest) == [line] + SplitLines(rest)
  {
    var s := line + "\n" + rest;
    if |line| == 0 {
      assert s == "\n" + rest;
      assert s[1..] == rest;
    } else {
      assert s[0] == line[0];
      assert s[1..] == line[1..] + "\n" + rest;
      SplitLinesCons(line[1..], rest);
      assert [line[0]] + line[1..] == line;
    }
  }

  /** Text without a newline is a single line. */
  lemma {:induction false} SplitLinesSingle(line: string)
    requires '\n' !in line
    ensures SplitLines(line) == [line]
  {
    if |line| > 0 {
      SplitLinesSingle(line[1..]);
      assert [line[0]] + line[1..] == line;
    }
  }

  /** Splitting joined lines gives back the lines, provided none of them holds a newline. */
  lemma {:induction false} SplitJoinLines(lines: seq<string>)
    requires |lines| > 0
    requires forall i :: 0 <= i < |lines| ==> '\n' !in lines[i]
    ensures SplitLines(JoinLines(lines)) == lines
  {
    if |lines| == 1 {
      SplitLinesSingle(lines[0]);
    } else {
      SplitJoinLines(lines[1..]);
      SplitLinesCons(lines[0], JoinLines(lines[1..]));
      assert [lines[0]] + lines[1..] == lines;
    }
  }

  /** The longest prefix of `s` without white space. */
  function Word(s: string): (w: string)
    ensures |w| <= |s| && w == s[..|w|]
    ensures NoSpace(w)
    ensures |w| < |s| ==> IsSpace(s[|w|])
  {
    if |s| == 0 || IsSpace(s[0]) then "" else [s[0]] + Word(s[1..])
  }

  /** strings.Fields: the maximal runs of non-space characters of `s`, in order. */
  function Fields(s: string): (fields: seq<string>)
    decreases |s|
    ensures forall i :: 0 <= i < |fields| ==> fields[i] != "" && NoSpace(fields[i])
  {
    if |s| == 0 then []
    else if IsSpace(s[0]) then Fields(s[1..])
    else
      var w := Word(s);
      [w] + Fields(s[|w|..])
  }

  /** Words joined by single spaces. */
  function SpaceJoin(words: seq<string>): string
  {
    if |words| == 0 then ""
    else if |words| == 1 then words[0]
    else words[0] + " " + SpaceJoin(words[1..])
  }

  lemma {:induction false} WordOfPrefix(a: string, rest: string)
    requires NoSpace(a)
    requires |rest| == 0 || IsSpace(rest[0])
    ensures Word(a + rest) == a
  {
    if |a| > 0 {
      assert a[0] in a;
      assert (a + rest)[1..] == a[1..] + rest;
      assert forall c :: c in a[1..] ==> c in a;
      WordOfPrefix(a[1..], rest);
      assert [a[0]] + a[1..] == a;
    } else {
      assert a + rest == rest;
    }
  }

  /** The fields of single-space separated words are those words. */
  lemma {:induction false} FieldsOfSpaceJoin(words: seq<string>)
    requires forall i :: 0 <= i < |words| ==> words[i] != "" && NoSpace(words[i])
    ensures Fields(SpaceJoin(words)) == words
  {
    if |words| == 1 {
      FieldsOfLeadingWord(words[0], "");
      assert words[0] + "" == words[0];
    } else if |words| > 1 {
      var x := SpaceJoin(words[1..]);
      assert words[0] + " " + x == words[0] + (" " + x);
      FieldsOfLeadingWord(words[0], " " + x);
      assert (" " + x)[1..] == x;
      FieldsOfSpaceJoin(words[1..]);
      assert [words[0]] + words[1..] == words;
    }
  }

  /** A word followed by white space or nothing is the first field. */
  lemma FieldsOfLeadingWord(a: string, rest: string)
    requires a != "" && NoSpace(a)
    requires |rest| == 0 || IsSpace(rest[0])
    ensures Fields(a + rest) == [a] + Fields(rest)
  {
    WordOfPrefix(a, rest);
    assert a[0] in a;
    assert (a + rest)[0] == a[0];
    assert (a + rest)[|a|..] == rest;
  }

}
