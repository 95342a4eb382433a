/** The string operations the assembly auditor is written in. */
module AsmText {
  import opened Bytes

  // ----- searching

  predicate OccursAt(s: string, t: string, i: int) {
    0 <= i && i + |t| <= |s| && s[i..i + |t|] == t
  }

  function Find(s: string, t: string, from: nat): (r: Option<nat>)
    ensures r.Some? ==> from <= r.value && OccursAt(s, t, r.value)
    decreases |s| - from
  {
    if from + |t| > |s| then None
    else if OccursAt(s, t, from) then Some(from)
    else Find(s, t, from + 1)
  }

  function FindLast(s: string, t: string, from: nat): (r: Option<nat>)
    ensures r.Some? ==> from <= r.value && OccursAt(s, t, r.value)
    decreases |s| - from
  {
    if from + |t| > |s| then None
    else
      var later := FindLast(s, t, from + 1);
      if later.Some? then later else if OccursAt(s, t, from) then Some(from) else None
  }

  /** `Find` gives the leftmost occurrence from `from` on. */
  lemma {:induction false} FindIsLeftmost(s: string, t: string, from: nat, i: nat)
    requires from <= i && OccursAt(s, t, i)
    ensures Find(s, t, from).Some? && Find(s, t, from).value <= i
    decreases i - from
  {
    if !OccursAt(s, t, from) {
      FindIsLeftmost(s, t, from + 1, i);
    }
  }

  /** `FindLast` gives the rightmost one. */
  lemma {:induction false} FindLastIsRightmost(s: string, t: string, from: nat, i: nat)
    requires from <= i && OccursAt(s, t, i)
    ensures FindLast(s, t, from).Some? && i <= FindLast(s, t, from).value
    decreases i - from
  {
    if from < i {
      FindLastIsRightmost(s, t, from + 1, i);
    }
  }

  lemma OccursInLonger(s: string, rest: string, t: string, i: nat)
    requires i + |t| <= |s|
    ensures OccursAt(s + rest, t, i) <==> OccursAt(s, t, i)
  {
    assert (s + rest)[i..i + |t|] == s[i..i + |t|];
  }

  /** The first occurrence in a text is the first in any longer one. */
  lemma FindInLonger(s: string, rest: string, t: string)
    requires Find(s, t, 0).Some?
    ensures Find(s + rest, t, 0) == Find(s, t, 0)
  {
    var own := Find(s, t, 0).value;
    OccursInLonger(s, rest, t, own);
    FindIsLeftmost(s + rest, t, 0, own);
    var found := Find(s + rest, t, 0).value;
    OccursInLonger(s, rest, t, found);
    FindIsLeftmost(s, t, 0, found);
  }

  /** Text without the first character of `t` does not hold `t`. */
  lemma FindAbsent(s: string, t: string, from: nat)
    requires t != "" && t[0] !in s
    ensures Find(s, t, from).None?
  {
  }

  predicate Contains(s: string, t: string) {
    Find(s, t, 0).Some?
  }

  lemma ContainsMeansOccurs(s: string, t: string)
    ensures Contains(s, t) <==> exists i :: OccursAt(s, t, i)
  {
    if i :| OccursAt(s, t, i) {
      FindIsLeftmost(s, t, 0, i);
    }
  }

  predicate StartsWith(s: string, t: string) {
    t <= s
  }

  predicate EndsWith(s: string, t: string) {
    |t| <= |s| && s[|s| - |t|..] == t
  }

  // ----- splitting

  function SplitOnce(s: string, t: string): Option<(string, string)> {
    match Find(s, t, 0)
    case None => None
    case Some(i) => Some((s[..i], s[i + |t|..]))
  }

  function SplitAll(s: string, t: string): (parts: seq<string>)
    requires t != ""
    ensures parts != []
    decreases |s|
  {
    match Find(s, t, 0)
    case None => [s]
    case Some(i) => [s[..i]] + SplitAll(s[i + |t|..], t)
  }

  // ----- white space

  predicate IsSpace(c: char) {
    var n := c as int;
    9 <= n <= 13 || n == 0x20 || n == 0x85 || n == 0xA0 || n == 0x1680 || 0x2000 <= n <= 0x200A
    || n == 0x2028 || n == 0x2029 || n == 0x202F || n == 0x205F || n == 0x3000
  }

  /** Among the ASCII characters these six. */
  lemma AsciiSpace(c: char)
    requires c as int < 128
    ensures IsSpace(c) <==> c == ' ' || c == '\t' || c == '\n' || c == '\U{000B}' || c == '\U{000C}' || c == '\r'
  {
  }

  function TrimStart(s: string): string {
    if s != "" && IsSpace(s[0]) then TrimStart(s[1..]) else s
  }

  function TrimEnd(s: string): string {
    if s != "" && IsSpace(s[|s| - 1]) then TrimEnd(s[..|s| - 1]) else s
  }

  function Trim(s: string): string {
    TrimEnd(TrimStart(s))
  }

  /** Nothing to trim. */
  predicate IsTrimmed(s: string) {
    s == "" || (!IsSpace(s[0]) && !IsSpace(s[|s| - 1]))
  }

  lemma TrimTrimmed(s: string)
    requires IsTrimmed(s)
    ensures Trim(s) == s && Trim("\t" + s) == s
  {
    assert ("\t" + s)[1..] == s;
  }

  /** A space at the end is trimmed away. */
  lemma {:induction false} TrimDropsSpace(s: string)
    ensures Trim(s + " ") == Trim(s)
    decreases |s|
  {
    var t := s + " ";
    assert t[|t| - 1] == ' ';
    if s == "" {
      assert t[1..] == "";
    } else if IsSpace(s[0]) {
      assert t[1..] == s[1..] + " ";
      TrimDropsSpace(s[1..]);
    } else {
      assert t[..|t| - 1] == s;
    }
  }

  /** The position of the first white-space character. */
  function FindSpace(s: string, from: nat): (r: Option<nat>)
    requires from <= |s|
    ensures r.Some? ==> from <= r.value < |s| && IsSpace(s[r.value])
    ensures r.Some? ==> forall i :: from <= i < r.value ==> !IsSpace(s[i])
    ensures r.None? ==> forall i :: from <= i < |s| ==> !IsSpace(s[i])
    decreases |s| - from
  {
    if from == |s| then None else if IsSpace(s[from]) then Some(from) else FindSpace(s, from + 1)
  }

  // ----- lines

  function DropCarriageReturn(line: string): string {
    if line != "" && line[|line| - 1] == '\r' then line[..|line| - 1] else line
  }

  /** Lines end at `\n` or `\r\n`; nothing follows the last line end. */
  function Lines(text: string): seq<string>
    decreases |text|
  {
    if text == "" then []
    else match Find(text, "\n", 0)
      case None => [text]
      case Some(i) => [DropCarriageReturn(text[..i])] + Lines(text[i + 1..])
  }

  function Unlines(lines: seq<string>): string {
    if lines == [] then "" else lines[0] + "\n" + Unlines(lines[1..])
  }

  predicate IsLine(s: string) {
    '\n' !in s && (s == "" || s[|s| - 1] != '\r')
  }

  lemma {:induction false} LinesUndoUnlines(lines: seq<string>)
    requires forall i :: 0 <= i < |lines| ==> IsLine(lines[i])
    ensures Lines(Unlines(lines)) == lines
    decreases |lines|
  {
    if lines != [] {
      var text, rest := Unlines(lines), Unlines(lines[1..]);
      FindSeparator(lines[0], "\n", rest);
      assert lines[0] + "\n" + rest == lines[0] + ("\n" + rest);
      assert text[..|lines[0]|] == lines[0] && text[|lines[0]| + 1..] == rest;
      LinesUndoUnlines(lines[1..]);
    }
  }

  /** Lines with an ending each, `\n` or `\r\n`, and then `last`, which has none. */
  function Ended(lines: seq<string>, crlf: seq<bool>, last: string): string
    requires |lines| == |crlf|
  {
    if lines == [] then last
    else lines[0] + ((if crlf[0] then "\r\n" else "\n") + Ended(lines[1..], crlf[1..], last))
  }

  lemma LineEnd(text: string, body: string, rest: string)
    requires text == body + ("\n" + rest) && '\n' !in body
    ensures Lines(text) == [DropCarriageReturn(body)] + Lines(rest)
  {
    FindSeparator(body, "\n", rest);
    assert text[..|body|] == body && text[|body| + 1..] == rest;
  }

  lemma LineFirst(line: string, isCrlf: bool, rest: string)
    requires IsLine(line)
    ensures Lines(line + ((if isCrlf then "\r\n" else "\n") + rest)) == [line] + Lines(rest)
  {
    if isCrlf {
      assert line + ("\r\n" + rest) == (line + "\r") + ("\n" + rest);
      LineEnd(line + ("\r\n" + rest), line + "\r", rest);
      assert (line + "\r")[..|line|] == line;
    } else {
      LineEnd(line + ("\n" + rest), line, rest);
    }
  }

  lemma LastLine(last: string)
    requires '\n' !in last
    ensures Lines(last) == if last == "" then [] else [last]
  {
    FindAbsent(last, "\n", 0);
  }

  /** Either ending ends a line and is no part of it, and the last line needs none. */
  lemma {:induction false} LinesMean(lines: seq<string>, crlf: seq<bool>, last: string)
    requires |lines| == |crlf| && '\n' !in last && forall i :: 0 <= i < |lines| ==> IsLine(lines[i])
    ensures Lines(Ended(lines, crlf, last)) == lines + if last == "" then [] else [last]
    decreases |lines|
  {
    if lines == [] {
      LastLine(last);
    } else {
      LinesMean(lines[1..], crlf[1..], last);
      LineFirst(lines[0], crlf[0], Ended(lines[1..], crlf[1..], last));
    }
  }

  /** The first occurrence of a separator is the one after text without its first character. */
  lemma FindSeparator(s: string, sep: string, rest: string)
    requires sep != "" && sep[0] !in s
    ensures Find(s + (sep + rest), sep, 0) == Some(|s|)
  {
    var text := s + (sep + rest);
    assert text[|s|..|s| + |sep|] == sep;
    FindIsLeftmost(text, sep, 0, |s|);
    var found := Find(text, sep, 0).value;
    assert text[found..found + |sep|][0] == text[found];
  }

  lemma FindsNothing(s: string, t: string, i: nat)
    requires Find(s, t, 0).None?
    ensures !OccursAt(s, t, i)
  {
    if OccursAt(s, t, i) {
      FindIsLeftmost(s, t, 0, i);
    }
  }

  lemma AbsentIfNotFound(s: string, t: string)
    requires |t| == 1 && Find(s, t, 0).None?
    ensures t[0] !in s
  {
    forall i | 0 <= i < |s|
      ensures s[i] != t[0]
    {
      FindsNothing(s, t, i);
      assert s[i..i + 1] == [s[i]] && t == [t[0]];
    }
  }

  // ----- what splitting means

  function JoinWith(parts: seq<string>, sep: string): string
    requires parts != []
  {
    if |parts| == 1 then parts[0] else parts[0] + (sep + JoinWith(parts[1..], sep))
  }

  /** No part holds the first character of the separator. */
  predicate FreeOf(parts: seq<string>, sep: string)
    requires sep != ""
  {
    forall i :: 0 <= i < |parts| ==> sep[0] !in parts[i]
  }

  lemma SplitFirst(s: string, sep: string, rest: string)
    requires sep != "" && sep[0] !in s
    ensures SplitAll(s + (sep + rest), sep) == [s] + SplitAll(rest, sep)
  {
    var text := s + (sep + rest);
    FindSeparator(s, sep, rest);
    Around(s, sep, rest);
    SplitStep(text, sep, |s|, s, rest);
  }

  lemma Around(s: string, sep: string, rest: string)
    ensures (s + (sep + rest))[..|s|] == s && (s + (sep + rest))[|s| + |sep|..] == rest
  {
  }

  lemma SplitStep(text: string, sep: string, i: nat, before: string, after: string)
    requires sep != "" && Find(text, sep, 0) == Some(i) && text[..i] == before && text[i + |sep|..] == after
    ensures SplitAll(text, sep) == [before] + SplitAll(after, sep)
  {
  }

  /** An occurrence with what is around it. */
  lemma Rejoin(s: string, sep: string, i: nat)
    requires OccursAt(s, sep, i)
    ensures s[..i] + (sep + s[i + |sep|..]) == s
  {
  }

  lemma SplitNone(s: string, sep: string)
    requires sep != "" && sep[0] !in s
    ensures SplitAll(s, sep) == [s]
  {
    FindAbsent(s, sep, 0);
  }

  /** Parts joined by a separator are split back. */
  lemma {:induction false} SplitUndoesJoin(parts: seq<string>, sep: string)
    requires parts != [] && sep != "" && FreeOf(parts, sep)
    ensures SplitAll(JoinWith(parts, sep), sep) == parts
    decreases |parts|
  {
    if |parts| == 1 {
      SplitNone(parts[0], sep);
      assert [parts[0]] == parts;
    } else {
      SplitUndoesJoin(parts[1..], sep);
      SplitFirst(parts[0], sep, JoinWith(parts[1..], sep));
      assert [parts[0]] + parts[1..] == parts;
    }
  }

  lemma JoinCons(s: string, parts: seq<string>, sep: string)
    requires parts != []
    ensures JoinWith([s] + parts, sep) == s + (sep + JoinWith(parts, sep))
  {
    assert ([s] + parts)[1..] == parts;
  }

  /** What a text is split into, joined again, is the text. */
  lemma {:induction false} JoinUndoesSplit(s: string, sep: string)
    requires sep != ""
    ensures JoinWith(SplitAll(s, sep), sep) == s
    decreases |s|
  {
    var found := Find(s, sep, 0);
    if found.Some? {
      var i := found.value;
      var before, after := s[..i], s[i + |sep|..];
      Rejoin(s, sep, i);
      SplitStep(s, sep, i, before, after);
      JoinUndoesSplit(after, sep);
      JoinCons(before, SplitAll(after, sep), sep);
    }
  }

  lemma FirstIsClean(s: string, sep: string, i: nat)
    requires |sep| == 1 && Find(s, sep, 0) == Some(i)
    ensures sep[0] !in s[..i]
  {
    forall k | 0 <= k < i
      ensures s[k] != sep[0]
    {
      if s[k] == sep[0] {
        assert s[k..k + 1] == sep;
        FindIsLeftmost(s, sep, 0, k);
      }
    }
  }

  lemma {:induction false} PartsAreFree(s: string, sep: string)
    requires |sep| == 1
    ensures FreeOf(SplitAll(s, sep), sep)
    decreases |s|
  {
    var found := Find(s, sep, 0);
    if found.Some? {
      FirstIsClean(s, sep, found.value);
      PartsAreFree(s[found.value + 1..], sep);
    } else {
      AbsentIfNotFound(s, sep);
    }
  }

  /** Splitting at a character gives the only list of parts without it that join to the text. */
  lemma SplitIsExact(s: string, sep: string, parts: seq<string>)
    requires |sep| == 1 && parts != []
    ensures SplitAll(s, sep) == parts <==> JoinWith(parts, sep) == s && FreeOf(parts, sep)
  {
    JoinUndoesSplit(s, sep);
    PartsAreFree(s, sep);
    if JoinWith(parts, sep) == s && FreeOf(parts, sep) {
      SplitUndoesJoin(parts, sep);
    }
  }

  /** Splitting once, at the first occurrence of a character. */
  lemma SplitOnceIsExact(s: string, sep: string, a: string, b: string)
    requires |sep| == 1
    ensures SplitOnce(s, sep) == Some((a, b)) <==> s == a + (sep + b) && sep[0] !in a
    ensures SplitOnce(s, sep).None? <==> sep[0] !in s
  {
    var found := Find(s, sep, 0);
    if found.Some? {
      var i := found.value;
      FirstIsClean(s, sep, i);
      assert s == s[..i] + (s[i..i + 1] + s[i + 1..]);
      assert s[i] == sep[0];
    } else {
      AbsentIfNotFound(s, sep);
    }
    if s == a + (sep + b) && sep[0] !in a {
      FindSeparator(a, sep, b);
      assert s[..|a|] == a && s[|a| + 1..] == b;
    }
  }

  // ----- what trimming means

  predicate AllSpace(s: string) {
    forall i :: 0 <= i < |s| ==> IsSpace(s[i])
  }

  lemma {:induction false} TrimStartMeans(s: string) returns (lead: string)
    ensures AllSpace(lead) && s == lead + TrimStart(s)
    ensures TrimStart(s) == "" || !IsSpace(TrimStart(s)[0])
    decreases |s|
  {
    lead := "";
    if s != "" && IsSpace(s[0]) {
      lead := TrimStartMeans(s[1..]);
      lead := [s[0]] + lead;
      assert s == [s[0]] + s[1..];
    }
  }

  lemma {:induction false} TrimEndMeans(s: string) returns (tail: string)
    ensures AllSpace(tail) && s == TrimEnd(s) + tail
    ensures TrimEnd(s) == "" || (!IsSpace(TrimEnd(s)[|TrimEnd(s)| - 1]) && TrimEnd(s)[0] == s[0])
    decreases |s|
  {
    tail := "";
    if s != "" && IsSpace(s[|s| - 1]) {
      var n := |s| - 1;
      tail := TrimEndMeans(s[..n]);
      tail := tail + [s[n]];
      assert s == s[..n] + [s[n]];
    }
  }

  /** Trimming takes white space off both ends and leaves none there. */
  lemma TrimMeans(s: string) returns (lead: string, tail: string)
    ensures AllSpace(lead) && AllSpace(tail) && IsTrimmed(Trim(s)) && s == lead + Trim(s) + tail
  {
    lead := TrimStartMeans(s);
    tail := TrimEndMeans(TrimStart(s));
  }

  lemma {:induction false} TrimStartPadded(lead: string, s: string)
    requires AllSpace(lead) && (s == "" || !IsSpace(s[0]))
    ensures TrimStart(lead + s) == s
    decreases |lead|
  {
    if lead == "" {
      assert lead + s == s;
    } else {
      assert (lead + s)[0] == lead[0] && (lead + s)[1..] == lead[1..] + s;
      TrimStartPadded(lead[1..], s);
    }
  }

  lemma {:induction false} TrimEndPadded(s: string, tail: string)
    requires AllSpace(tail) && (s == "" || !IsSpace(s[|s| - 1]))
    ensures TrimEnd(s + tail) == s
    decreases |tail|
  {
    if tail == "" {
      assert s + tail == s;
    } else {
      var n := |tail| - 1;
      assert (s + tail)[|s| + n] == tail[n] && (s + tail)[..|s| + n] == s + tail[..n];
      TrimEndPadded(s, tail[..n]);
    }
  }

  /** White space around a text is what trimming takes off. */
  lemma TrimPadded(lead: string, s: string, tail: string)
    requires AllSpace(lead) && AllSpace(tail) && IsTrimmed(s) && s != ""
    ensures Trim(lead + s + tail) == s
  {
    assert lead + s + tail == lead + (s + tail);
    TrimStartPadded(lead, s + tail);
    TrimEndPadded(s, tail);
  }

  // ----- numbers

  function Decimal(n: nat): (s: string)
    ensures s != ""
  {
    if n < 10 then ["0123456789"[n]] else Decimal(n / 10) + ["0123456789"[n % 10]]
  }

  predicate AreDigits(s: string) {
    forall i :: 0 <= i < |s| ==> '0' <= s[i] <= '9'
  }

  /** The number that digits spell, read from left to right. */
  function Value(digits: string): nat
    requires AreDigits(digits)
  {
    if digits == "" then 0
    else
      var n := |digits| - 1;
      10 * Value(digits[..n]) + (digits[n] as int - '0' as int)
  }

  /** `s` is how `n` is written: digits, and no zero in front. */
  predicate IsNumeral(s: string, n: nat) {
    s != "" && AreDigits(s) && (|s| > 1 ==> s[0] != '0') && Value(s) == n
  }

  lemma DigitIs(d: nat)
    requires d < 10
    ensures "0123456789"[d] as int == '0' as int + d
  {
  }

  lemma {:induction false} DecimalIsNumeral(n: nat)
    ensures IsNumeral(Decimal(n), n) && (n > 0 ==> Decimal(n)[0] != '0')
  {
    var s := Decimal(n);
    var last := |s| - 1;
    DigitIs(n % 10);
    if n >= 10 {
      DecimalIsNumeral(n / 10);
      assert s[..last] == Decimal(n / 10);
    } else {
      assert s[..last] == "";
    }
  }

  lemma {:induction false} NumeralIsPositive(s: string)
    requires s != "" && AreDigits(s) && s[0] != '0'
    ensures Value(s) > 0
    decreases |s|
  {
    if |s| > 1 {
      NumeralIsPositive(s[..|s| - 1]);
    }
  }

  lemma {:induction false} NumeralIsDecimal(s: string, n: nat)
    requires IsNumeral(s, n)
    ensures s == Decimal(n)
    decreases |s|
  {
    var last := |s| - 1;
    var d := s[last] as int - '0' as int;
    DigitIs(d);
    assert s == s[..last] + [s[last]];
    if last > 0 {
      NumeralIsPositive(s[..last]);
      NumeralIsDecimal(s[..last], Value(s[..last]));
      assert n / 10 == Value(s[..last]) && n % 10 == d;
    } else {
      assert s[..last] == "";
    }
  }
}
