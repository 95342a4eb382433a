/** Printing functions in the form the compiler emits them, and reading them back; and what a
    trailing comment does to a line. */
module AsmPrint {
  import opened Bytes
  import opened AsmText
  import opened AsmParse

  /** The line that ends a body; `mark` is what follows, such as the number and the colon of a label. */
  function EndLine(mark: string): string {
    ".Lfunc_end" + mark
  }

  function KindWord(arch: Arch): string {
    if arch.Thumb? then "%function" else "@function"
  }

  function InsnText(i: Insn): string {
    i.mnemonic + if i.operands == "" then "" else "\t" + i.operands
  }

  function PrintInsn(i: Insn): string {
    "\t" + InsnText(i)
  }

  function PrintInsns(insns: seq<Insn>): seq<string> {
    seq(|insns|, k requires 0 <= k < |insns| => PrintInsn(insns[k]))
  }

  function TypeLine(arch: Arch, name: string): string {
    ".type" + ("\t" + (name + ("," + KindWord(arch))))
  }

  function Head(arch: Arch, name: string): seq<string> {
    [TypeLine(arch, name), name + ":"]
  }

  function Print(arch: Arch, f: Function, mark: string): seq<string> {
    Head(arch, f.name) + PrintInsns(f.insns) + [EndLine(mark)]
  }

  /** Function `k` ends with `marks(k)`. */
  function PrintAll(arch: Arch, fs: seq<Function>, marks: nat -> string): seq<string> {
    if fs == [] then []
    else
      var n := |fs| - 1;
      PrintAll(arch, fs[..n], marks) + Print(arch, fs[n], marks(n))
  }

  // ----- what can be printed

  predicate IsClean(arch: Arch, s: string) {
    Marker(arch)[0] !in s && '\n' !in s
  }

  predicate PrintableName(arch: Arch, name: string) {
    IsClean(arch, name) && IsTrimmed(name) && ',' !in name && !StartsWith(name, ".type")
      && !StartsWith(name, ".Lfunc_end")
  }

  predicate PrintableInsn(arch: Arch, i: Insn) {
    && IsClean(arch, i.mnemonic) && i.mnemonic != "" && i.mnemonic[0] != '.' && FindSpace(i.mnemonic, 0).None?
    && IsClean(arch, i.operands) && IsTrimmed(i.operands)
    && var text := if i.operands == "" then i.mnemonic else i.operands;
    text[|text| - 1] != ':'
  }

  predicate PrintableMark(arch: Arch, mark: string) {
    IsClean(arch, mark) && (mark == "" || !IsSpace(mark[|mark| - 1]))
  }

  predicate Printable(arch: Arch, f: Function) {
    PrintableName(arch, f.name) && forall k :: 0 <= k < |f.insns| ==> PrintableInsn(arch, f.insns[k])
  }

  // ----- reading one printed line

  lemma CleanConcat(arch: Arch, a: string, b: string)
    requires IsClean(arch, a) && IsClean(arch, b)
    ensures IsClean(arch, a + b)
  {
  }

  /** A clean and trimmed line, also behind a tab, is read as it stands. */
  lemma ReadClean(arch: Arch, line: string)
    requires Marker(arch)[0] !in line && IsTrimmed(line)
    ensures ReadLine(arch, line) == ReadLine(arch, "\t" + line) == ReadTrimmed(line)
  {
    FindAbsent(line, Marker(arch), 0);
    FindAbsent("\t" + line, Marker(arch), 0);
    TrimTrimmed(line);
  }

  lemma ReadTypeRest(arch: Arch, name: string)
    requires IsTrimmed(name) && ',' !in name
    ensures ReadType(name + ("," + KindWord(arch))) == TypeDecl(name)
  {
    var rest := name + ("," + KindWord(arch));
    FindSeparator(name, ",", KindWord(arch));
    assert rest[..|name|] == name && rest[|name| + 1..] == KindWord(arch);
    TrimTrimmed(name);
  }

  lemma ReadTypeTrimmed(arch: Arch, decl: string)
    requires IsTrimmed(decl)
    ensures ReadTrimmed(".type" + ("\t" + decl)) == ReadType(decl)
  {
    var line := ".type" + ("\t" + decl);
    assert line[|".type"|..] == "\t" + decl && line[..|".type"|] == ".type";
    TrimTrimmed(decl);
  }

  lemma ReadTypeLine(arch: Arch, name: string)
    requires PrintableName(arch, name)
    ensures ReadLine(arch, TypeLine(arch, name)) == TypeDecl(name)
  {
    TypeLineIsClean(arch, name);
    ReadClean(arch, TypeLine(arch, name));
    ReadTypeTrimmed(arch, name + ("," + KindWord(arch)));
    ReadTypeRest(arch, name);
  }

  lemma TypeLineIsClean(arch: Arch, name: string)
    requires PrintableName(arch, name)
    ensures IsClean(arch, TypeLine(arch, name)) && IsTrimmed(TypeLine(arch, name))
            && IsTrimmed(name + ("," + KindWord(arch)))
  {
    var word, decl := KindWord(arch), name + ("," + KindWord(arch));
    assert decl[|decl| - 1] == word[|word| - 1] == 'n' && decl[0] == if name == "" then ',' else name[0];
    CleanConcat(arch, ",", word);
    CleanConcat(arch, name, "," + word);
    CleanConcat(arch, "\t", decl);
    CleanConcat(arch, ".type", "\t" + decl);
    var line := TypeLine(arch, name);
    assert line[|line| - 1] == decl[|decl| - 1] && line[0] == '.';
  }

  lemma ReadLabelTrimmed(arch: Arch, name: string)
    requires PrintableName(arch, name)
    ensures ReadTrimmed(name + ":") == Label(name)
  {
    var line := name + ":";
    assert line[..|line| - 1] == name && line[|line| - 1..] == ":";
    ColonPrefix(name, ".type");
    ColonPrefix(name, ".Lfunc_end");
  }

  lemma ReadLabelLine(arch: Arch, name: string)
    requires PrintableName(arch, name)
    ensures ReadLine(arch, name + ":") == Label(name)
  {
    ReadClean(arch, name + ":");
    ReadLabelTrimmed(arch, name);
  }

  lemma ColonPrefix(name: string, t: string)
    requires t != "" && ':' !in t
    ensures StartsWith(name + ":", t) <==> StartsWith(name, t)
  {
    var line := name + ":";
    if |t| <= |name| {
      assert line[..|t|] == name[..|t|];
    } else {
      assert line[|name|] == ':' != t[|name|];
    }
  }

  lemma ReadEndTrimmed(mark: string)
    ensures ReadTrimmed(EndLine(mark)) == FuncEnd
  {
    var line := EndLine(mark);
    assert line[..|".Lfunc_end"|] == ".Lfunc_end" && line[1] == 'L' != ".type"[1];
  }

  lemma EndLineIsClean(arch: Arch, mark: string)
    requires PrintableMark(arch, mark)
    ensures IsClean(arch, EndLine(mark)) && IsTrimmed(EndLine(mark)) && IsLine(EndLine(mark))
  {
    var line := EndLine(mark);
    CleanConcat(arch, ".Lfunc_end", mark);
    assert line[0] == '.' && line[|line| - 1] == if mark == "" then 'd' else mark[|mark| - 1];
  }

  lemma ReadEndLine(arch: Arch, mark: string)
    requires PrintableMark(arch, mark)
    ensures ReadLine(arch, EndLine(mark)) == FuncEnd
  {
    EndLineIsClean(arch, mark);
    ReadClean(arch, EndLine(mark));
    ReadEndTrimmed(mark);
  }

  lemma InsnTextEnds(arch: Arch, i: Insn)
    requires PrintableInsn(arch, i)
    ensures InsnText(i) != "" && IsTrimmed(InsnText(i)) && InsnText(i)[0] != '.'
            && InsnText(i)[|InsnText(i)| - 1] != ':'
    ensures IsClean(arch, InsnText(i))
  {
    var text, last := InsnText(i), if i.operands == "" then i.mnemonic else i.operands;
    assert text[0] == i.mnemonic[0] && text[|text| - 1] == last[|last| - 1];
  }

  lemma ReadInsnText(arch: Arch, i: Insn)
    requires PrintableInsn(arch, i)
    ensures ReadCode(InsnText(i)) == Code(i)
  {
    var text := InsnText(i);
    if i.operands == "" {
      assert text == i.mnemonic;
    } else {
      FirstSpace(i.mnemonic, "\t" + i.operands, 0);
      assert text[..|i.mnemonic|] == i.mnemonic && text[|i.mnemonic| + 1..] == i.operands;
      TrimTrimmed(i.operands);
    }
  }

  lemma ReadCodeTrimmed(text: string)
    requires text != "" && text[0] != '.' && text[|text| - 1] != ':'
    ensures ReadTrimmed(text) == ReadCode(text)
  {
    assert text[0] != ".type"[0] && text[0] != ".Lfunc_end"[0];
    assert text[|text| - 1..][0] == text[|text| - 1];
  }

  lemma ReadInsnLine(arch: Arch, i: Insn)
    requires PrintableInsn(arch, i)
    ensures ReadLine(arch, PrintInsn(i)) == Code(i)
  {
    InsnTextEnds(arch, i);
    ReadClean(arch, InsnText(i));
    ReadCodeTrimmed(InsnText(i));
    ReadInsnText(arch, i);
  }

  lemma FirstSpace(s: string, rest: string, from: nat)
    requires from <= |s| && FindSpace(s, 0).None? && rest != "" && IsSpace(rest[0])
    ensures FindSpace(s + rest, from) == Some(|s|)
    decreases |s| - from
  {
  }

  // ----- reading everything back

  function LinesOf(f: Function): seq<Line> {
    [TypeDecl(f.name), Label(f.name)] + CodeLines(f.insns) + [FuncEnd]
  }

  function CodeLines(insns: seq<Insn>): seq<Line> {
    seq(|insns|, k requires 0 <= k < |insns| => Code(insns[k]))
  }

  lemma ReadLinesConcat(arch: Arch, a: seq<string>, b: seq<string>)
    ensures ReadLines(arch, a + b) == ReadLines(arch, a) + ReadLines(arch, b)
  {
  }

  lemma ReadInsnLines(arch: Arch, insns: seq<Insn>)
    requires forall k :: 0 <= k < |insns| ==> PrintableInsn(arch, insns[k])
    ensures ReadLines(arch, PrintInsns(insns)) == CodeLines(insns)
  {
    forall k | 0 <= k < |insns|
      ensures ReadLine(arch, PrintInsn(insns[k])) == Code(insns[k])
    {
      ReadInsnLine(arch, insns[k]);
    }
  }

  lemma ReadPrinted(arch: Arch, f: Function, mark: string)
    requires Printable(arch, f) && PrintableMark(arch, mark)
    ensures ReadLines(arch, Print(arch, f, mark)) == LinesOf(f)
  {
    var code := PrintInsns(f.insns);
    ReadHead(arch, f.name);
    ReadInsnLines(arch, f.insns);
    ReadEndLine(arch, mark);
    ReadThreeParts(arch, Head(arch, f.name), code, EndLine(mark));
  }

  lemma ReadHead(arch: Arch, name: string)
    requires PrintableName(arch, name)
    ensures ReadLines(arch, Head(arch, name)) == [TypeDecl(name), Label(name)]
  {
    ReadTypeLine(arch, name);
    ReadLabelLine(arch, name);
    ReadTwo(arch, TypeLine(arch, name), name + ":");
  }

  lemma ReadTwo(arch: Arch, a: string, b: string)
    ensures ReadLines(arch, [a, b]) == [ReadLine(arch, a), ReadLine(arch, b)]
  {
  }

  lemma ReadThreeParts(arch: Arch, head: seq<string>, code: seq<string>, last: string)
    ensures ReadLines(arch, head + code + [last])
            == ReadLines(arch, head) + ReadLines(arch, code) + [ReadLine(arch, last)]
  {
    ReadLinesConcat(arch, head, code);
    ReadLinesConcat(arch, head + code, [last]);
  }

  lemma {:induction false} ScanCode(before: seq<Line>, insns: seq<Insn>, name: string, n: nat)
    requires n <= |insns| && Scan(before).Reading? && Scan(before).current == Some(Function(name, []))
    ensures Scan(before + CodeLines(insns)[..n]) == Scan(before).(current := Some(Function(name, insns[..n])))
    decreases n
  {
    var ls := before + CodeLines(insns)[..n];
    if n == 0 {
      assert ls == before;
    } else {
      assert ls[..|ls| - 1] == before + CodeLines(insns)[..n - 1] && ls[|ls| - 1] == Code(insns[n - 1]);
      ScanCode(before, insns, name, n - 1);
      assert insns[..n] == insns[..n - 1] + [insns[n - 1]];
    }
  }

  lemma ScanOpening(before: seq<Line>, name: string)
    requires Scan(before).Reading? && Scan(before).current.None?
    ensures Scan(before + [TypeDecl(name)] + [Label(name)])
         == Reading(Scan(before).declared + {name}, Scan(before).functions, Some(Function(name, [])))
  {
    ScanSnoc(before, TypeDecl(name));
    ScanSnoc(before + [TypeDecl(name)], Label(name));
  }

  lemma ScanBody(before: seq<Line>, f: Function)
    requires Scan(before).Reading? && Scan(before).current.None?
    ensures Scan(before + [TypeDecl(f.name)] + [Label(f.name)] + CodeLines(f.insns))
         == Reading(Scan(before).declared + {f.name}, Scan(before).functions, Some(f))
  {
    ScanOpening(before, f.name);
    ScanCode(before + [TypeDecl(f.name)] + [Label(f.name)], f.insns, f.name, |f.insns|);
    assert CodeLines(f.insns)[..|f.insns|] == CodeLines(f.insns) && f.insns[..|f.insns|] == f.insns;
  }

  lemma LinesOfSplit(before: seq<Line>, f: Function)
    ensures before + [TypeDecl(f.name)] + [Label(f.name)] + CodeLines(f.insns) + [FuncEnd] == before + LinesOf(f)
  {
  }

  lemma ScanPrinted(before: seq<Line>, f: Function)
    requires Scan(before).Reading? && Scan(before).current.None?
    ensures Scan(before + LinesOf(f)) == Reading(Scan(before).declared + {f.name}, Scan(before).functions + [f], None)
  {
    var opening := before + [TypeDecl(f.name)] + [Label(f.name)];
    ScanBody(before, f);
    ScanSnoc(opening + CodeLines(f.insns), FuncEnd);
    LinesOfSplit(before, f);
  }

  lemma ScanSnoc(before: seq<Line>, line: Line)
    ensures Scan(before + [line]) == Step(Scan(before), line)
  {
    assert (before + [line])[..|before|] == before;
  }

  function LinesOfAll(fs: seq<Function>): seq<Line> {
    if fs == [] then [] else LinesOfAll(fs[..|fs| - 1]) + LinesOf(fs[|fs| - 1])
  }

  /** Everything that can be printed: the functions and the marks that end them. */
  ghost predicate PrintableAll(arch: Arch, fs: seq<Function>, marks: nat -> string) {
    (forall k :: 0 <= k < |fs| ==> Printable(arch, fs[k])) && forall k :: PrintableMark(arch, marks(k))
  }

  lemma {:induction false} ReadPrintedAll(arch: Arch, fs: seq<Function>, marks: nat -> string)
    requires PrintableAll(arch, fs, marks)
    ensures ReadLines(arch, PrintAll(arch, fs, marks)) == LinesOfAll(fs)
    decreases |fs|
  {
    if fs != [] {
      var n := |fs| - 1;
      ReadPrintedAll(arch, fs[..n], marks);
      ReadPrinted(arch, fs[n], marks(n));
      ReadLinesConcat(arch, PrintAll(arch, fs[..n], marks), Print(arch, fs[n], marks(n)));
    }
  }

  lemma {:induction false} ScanPrintedAll(fs: seq<Function>)
    ensures var st := Scan(LinesOfAll(fs)); st.Reading? && st.current.None? && st.functions == fs
    decreases |fs|
  {
    if fs != [] {
      var n := |fs| - 1;
      ScanPrintedAll(fs[..n]);
      ScanPrinted(LinesOfAll(fs[..n]), fs[n]);
      assert fs[..n] + [fs[n]] == fs;
    }
  }

  lemma {:induction false} PrintedLinesAreLines(arch: Arch, fs: seq<Function>, marks: nat -> string)
    requires PrintableAll(arch, fs, marks)
    ensures forall k :: 0 <= k < |PrintAll(arch, fs, marks)| ==> IsLine(PrintAll(arch, fs, marks)[k])
    decreases |fs|
  {
    if fs != [] {
      var n := |fs| - 1;
      PrintedLinesAreLines(arch, fs[..n], marks);
      PrintIsLines(arch, fs[n], marks(n));
    }
  }

  lemma HeadIsLines(arch: Arch, name: string)
    requires PrintableName(arch, name)
    ensures IsLine(TypeLine(arch, name)) && IsLine(name + ":")
  {
    TypeLineIsClean(arch, name);
  }

  lemma InsnIsLine(arch: Arch, i: Insn)
    requires PrintableInsn(arch, i)
    ensures IsLine(PrintInsn(i))
  {
    InsnTextEnds(arch, i);
  }

  lemma PrintIsLines(arch: Arch, f: Function, mark: string)
    requires Printable(arch, f) && PrintableMark(arch, mark)
    ensures forall k :: 0 <= k < |Print(arch, f, mark)| ==> IsLine(Print(arch, f, mark)[k])
  {
    HeadIsLines(arch, f.name);
    EndLineIsClean(arch, mark);
    forall k | 0 <= k < |f.insns|
      ensures IsLine(PrintInsn(f.insns[k]))
    {
      InsnIsLine(arch, f.insns[k]);
    }
  }

  /** Parsing undoes printing, on the text itself, however the ends of the bodies are marked. */
  lemma ParseUndoesPrint(arch: Arch, fs: seq<Function>, marks: nat -> string)
    requires PrintableAll(arch, fs, marks)
    ensures ParseText(arch, Unlines(PrintAll(arch, fs, marks))) == Ok(fs)
  {
    PrintedLinesAreLines(arch, fs, marks);
    LinesUndoUnlines(PrintAll(arch, fs, marks));
    ReadPrintedAll(arch, fs, marks);
    ScanPrintedAll(fs);
  }

  /** The compiler's own marks, a number and a colon, can be printed. */
  lemma NumberedMark(arch: Arch, n: nat)
    ensures PrintableMark(arch, Decimal(n) + ":")
  {
    DecimalIsNumeral(n);
  }

  // ----- comments

  /** Two equal characters as a marker: behind a lone one of them, it is found one place early. */
  lemma FindDoubled(s: string, t: string, rest: string, k: char)
    requires t == [k, k] && Find(s, t, 0).None?
    ensures Find(s + (t + rest), t, 0) == Some(if s != "" && s[|s| - 1] == k then |s| - 1 else |s|)
  {
    var text, n := s + (t + rest), |s|;
    assert text[n] == k && text[n + 1] == k && text[n..n + 2] == t;
    if n > 0 {
      assert text[n - 1] == s[n - 1] && text[n - 1..n + 1] == [s[n - 1], k];
    }
    forall i: nat | i + 2 <= n
      ensures !OccursAt(text, t, i)
    {
      OccursInLonger(s, t + rest, t, i);
      FindsNothing(s, t, i);
    }
    FindIsLeftmost(text, t, 0, n);
    if n > 0 && s[n - 1] == k {
      FindIsLeftmost(text, t, 0, n - 1);
    }
  }

  lemma FindMarker(arch: Arch, line: string, comment: string)
    requires Find(line, Marker(arch), 0).None?
    ensures Find(line + (Marker(arch) + comment), Marker(arch), 0)
         == Some(if arch.Aarch64? && EndsWith(line, "/") then |line| - 1 else |line|)
  {
    var m := Marker(arch);
    if arch.Aarch64? {
      FindDoubled(line, m, comment, '/');
      assert line != "" ==> line[|line| - 1..] == [line[|line| - 1]];
    } else {
      AbsentIfNotFound(line, m);
      FindSeparator(line, m, comment);
    }
  }

  /** A comment at the end of a line is stripped without touching the rest, except on AArch64 directly
      behind a lone slash, which the two-slash marker then swallows. */
  lemma TrailingCommentIsStripped(arch: Arch, line: string, comment: string)
    ensures StripComment(arch, line + (Marker(arch) + comment)) == StripComment(arch, line)
       <==> !(arch.Aarch64? && EndsWith(line, "/") && !Contains(line, "//"))
  {
    var m := Marker(arch);
    var text := line + (m + comment);
    if Find(line, m, 0).Some? {
      FindInLonger(line, m + comment, m);
      assert text[..Find(line, m, 0).value] == line[..Find(line, m, 0).value];
    } else {
      FindMarker(arch, line, comment);
      assert text[..|line|] == line;
    }
  }

  lemma StripSpaced(arch: Arch, line: string)
    ensures StripComment(arch, line + " ") == StripComment(arch, line)
            || StripComment(arch, line + " ") == StripComment(arch, line) + " "
  {
    var m, text := Marker(arch), line + " ";
    if Find(line, m, 0).Some? {
      FindInLonger(line, " ", m);
      assert text[..Find(line, m, 0).value] == line[..Find(line, m, 0).value];
    } else if Find(text, m, 0).Some? {
      var found := Find(text, m, 0).value;
      assert text[found..found + |m|][|m| - 1] == text[found + |m| - 1];
      OccursInLonger(line, " ", m, found);
      FindIsLeftmost(line, m, 0, found);
    }
  }

  /** A comment set off by a space never changes how a line is read. */
  lemma SpacedCommentIsInvisible(arch: Arch, line: string, comment: string)
    ensures ReadLine(arch, line + " " + (Marker(arch) + comment)) == ReadLine(arch, line)
  {
    var spaced := line + " ";
    assert spaced[|spaced| - 1..] == " ";
    TrailingCommentIsStripped(arch, spaced, comment);
    StripSpaced(arch, line);
    TrimDropsSpace(StripComment(arch, line));
  }

  /** A harmless line may be added anywhere in a listing. */
  lemma ListingNoiseIsIgnored(arch: Arch, before: seq<string>, raw: string, after: seq<string>)
    requires IsHarmless(ReadLines(arch, before), ReadLine(arch, raw))
    ensures ParseLines(ReadLines(arch, before + [raw] + after)) == ParseLines(ReadLines(arch, before + after))
  {
    NoiseIsIgnored(ReadLines(arch, before), ReadLine(arch, raw), ReadLines(arch, after));
    ReadLinesConcat(arch, before, after);
    ReadLinesConcat(arch, before, [raw]);
    ReadLinesConcat(arch, before + [raw], after);
    assert ReadLines(arch, [raw]) == [ReadLine(arch, raw)];
  }
}
