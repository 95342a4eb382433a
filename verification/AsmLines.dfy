/** How one line of a listing is read, spelled out: the comment characters, the directives, and what makes
    a label and an instruction. */
module AsmLines {
  import opened Bytes
  import opened AsmText
  import opened AsmParse

  // ----- comments

  /** `code` is `line` up to the first of `marker`, or all of it. */
  ghost predicate UpToFirst(line: string, marker: string, code: string) {
    && code <= line
    && (code == line || OccursAt(line, marker, |code|))
    && forall i :: 0 <= i < |code| ==> !OccursAt(line, marker, i)
  }

  lemma StripsUpTo(arch: Arch, line: string, marker: string)
    requires marker == Marker(arch)
    ensures UpToFirst(line, marker, StripComment(arch, line))
  {
    var found := Find(line, marker, 0);
    var end := if found.Some? then found.value else |line|;
    forall i: nat | i < end
      ensures !OccursAt(line, marker, i)
    {
      if OccursAt(line, marker, i) {
        FindIsLeftmost(line, marker, 0, i);
      }
    }
  }

  /** A comment starts at the first `#` on x86-64 and riscv32, at the first `//` on AArch64 and at the
      first `@` on Thumb. */
  lemma CommentStarts(line: string)
    ensures UpToFirst(line, "#", StripComment(X86_64, line)) && UpToFirst(line, "#", StripComment(Riscv32, line))
    ensures UpToFirst(line, "//", StripComment(Aarch64, line))
    ensures UpToFirst(line, "@", StripComment(Thumb, line))
  {
    StripsUpTo(X86_64, line, "#");
    StripsUpTo(Riscv32, line, "#");
    StripsUpTo(Aarch64, line, "//");
    StripsUpTo(Thumb, line, "@");
  }

  /** So an immediate with its `#` stays on Thumb and on AArch64. */
  lemma ImmediatesStay(line: string)
    ensures '@' !in line ==> StripComment(Thumb, line) == line
    ensures '/' !in line ==> StripComment(Aarch64, line) == line
    ensures '#' in line ==> StripComment(X86_64, line) < line && StripComment(Riscv32, line) < line
  {
    CommentStarts(line);
    var thumb, arm := StripComment(Thumb, line), StripComment(Aarch64, line);
    if thumb != line {
      assert line[|thumb|..|thumb| + 1][0] == line[|thumb|];
    }
    if arm != line {
      assert line[|arm|..|arm| + 2][0] == line[|arm|];
    }
    if i :| 0 <= i < |line| && line[i] == '#' {
      assert line[i..i + 1] == "#";
      assert OccursAt(line, "#", i);
    }
  }

  // ----- what a line is

  /** The rest of a `.type` line: a name, a comma, and one of two words for a function. */
  ghost predicate DeclaresFunction(rest: string, name: string) {
    exists a, kind :: rest == a + ("," + kind) && NamesFunction(a, kind, name)
  }

  predicate NamesFunction(a: string, kind: string, name: string) {
    ',' !in a && (kind == "@function" || kind == "%function") && Trim(a) == name
  }

  predicate IsDirective(line: string) {
    ".type" <= line || ".Lfunc_end" <= line
  }

  /** Neither a directive nor a label: it starts with its mnemonic, which ends at the first white space. */
  predicate IsInstruction(line: string, i: Insn) {
    && line != "" && line[0] != '.' && line[|line| - 1] != ':'
    && |i.mnemonic| <= |line| && i.mnemonic == line[..|i.mnemonic|]
    && (forall k :: 0 <= k < |i.mnemonic| ==> !IsSpace(line[k]))
    && (|i.mnemonic| == |line| ==> i.operands == "")
    && (|i.mnemonic| < |line| ==> IsSpace(line[|i.mnemonic|]) && i.operands == Trim(line[|i.mnemonic| + 1..]))
  }

  lemma TypeMeans(rest: string, name: string)
    ensures ReadType(rest) == TypeDecl(name) <==> DeclaresFunction(rest, name)
  {
    var split := SplitOnce(rest, ",");
    if split.Some? {
      var (a, kind) := split.value;
      SplitOnceIsExact(rest, ",", a, kind);
      if ReadType(rest) == TypeDecl(name) {
        assert NamesFunction(a, kind, name);
      }
    }
    if a, kind :| rest == a + ("," + kind) && NamesFunction(a, kind, name) {
      SplitOnceIsExact(rest, ",", a, kind);
    }
  }

  lemma CodeMeans(line: string, i: Insn)
    requires line != "" && line[0] != '.' && line[|line| - 1] != ':'
    ensures ReadCode(line) == Code(i) <==> IsInstruction(line, i)
  {
    var space := FindSpace(line, 0);
    var n := if space.Some? then space.value else |line|;
    assert line[..|line|] == line;
    if IsInstruction(line, i) {
      assert |i.mnemonic| == n;
    }
  }

  /** What a trimmed line is read as. The rest is noise. */
  lemma LineMeans(line: string, name: string, i: Insn)
    ensures ReadTrimmed(line) == TypeDecl(name) <==> ".type" <= line && DeclaresFunction(Trim(line[5..]), name)
    ensures ReadTrimmed(line) == FuncEnd <==> ".Lfunc_end" <= line
    ensures ReadTrimmed(line) == Label(name) <==> !IsDirective(line) && line == name + ":"
    ensures ReadTrimmed(line) == Code(i) <==> IsInstruction(line, i)
  {
    if ".type" <= line {
      assert line[1] == 't' && line[0] == '.';
      TypeMeans(Trim(line[5..]), name);
    } else if ".Lfunc_end" <= line {
      assert line[0] == '.';
    } else if EndsWith(line, ":") {
      assert line == line[..|line| - 1] + ":" && line[|line| - 1] == ':';
    } else if line != "" && line[0] != '.' {
      assert line[|line| - 1..] == [line[|line| - 1]];
      CodeMeans(line, i);
    }
    assert (name + ":")[..|name|] == name && (name + ":")[|name|..] == ":";
  }
}
