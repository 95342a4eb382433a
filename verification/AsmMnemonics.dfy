/** What every instruction counts as, spelled out: for each architecture, the mnemonics and operands of
    the conditional and indirect jumps, of the plain transfers of control, of what is no branch, and, as
    all the rest, of what is refused. `ClassifyIsExact` says that the classifier follows these tables. */
module AsmMnemonics {
  import opened Bytes
  import opened AsmText
  import opened AsmParse
  import opened AsmClassify

  // ----- x86-64

  predicate X86Conditional(m: string) {
    || m in {"jrcxz", "jecxz", "loop", "loope", "loopne"}
    || exists cc :: m == "j" + cc && cc in {
         "o", "no", "b", "nb", "ae", "nae", "c", "nc", "e", "z", "ne", "nz", "be", "na", "a", "nbe",
         "s", "ns", "p", "pe", "np", "po", "l", "nge", "ge", "nl", "le", "ng", "g", "nle"}
  }

  predicate X86Indirect(m: string, ops: string) {
    (m == "jmp" || m == "jmpq") && ops != "" && ops[0] == '*' && !EndsWith(ops, "@GOTPCREL(%rip)")
  }

  predicate X86Plain(m: string, ops: string) {
    m in {"jmp", "jmpq", "call", "callq", "ret", "retq"} && !X86Indirect(m, ops)
  }

  predicate X86NoBranch(m: string) {
    m !in {"call", "callq", "ret", "retq"} && !StartsWith(m, "j") && !StartsWith(m, "loop")
  }

  lemma X86Condition(m: string)
    ensures HasCondition(m, "j", X86_CONDITIONS) <==> exists cc :: m == "j" + cc && cc in {
         "o", "no", "b", "nb", "ae", "nae", "c", "nc", "e", "z", "ne", "nz", "be", "na", "a", "nbe",
         "s", "ns", "p", "pe", "np", "po", "l", "nge", "ge", "nl", "le", "ng", "g", "nle"}
  {
    if HasCondition(m, "j", X86_CONDITIONS) {
      assert m == "j" + m[1..];
    }
    if cc :| m == "j" + cc && cc in X86_CONDITIONS {
      JoinedCondition("j", cc, X86_CONDITIONS);
    }
  }

  lemma X86JumpIsNoCondition(m: string)
    requires m == "jmp" || m == "jmpq"
    ensures !HasCondition(m, "j", X86_CONDITIONS)
  {
    assert "jmp"[1..] == "mp" && "jmpq"[1..] == "mpq";
  }

  lemma X86IsExact(m: string, ops: string)
    ensures ClassifyX86(m, ops) == Some(Conditional) <==> X86Conditional(m)
    ensures ClassifyX86(m, ops) == Some(Indirect) <==> X86Indirect(m, ops)
    ensures ClassifyX86(m, ops) == Some(Kind.Plain) <==> X86Plain(m, ops)
    ensures ClassifyX86(m, ops) == Some(NotBranch) <==> X86NoBranch(m)
  {
    X86Condition(m);
    if m == "jmp" || m == "jmpq" {
      X86JumpIsNoCondition(m);
    }
  }

  // ----- AArch64

  /** A mnemonic with one of the Arm conditions behind it. */
  predicate WithArmCondition(m: string, base: string) {
    exists cc :: m == base + cc && cc in {
      "eq", "ne", "cs", "hs", "cc", "lo", "mi", "pl", "vs", "vc", "hi", "ls", "ge", "lt", "gt", "le"}
  }

  lemma ArmCondition(m: string, base: string)
    ensures HasCondition(m, base, ARM_CONDITIONS) <==> WithArmCondition(m, base)
  {
    if HasCondition(m, base, ARM_CONDITIONS) {
      assert m == base + m[|base|..];
    }
    if cc :| m == base + cc && cc in ARM_CONDITIONS {
      JoinedCondition(base, cc, ARM_CONDITIONS);
    }
  }

  predicate Aarch64Conditional(m: string) {
    m in {"cbz", "cbnz", "tbz", "tbnz"} || WithArmCondition(m, "b.")
  }

  predicate Aarch64Plain(m: string) {
    m in {"b", "bl", "blr", "ret"}
  }

  predicate Aarch64NoBranch(m: string) {
    || m in {"bic", "bics", "bfi", "bfxil", "bfm", "bfc", "bsl", "bit", "bif", "tbl", "tbx"}
    || (!StartsWith(m, "b") && !StartsWith(m, "cb") && !StartsWith(m, "tb") && !StartsWith(m, "ret"))
  }

  lemma Aarch64IsExact(m: string)
    ensures ClassifyAarch64(m) == Some(Conditional) <==> Aarch64Conditional(m)
    ensures ClassifyAarch64(m) == Some(Indirect) <==> m == "br"
    ensures ClassifyAarch64(m) == Some(Kind.Plain) <==> Aarch64Plain(m)
    ensures ClassifyAarch64(m) == Some(NotBranch) <==> Aarch64NoBranch(m)
  {
    ArmCondition(m, "b.");
    if WithArmCondition(m, "b.") {
      assert m[0] == 'b' && m[1] == '.';
    }
  }

  // ----- riscv32

  predicate RiscvConditional(m: string) {
    m in {"beq", "bne", "blt", "bge", "bltu", "bgeu", "beqz", "bnez", "blez", "bgez", "bltz", "bgtz",
          "bgt", "ble", "bgtu", "bleu", "c.beqz", "c.bnez"}
  }

  /** A jump through a register, unless it is a return: through `ra`, or, in an outlined body, `t0`. */
  predicate RiscvIndirect(m: string, ops: string, outlined: bool) {
    (m == "jr" || m == "c.jr") && ops != "ra" && !(outlined && ops == "t0")
  }

  predicate RiscvPlain(m: string, ops: string, outlined: bool) {
    || m in {"j", "c.j", "jal", "c.jal", "call", "tail", "ret", "jalr", "c.jalr"}
    || ((m == "jr" || m == "c.jr") && (ops == "ra" || (outlined && ops == "t0")))
  }

  predicate RiscvNoBranch(m: string) {
    m !in {"call", "tail", "ret"} && !StartsWith(m, "b") && !StartsWith(m, "j") && !StartsWith(m, "c.b")
      && !StartsWith(m, "c.j")
  }

  lemma RiscvIsExact(m: string, ops: string, outlined: bool)
    ensures ClassifyRiscv(m, ops, outlined) == Some(Conditional) <==> RiscvConditional(m)
    ensures ClassifyRiscv(m, ops, outlined) == Some(Indirect) <==> RiscvIndirect(m, ops, outlined)
    ensures ClassifyRiscv(m, ops, outlined) == Some(Kind.Plain) <==> RiscvPlain(m, ops, outlined)
    ensures ClassifyRiscv(m, ops, outlined) == Some(NotBranch) <==> RiscvNoBranch(m)
  {
  }

  // ----- Thumb

  predicate IsSeparator(c: char) {
    c == ',' || c == '}'
  }

  /** `pc` stands at `k`, with nothing but white space between it and the separators, or the ends of
      the list, on both sides. */
  ghost predicate PcAt(list: string, k: nat) {
    OccursAt(list, "pc", k) && (exists i :: BlankFrom(list, i, k)) && (exists j :: BlankAfter(list, k, j))
  }

  /** From a separator, or the start, at `i` there is only white space up to `k`. */
  predicate BlankFrom(list: string, i: int, k: int) {
    0 <= i <= k <= |list| && (i == 0 || IsSeparator(list[i - 1])) && AllSpace(list[i..k])
  }

  /** After the two characters at `k` there is only white space up to a separator, or the end, at `j`. */
  predicate BlankAfter(list: string, k: int, j: int) {
    0 <= k <= j - 2 <= |list| - 2 && (j == |list| || IsSeparator(list[j])) && AllSpace(list[k + 2..j])
  }

  ghost predicate ListHoldsPc(list: string) {
    exists k: nat :: k <= |list| && PcAt(list, k)
  }

  /** The first brace. */
  predicate ListStartsAt(ops: string, b: int) {
    0 <= b < |ops| && ops[b] == '{' && '{' !in ops[..b]
  }

  /** `pc` is the whole of the operands, or the first of them, or one of a register list. */
  ghost predicate NamesPc(ops: string) {
    || ops == "pc"
    || StartsWith(ops, "pc,")
    || exists b :: 0 <= b < |ops| && ListStartsAt(ops, b) && ListHoldsPc(ops[b + 1..])
  }

  /** Characters `i` to `j` lie between separators and hold none. */
  predicate IsItem(list: string, i: nat, j: nat) {
    && i <= j <= |list|
    && (i == 0 || IsSeparator(list[i - 1])) && (j == |list| || IsSeparator(list[j]))
    && forall k :: i <= k < j ==> !IsSeparator(list[k])
  }

  /** Every part of a register list is what stands between two separators. */
  lemma {:induction false} PartIsItem(list: string, n: nat) returns (i: nat, j: nat)
    requires n < |ListParts(list)|
    ensures IsItem(list, i, j) && ListParts(list)[n] == list[i..j] && (n == 0 <==> i == 0)
    decreases |list|
  {
    if list == "" {
      i, j := 0, 0;
    } else if IsSeparator(list[0]) {
      if n == 0 {
        i, j := 0, 0;
      } else {
        i, j := PartIsItem(list[1..], n - 1);
        ItemShifts(list, i, j);
        i, j := i + 1, j + 1;
      }
    } else {
      i, j := PartIsItem(list[1..], n);
      if n == 0 {
        ItemGrows(list, j);
        j := j + 1;
      } else {
        ItemShifts(list, i, j);
        i, j := i + 1, j + 1;
      }
    }
  }

  lemma ItemShifts(list: string, i: nat, j: nat)
    requires list != "" && IsItem(list[1..], i, j) && (i == 0 ==> IsSeparator(list[0]))
    ensures IsItem(list, i + 1, j + 1) && list[i + 1..j + 1] == list[1..][i..j]
  {
    assert forall k :: 0 <= k < |list| - 1 ==> list[1..][k] == list[k + 1];
  }

  lemma ItemGrows(list: string, j: nat)
    requires list != "" && IsItem(list[1..], 0, j) && !IsSeparator(list[0])
    ensures IsItem(list, 0, j + 1) && list[0..j + 1] == [list[0]] + list[1..][0..j]
  {
    assert forall k :: 1 <= k < |list| ==> list[k] == list[1..][k - 1];
  }

  /** And whatever stands between two separators is a part. */
  lemma {:induction false} ItemIsPart(list: string, i: nat, j: nat) returns (n: nat)
    requires IsItem(list, i, j)
    ensures n < |ListParts(list)| && ListParts(list)[n] == list[i..j] && (n == 0 <==> i == 0)
    decreases |list|
  {
    n := 0;
    if list != "" {
      if i > 0 {
        ItemUnshifts(list, i, j);
        n := ItemIsPart(list[1..], i - 1, j - 1);
        if IsSeparator(list[0]) {
          n := n + 1;
        }
      } else if !IsSeparator(list[0]) {
        ItemShrinks(list, j);
        var n' := ItemIsPart(list[1..], 0, j - 1);
      }
    }
  }

  lemma ItemUnshifts(list: string, i: nat, j: nat)
    requires IsItem(list, i, j) && 0 < i
    ensures list != "" && IsItem(list[1..], i - 1, j - 1) && list[i..j] == list[1..][i - 1..j - 1]
    ensures i == 1 ==> IsSeparator(list[0])
  {
    assert forall k :: 0 <= k < |list| - 1 ==> list[1..][k] == list[k + 1];
  }

  lemma ItemShrinks(list: string, j: nat)
    requires list != "" && IsItem(list, 0, j) && !IsSeparator(list[0])
    ensures 0 < j && IsItem(list[1..], 0, j - 1) && list[0..j] == [list[0]] + list[1..][0..j - 1]
  {
    assert forall k :: 1 <= k < |list| ==> list[k] == list[1..][k - 1];
  }

  lemma ItemAround(list: string, i: nat, k: nat, j: nat)
    requires i <= k && k + 2 <= j <= |list| && OccursAt(list, "pc", k) && AllSpace(list[i..k])
             && AllSpace(list[k + 2..j])
    ensures Trim(list[i..j]) == "pc" && forall x :: i <= x < j ==> !IsSeparator(list[x])
  {
    assert list[i..j] == list[i..k] + "pc" + list[k + 2..j];
    TrimPadded(list[i..k], "pc", list[k + 2..j]);
    forall x | i <= x < j
      ensures !IsSeparator(list[x])
    {
      if x < k {
        assert list[i..k][x - i] == list[x];
      } else if x < k + 2 {
        assert list[k..k + 2][x - k] == list[x];
      } else {
        assert list[k + 2..j][x - (k + 2)] == list[x];
      }
    }
  }

  lemma ThreePieces(x: string, y: string, z: string)
    ensures (x + y + z)[..|x|] == x && (x + y + z)[|x|..|x| + |y|] == y && (x + y + z)[|x| + |y|..] == z
  {
  }

  lemma PieceOf(s: string, i: nat, j: nat, a: nat, b: nat)
    requires i <= j <= |s| && a <= b <= j - i
    ensures s[i..j][a..b] == s[i + a..i + b]
  {
    var x, y := s[i..j][a..b], s[i + a..i + b];
    assert |x| == |y| && forall k :: 0 <= k < |x| ==> x[k] == y[k];
  }

  lemma PcInItem(list: string, i: nat, j: nat) returns (k: nat)
    requires IsItem(list, i, j) && Trim(list[i..j]) == "pc"
    ensures k <= |list| && PcAt(list, k)
  {
    var item := list[i..j];
    var lead, tail := TrimMeans(item);
    var n := |lead|;
    k := i + n;
    assert item == lead + "pc" + tail;
    ThreePieces(lead, "pc", tail);
    PieceOf(list, i, j, 0, n);
    PieceOf(list, i, j, n, n + 2);
    PieceOf(list, i, j, n + 2, |item|);
    assert item[0..n] == lead && item[n + 2..|item|] == tail;
    assert list[k..k + 2] == "pc";
    assert BlankFrom(list, i, k) && BlankAfter(list, k, j);
  }

  /** A register list names `pc` exactly when one of its parts is `pc`, white space aside. */
  lemma ListNamesPc(list: string)
    ensures (exists r :: r in ListParts(list) && Trim(r) == "pc") <==> ListHoldsPc(list)
  {
    if r :| r in ListParts(list) && Trim(r) == "pc" {
      var n: nat :| n < |ListParts(list)| && ListParts(list)[n] == r;
      var i, j := PartIsItem(list, n);
      var k := PcInItem(list, i, j);
    }
    if ListHoldsPc(list) {
      var k: nat :| k <= |list| && PcAt(list, k);
      var i :| BlankFrom(list, i, k);
      var j :| BlankAfter(list, k, j);
      ItemAround(list, i, k, j);
      var n := ItemIsPart(list, i, j);
      assert ListParts(list)[n] in ListParts(list);
    }
  }

  lemma WritesPcIsExact(ops: string)
    ensures WritesPc(ops) <==> NamesPc(ops)
  {
    var split := SplitOnce(ops, "{");
    if split.Some? {
      var (a, list) := split.value;
      SplitOnceIsExact(ops, "{", a, list);
      assert ops[|a|] == '{' && ops[..|a|] == a && ops[|a| + 1..] == list;
      assert ListStartsAt(ops, |a|);
      ListNamesPc(list);
    }
    if b :| 0 <= b < |ops| && ListStartsAt(ops, b) {
      assert ops == ops[..b] + ("{" + ops[b + 1..]);
      SplitOnceIsExact(ops, "{", ops[..b], ops[b + 1..]);
    }
  }

  ghost predicate ThumbConditional(m: string, ops: string) {
    || m == "cbz" || m == "cbnz"
    || WithArmCondition(m, "b") || WithArmCondition(m, "bl") || WithArmCondition(m, "blx") || WithArmCondition(m, "bx")
    || (NamesPc(ops)
        && (WithArmCondition(m, "pop") || WithArmCondition(m, "ldm") || WithArmCondition(m, "ldr")
            || WithArmCondition(m, "mov") || WithArmCondition(m, "add")))
  }

  predicate LooksThumb(m: string) {
    StartsWith(m, "b") || StartsWith(m, "cb") || StartsWith(m, "tb")
  }

  ghost predicate ThumbIndirect(m: string, ops: string) {
    || (m == "bx" && ops != "lr") || m == "tbb" || m == "tbh"
    || (NamesPc(ops) && !LooksThumb(m) && !ThumbConditional(m, ops) && m != "pop" && m != "ldm")
  }

  ghost predicate ThumbPlain(m: string, ops: string) {
    m == "b" || m == "bl" || m == "blx" || (m == "bx" && ops == "lr") || (NamesPc(ops) && (m == "pop" || m == "ldm"))
  }

  ghost predicate ThumbNoBranch(m: string, ops: string) {
    m in {"bic", "bics", "bfi", "bfc", "bkpt"} || (!LooksThumb(m) && !NamesPc(ops))
  }

  /** A branch with a condition is none of the mnemonics that come before the conditions. */
  lemma ThumbBranchIsNoOther(m: string)
    requires HasOneOf(m, THUMB_BRANCHES)
    ensures !IsListed(m) && LooksThumb(m)
  {
    var b :| b in THUMB_BRANCHES && HasCondition(m, b, ARM_CONDITIONS);
    assert m == b + m[|b|..] && m[0] == b[0] == 'b';
    ThumbConditionalIsNoOther(b, m[|b|..]);
  }

  lemma ThumbBranchSpelled(m: string)
    ensures HasOneOf(m, THUMB_BRANCHES) <==>
            WithArmCondition(m, "b") || WithArmCondition(m, "bl") || WithArmCondition(m, "blx")
              || WithArmCondition(m, "bx")
  {
    ArmCondition(m, "b");
    ArmCondition(m, "bl");
    ArmCondition(m, "blx");
    ArmCondition(m, "bx");
    assert "b" in THUMB_BRANCHES && "bl" in THUMB_BRANCHES && "blx" in THUMB_BRANCHES && "bx" in THUMB_BRANCHES;
  }

  lemma ThumbWriterSpelled(m: string)
    ensures HasOneOf(m, THUMB_PC_WRITERS) <==>
            WithArmCondition(m, "pop") || WithArmCondition(m, "ldm") || WithArmCondition(m, "ldr")
            || WithArmCondition(m, "mov") || WithArmCondition(m, "add")
  {
    ArmCondition(m, "pop");
    ArmCondition(m, "ldm");
    ArmCondition(m, "ldr");
    ArmCondition(m, "mov");
    ArmCondition(m, "add");
    assert "pop" in THUMB_PC_WRITERS && "ldm" in THUMB_PC_WRITERS && "ldr" in THUMB_PC_WRITERS;
    assert "mov" in THUMB_PC_WRITERS && "add" in THUMB_PC_WRITERS;
  }

  lemma WriterSpelling(b: string)
    requires b in THUMB_PC_WRITERS
    ensures |b| == 3 && b[0] != 'b' && b[0] != 'c' && b[0] != 't'
  {
  }

  lemma ThumbWriterIsNoBranch(m: string)
    requires HasOneOf(m, THUMB_PC_WRITERS)
    ensures !IsListed(m) && !LooksThumb(m) && m != "pop" && m != "ldm"
  {
    var b :| b in THUMB_PC_WRITERS && HasCondition(m, b, ARM_CONDITIONS);
    WriterSpelling(b);
    ConditionsEndOtherwise(m[3..]);
    assert m[0] == b[0] && |m| == 5;
    if IsListed(m) {
      ListedLookThumb(m);
    }
  }

  /** What the arms decide, given which mnemonics carry a condition and whether `pc` is written. */
  function Decide(m: string, ops: string, branch: bool, writer: bool, pc: bool): Option<Kind> {
    if m in {"b", "bl", "blx"} then Some(Kind.Plain)
    else if m == "bx" && ops == "lr" then Some(Kind.Plain)
    else if m in {"bx", "tbb", "tbh"} then Some(Indirect)
    else if m in {"cbz", "cbnz"} then Some(Conditional)
    else if m in THUMB_BIT_OPS then Some(NotBranch)
    else if branch then Some(Conditional)
    else if LooksThumb(m) then None
    else if pc && writer then Some(Conditional)
    else if pc && m in {"pop", "ldm"} then Some(Kind.Plain)
    else if pc then Some(Indirect)
    else Some(NotBranch)
  }

  lemma ClassifyDecides(m: string, ops: string)
    ensures ClassifyThumb(m, ops)
            == Decide(m, ops, HasOneOf(m, THUMB_BRANCHES), HasOneOf(m, THUMB_PC_WRITERS), WritesPc(ops))
  {
  }

  predicate IsListed(m: string) {
    || m == "b" || m == "bl" || m == "blx" || m == "bx" || m == "tbb" || m == "tbh" || m == "cbz" || m == "cbnz"
    || m in {"bic", "bics", "bfi", "bfc", "bkpt"}
  }

  lemma ListedLookThumb(m: string)
    requires IsListed(m)
    ensures LooksThumb(m) && m != "pop" && m != "ldm"
  {
    assert m[0] == 'b' || m[0] == 'c' || m[0] == 't';
  }

  /** The decisions, when a condition keeps a mnemonic out of the lists. */
  lemma DecideIsExact(m: string, ops: string, branch: bool, writer: bool, pc: bool)
    requires (branch ==> !IsListed(m))
             && (writer ==> !IsListed(m) && !branch && !LooksThumb(m) && m != "pop" && m != "ldm")
    requires branch ==> LooksThumb(m)
    ensures var k, conditional := Decide(m, ops, branch, writer, pc), m == "cbz" || m == "cbnz" || branch
                                 || (pc && writer);
            && (k == Some(Conditional) <==> conditional)
            && (k == Some(Indirect) <==> (m == "bx" && ops != "lr") || m == "tbb" || m == "tbh"
                                         || (pc && !LooksThumb(m) && !conditional && m != "pop" && m != "ldm"))
            && (k == Some(Kind.Plain) <==> m == "b" || m == "bl" || m == "blx" || (m == "bx" && ops == "lr")
                                           || (pc && (m == "pop" || m == "ldm")))
            && (k == Some(NotBranch) <==> m in {"bic", "bics", "bfi", "bfc", "bkpt"} || (!LooksThumb(m) && !pc))
  {
    if IsListed(m) {
      ListedLookThumb(m);
    }
    if m == "pop" || m == "ldm" {
      assert m[0] == 'p' || m[0] == 'l';
    }
  }

  lemma ThumbIsExact(m: string, ops: string)
    ensures ClassifyThumb(m, ops) == Some(Conditional) <==> ThumbConditional(m, ops)
    ensures ClassifyThumb(m, ops) == Some(Indirect) <==> ThumbIndirect(m, ops)
    ensures ClassifyThumb(m, ops) == Some(Kind.Plain) <==> ThumbPlain(m, ops)
    ensures ClassifyThumb(m, ops) == Some(NotBranch) <==> ThumbNoBranch(m, ops)
  {
    var branch, writer := HasOneOf(m, THUMB_BRANCHES), HasOneOf(m, THUMB_PC_WRITERS);
    WritesPcIsExact(ops);
    ThumbBranchSpelled(m);
    ThumbWriterSpelled(m);
    ClassifyDecides(m, ops);
    if branch {
      ThumbBranchIsNoOther(m);
    }
    if writer {
      ThumbWriterIsNoBranch(m);
    }
    DecideIsExact(m, ops, branch, writer, NamesPc(ops));
  }

  // ----- the encoding width

  function Repeat(t: string, n: nat): string {
    if n == 0 then "" else Repeat(t, n - 1) + t
  }

  /** `m` is `base` with `j` times `.n` and then `k` times `.w` behind it, and no more of them can go. */
  predicate IsWidened(m: string, base: string, j: nat, k: nat) {
    && m == base + Repeat(".n", j) + Repeat(".w", k)
    && !EndsWith(base, ".n") && !EndsWith(base + Repeat(".n", j), ".w")
  }

  ghost predicate IsBase(m: string, base: string) {
    exists j: nat, k: nat :: IsWidened(m, base, j, k)
  }

  lemma TrimStep(text: string, s: string, t: string)
    requires t != "" && text == s + t
    ensures EndsWith(text, t) && TrimEndMatches(text, t) == TrimEndMatches(s, t)
  {
    assert text[|text| - |t|..] == t && text[..|text| - |t|] == s;
  }

  lemma OneMoreRepeat(s: string, t: string, n: nat)
    ensures s + Repeat(t, n + 1) == s + Repeat(t, n) + t
  {
    assert s + (Repeat(t, n) + t) == s + Repeat(t, n) + t;
  }

  lemma CancelEnd(x: string, y: string, t: string)
    requires x + t == y + t
    ensures x == y
  {
    assert |x + t| == |y + t| && (x + t)[..|x|] == x && (y + t)[..|y|] == y;
  }

  /** One repetition less. */
  lemma Peel(text: string, s: string, t: string, n: nat) returns (shorter: string)
    requires n > 0 && text == s + Repeat(t, n)
    ensures shorter == s + Repeat(t, n - 1) && text == shorter + t && EndsWith(text, t)
  {
    OneMoreRepeat(s, t, n - 1);
    shorter := s + Repeat(t, n - 1);
  }

  lemma NoRepeat(text: string, s: string, t: string)
    requires text == s + Repeat(t, 0)
    ensures text == s
  {
  }

  /** There is only one way to leave a text's repetitions off. */
  lemma {:induction false} OneBase(text: string, s: string, n: nat, s': string, n': nat, t: string)
    requires !EndsWith(s, t) && !EndsWith(s', t) && text == s + Repeat(t, n) && text == s' + Repeat(t, n')
    ensures s == s'
    decreases n
  {
    if n == 0 {
      NoRepeat(text, s, t);
      if n' > 0 {
        var y := Peel(text, s', t, n');
      } else {
        NoRepeat(text, s', t);
      }
    } else {
      var x := Peel(text, s, t, n);
      if n' == 0 {
        NoRepeat(text, s', t);
      } else {
        var y := Peel(text, s', t, n');
        CancelEnd(x, y, t);
        OneBase(x, s, n - 1, s', n' - 1, t);
      }
    }
  }

  lemma {:induction false} TrimmedOff(s: string, t: string) returns (base: string, n: nat)
    requires t != ""
    ensures base == TrimEndMatches(s, t) && s == base + Repeat(t, n) && !EndsWith(base, t)
    decreases |s|
  {
    if EndsWith(s, t) {
      var front := s[..|s| - |t|];
      assert s == front + t;
      base, n := TrimmedOff(front, t);
      TrimStep(s, front, t);
      OneMoreRepeat(base, t, n);
      n := n + 1;
    } else {
      base, n := s, 0;
      assert s == s + Repeat(t, 0);
    }
  }

  lemma ThumbBaseIsExact(m: string, base: string)
    ensures ThumbBase(m) == base <==> IsBase(m, base)
  {
    var wide, k := TrimmedOff(m, ".w");
    var narrow, j := TrimmedOff(wide, ".n");
    assert IsWidened(m, narrow, j, k);
    if j': nat, k': nat :| IsWidened(m, base, j', k') {
      OneBase(m, wide, k, base + Repeat(".n", j'), k', ".w");
      OneBase(wide, narrow, j, base, j', ".n");
    }
  }

  // ----- all of them; on Thumb, of the mnemonic's base

  ghost predicate IsConditional(arch: Arch, i: Insn) {
    match arch
    case X86_64 => X86Conditional(i.mnemonic)
    case Aarch64 => Aarch64Conditional(i.mnemonic)
    case Thumb => ThumbConditional(ThumbBase(i.mnemonic), i.operands)
    case Riscv32 => RiscvConditional(i.mnemonic)
  }

  ghost predicate IsIndirect(arch: Arch, i: Insn, outlined: bool) {
    match arch
    case X86_64 => X86Indirect(i.mnemonic, i.operands)
    case Aarch64 => i.mnemonic == "br"
    case Thumb => ThumbIndirect(ThumbBase(i.mnemonic), i.operands)
    case Riscv32 => RiscvIndirect(i.mnemonic, i.operands, outlined)
  }

  ghost predicate IsPlain(arch: Arch, i: Insn, outlined: bool) {
    match arch
    case X86_64 => X86Plain(i.mnemonic, i.operands)
    case Aarch64 => Aarch64Plain(i.mnemonic)
    case Thumb => ThumbPlain(ThumbBase(i.mnemonic), i.operands)
    case Riscv32 => RiscvPlain(i.mnemonic, i.operands, outlined)
  }

  ghost predicate IsNoBranch(arch: Arch, i: Insn) {
    match arch
    case X86_64 => X86NoBranch(i.mnemonic)
    case Aarch64 => Aarch64NoBranch(i.mnemonic)
    case Thumb => ThumbNoBranch(ThumbBase(i.mnemonic), i.operands)
    case Riscv32 => RiscvNoBranch(i.mnemonic)
  }

  /** The classifier follows the tables, and refuses exactly what is in none of them. */
  lemma ClassifyIsExact(arch: Arch, i: Insn, outlined: bool)
    ensures Classify(arch, i, outlined) == Some(Conditional) <==> IsConditional(arch, i)
    ensures Classify(arch, i, outlined) == Some(Indirect) <==> IsIndirect(arch, i, outlined)
    ensures Classify(arch, i, outlined) == Some(Kind.Plain) <==> IsPlain(arch, i, outlined)
    ensures Classify(arch, i, outlined) == Some(NotBranch) <==> IsNoBranch(arch, i)
  {
    match arch
    case X86_64 => X86IsExact(i.mnemonic, i.operands);
    case Aarch64 => Aarch64IsExact(i.mnemonic);
    case Riscv32 => RiscvIsExact(i.mnemonic, i.operands, outlined);
    case Thumb => ThumbIsExact(ThumbBase(i.mnemonic), i.operands);
  }

  // ----- what the counts count

  ghost predicate IsRecognized(arch: Arch, i: Insn, outlined: bool) {
    IsConditional(arch, i) || IsIndirect(arch, i, outlined) || IsPlain(arch, i, outlined) || IsNoBranch(arch, i)
  }

  ghost predicate IsJumpInsn(arch: Arch, i: Insn, outlined: bool) {
    IsConditional(arch, i) || IsIndirect(arch, i, outlined)
  }

  /** The positions of the jumps. */
  ghost function JumpSet(arch: Arch, insns: seq<Insn>, outlined: bool): set<int> {
    set k | 0 <= k < |insns| && IsJumpInsn(arch, insns[k], outlined)
  }

  /** Every instruction is in the tables, and `n` of them are conditional or indirect jumps. */
  ghost predicate HasJumps(arch: Arch, insns: seq<Insn>, outlined: bool, n: nat) {
    && (forall k :: 0 <= k < |insns| ==> IsRecognized(arch, insns[k], outlined))
    && n == |JumpSet(arch, insns, outlined)|
  }

  lemma ClassifiesMeans(arch: Arch, insns: seq<Insn>, outlined: bool)
    ensures AllKnown(KindsOf(arch, insns, outlined)) <==>
            forall k :: 0 <= k < |insns| ==> IsRecognized(arch, insns[k], outlined)
  {
    var kinds := KindsOf(arch, insns, outlined);
    forall k | 0 <= k < |insns|
      ensures kinds[k].Some? <==> IsRecognized(arch, insns[k], outlined)
    {
      ClassifyIsExact(arch, insns[k], outlined);
    }
  }

  lemma JumpSetIsJumpsAt(arch: Arch, insns: seq<Insn>, outlined: bool)
    ensures JumpSet(arch, insns, outlined) == JumpsAt(KindsOf(arch, insns, outlined))
  {
    var kinds := KindsOf(arch, insns, outlined);
    forall k | 0 <= k < |insns|
      ensures k in JumpsAt(kinds) <==> IsJumpInsn(arch, insns[k], outlined)
    {
      assert kinds[k] == Classify(arch, insns[k], outlined);
      ClassifyIsExact(arch, insns[k], outlined);
    }
  }

  lemma CountIs(arch: Arch, insns: seq<Insn>, outlined: bool)
    ensures var known := forall k :: 0 <= k < |insns| ==> IsRecognized(arch, insns[k], outlined);
            JumpsIn(arch, insns, outlined) == if known then Some(|JumpSet(arch, insns, outlined)|) else None
  {
    ClassifiesMeans(arch, insns, outlined);
    JumpsAreCounted(KindsOf(arch, insns, outlined));
    JumpSetIsJumpsAt(arch, insns, outlined);
  }

  /** The jump count succeeds exactly when all instructions are in the tables, and counts the jumps. */
  lemma CountIsExact(arch: Arch, insns: seq<Insn>, outlined: bool, n: nat)
    ensures JumpsIn(arch, insns, outlined) == Some(n) <==> HasJumps(arch, insns, outlined, n)
  {
    CountIs(arch, insns, outlined);
  }

  // ----- the carry shape

  /** The three operands of an instruction: what stands between its commas, white space aside. */
  ghost predicate HasOperands(ops: string, x: string, y: string, z: string) {
    exists a, b, c :: ops == a + ("," + (b + ("," + c))) && AreTrimmedParts(a, b, c, x, y, z)
  }

  predicate AreTrimmedParts(a: string, b: string, c: string, x: string, y: string, z: string) {
    ',' !in a && ',' !in b && ',' !in c && Trim(a) == x && Trim(b) == y && Trim(c) == z
  }

  lemma JoinThree(a: string, b: string, c: string, sep: string)
    ensures JoinWith([a, b, c], sep) == a + (sep + (b + (sep + c)))
  {
    var all, two := [a, b, c], [b, c];
    assert all[1..] == two && two[1..] == [c] && all[0] == a && two[0] == b;
    assert JoinWith(two, sep) == b + (sep + JoinWith([c], sep));
  }

  lemma RegistersAreOperands(ops: string, x: string, y: string, z: string)
    ensures Registers(ops) == [x, y, z] <==> HasOperands(ops, x, y, z)
  {
    if Registers(ops) == [x, y, z] {
      var parts := SplitAll(ops, ",");
      assert |parts| == 3 && parts == [parts[0], parts[1], parts[2]];
      SplitIsExact(ops, ",", parts);
      JoinThree(parts[0], parts[1], parts[2], ",");
      assert Trim(parts[0]) == Registers(ops)[0] && Trim(parts[1]) == Registers(ops)[1]
             && Trim(parts[2]) == Registers(ops)[2];
      assert ops == parts[0] + ("," + (parts[1] + ("," + parts[2])));
      assert AreTrimmedParts(parts[0], parts[1], parts[2], x, y, z);
    }
    if a, b, c :| ops == a + ("," + (b + ("," + c))) && AreTrimmedParts(a, b, c, x, y, z) {
      SplitThree(a, b, c);
      RegistersAreTrimmed(ops, a, b, c);
    }
  }

  /** A branch that compares two registers, and `sltu` on the same two, in either order. */
  ghost predicate ComparesTwice(branch: Insn, next: Insn) {
    && branch.mnemonic in {"beq", "bne", "blt", "bge", "bltu", "bgeu", "bgt", "ble", "bgtu", "bleu"}
    && next.mnemonic == "sltu"
    && exists x, y, to, d, u, v ::
         HasOperands(branch.operands, x, y, to) && HasOperands(next.operands, d, u, v) && {x, y} == {u, v}
  }

  lemma CarryPairIsExact(branch: Insn, next: Insn)
    ensures IsCarryPair(branch, next) <==> ComparesTwice(branch, next)
  {
    var b, s := Registers(branch.operands), Registers(next.operands);
    if IsCarryPair(branch, next) {
      assert b == [b[0], b[1], b[2]] && s == [s[0], s[1], s[2]];
      RegistersAreOperands(branch.operands, b[0], b[1], b[2]);
      RegistersAreOperands(next.operands, s[0], s[1], s[2]);
      CarryPairIsUnordered(branch, next, b[0], b[1], b[2], s[0], s[1], s[2]);
    }
    if ComparesTwice(branch, next) {
      var x, y, to, d, u, v :|
        HasOperands(branch.operands, x, y, to) && HasOperands(next.operands, d, u, v) && {x, y} == {u, v};
      RegistersAreOperands(branch.operands, x, y, to);
      RegistersAreOperands(next.operands, d, u, v);
      CarryPairIsUnordered(branch, next, x, y, to, d, u, v);
    }
  }
}
