/** Branch classification, fail closed: a mnemonic that looks like a branch but is not listed is an
    error (`None`), never a non-branch. And the counts built on it. */
module AsmClassify {
  import opened Bytes
  import opened AsmText
  import opened AsmParse

  datatype Kind = Conditional | Indirect | Plain | NotBranch

  const X86_CONDITIONS: set<string> := {
    "o", "no", "b", "nb", "ae", "nae", "c", "nc", "e", "z", "ne", "nz", "be", "na", "a", "nbe",
    "s", "ns", "p", "pe", "np", "po", "l", "nge", "ge", "nl", "le", "ng", "g", "nle"}

  const ARM_CONDITIONS: set<string> := {
    "eq", "ne", "cs", "hs", "cc", "lo", "mi", "pl", "vs", "vc", "hi", "ls", "ge", "lt", "gt", "le"}

  const AARCH64_BIT_OPS: set<string> := {"bic", "bics", "bfi", "bfxil", "bfm", "bfc", "bsl", "bit", "bif", "tbl", "tbx"}

  const THUMB_BIT_OPS: set<string> := {"bic", "bics", "bfi", "bfc", "bkpt"}

  const THUMB_BRANCHES: set<string> := {"b", "bl", "blx", "bx"}

  /** What can write `pc` under a condition. */
  const THUMB_PC_WRITERS: set<string> := {"pop", "ldm", "ldr", "mov", "add"}

  const RISCV_BRANCHES: set<string> := {
    "beq", "bne", "blt", "bge", "bltu", "bgeu", "beqz", "bnez", "blez", "bgez", "bltz", "bgtz",
    "bgt", "ble", "bgtu", "bleu", "c.beqz", "c.bnez"}

  /** `base` followed by a condition of `conditions`. */
  predicate HasCondition(m: string, base: string, conditions: set<string>) {
    StartsWith(m, base) && m[|base|..] in conditions
  }

  /** One of `bases` followed by an Arm condition. */
  predicate HasOneOf(m: string, bases: set<string>) {
    exists b :: b in bases && HasCondition(m, b, ARM_CONDITIONS)
  }

  function ClassifyX86(m: string, ops: string): Option<Kind> {
    if m in {"jmp", "jmpq"} && StartsWith(ops, "*") && !EndsWith(ops, "@GOTPCREL(%rip)") then Some(Indirect)
    else if m in {"jmp", "jmpq", "call", "callq", "ret", "retq"} then Some(Plain)
    else if m in {"jrcxz", "jecxz", "loop", "loope", "loopne"} then Some(Conditional)
    else if HasCondition(m, "j", X86_CONDITIONS) then Some(Conditional)
    else if StartsWith(m, "j") || StartsWith(m, "loop") then None
    else Some(NotBranch)
  }

  function ClassifyAarch64(m: string): Option<Kind> {
    if m in {"b", "bl", "blr", "ret"} then Some(Plain)
    else if m == "br" then Some(Indirect)
    else if m in {"cbz", "cbnz", "tbz", "tbnz"} then Some(Conditional)
    else if m in AARCH64_BIT_OPS then Some(NotBranch)
    else if HasCondition(m, "b.", ARM_CONDITIONS) then Some(Conditional)
    else if StartsWith(m, "b") || StartsWith(m, "cb") || StartsWith(m, "tb") then None
    else if StartsWith(m, "ret") then None
    else Some(NotBranch)
  }

  function TrimEndMatches(s: string, t: string): string
    requires t != ""
    decreases |s|
  {
    if EndsWith(s, t) then TrimEndMatches(s[..|s| - |t|], t) else s
  }

  /** Without the encoding-width suffixes. */
  function ThumbBase(m: string): string {
    TrimEndMatches(TrimEndMatches(m, ".w"), ".n")
  }

  /** The parts of a register list, split at `,` and `}`. */
  function ListParts(list: string): (parts: seq<string>)
    ensures parts != []
    decreases |list|
  {
    if list == "" then [""]
    else
      var rest := ListParts(list[1..]);
      if list[0] == ',' || list[0] == '}' then [""] + rest else [[list[0]] + rest[0]] + rest[1..]
  }

  /** The operands name `pc` as the destination, or in a register list. */
  predicate WritesPc(ops: string) {
    ops == "pc" || StartsWith(ops, "pc,")
    || (var list := SplitOnce(ops, "{"); list.Some? && exists r :: r in ListParts(list.value.1) && Trim(r) == "pc")
  }

  function ClassifyThumb(m: string, ops: string): Option<Kind> {
    var pc := WritesPc(ops);
    if m in {"b", "bl", "blx"} then Some(Plain)
    else if m == "bx" && ops == "lr" then Some(Plain)
    else if m in {"bx", "tbb", "tbh"} then Some(Indirect)
    else if m in {"cbz", "cbnz"} then Some(Conditional)
    else if m in THUMB_BIT_OPS then Some(NotBranch)
    else if HasOneOf(m, THUMB_BRANCHES) then Some(Conditional)
    else if StartsWith(m, "b") || StartsWith(m, "cb") || StartsWith(m, "tb") then None
    else if pc && HasOneOf(m, THUMB_PC_WRITERS) then Some(Conditional)
    else if pc && m in {"pop", "ldm"} then Some(Plain)
    else if pc then Some(Indirect)
    else Some(NotBranch)
  }

  function ClassifyRiscv(m: string, ops: string, outlined: bool): Option<Kind> {
    if m in {"j", "c.j", "jal", "c.jal", "call", "tail", "ret", "jalr", "c.jalr"} then Some(Plain)
    else if m in {"jr", "c.jr"} then
      if ops == "ra" || (outlined && ops == "t0") then Some(Plain) else Some(Indirect)
    else if m in RISCV_BRANCHES then Some(Conditional)
    else if StartsWith(m, "b") || StartsWith(m, "j") || StartsWith(m, "c.b") then None
    else if StartsWith(m, "c.j") then None
    else Some(NotBranch)
  }

  function Classify(arch: Arch, i: Insn, outlined: bool): Option<Kind> {
    match arch
    case X86_64 => ClassifyX86(i.mnemonic, i.operands)
    case Aarch64 => ClassifyAarch64(i.mnemonic)
    case Thumb => ClassifyThumb(ThumbBase(i.mnemonic), i.operands)
    case Riscv32 => ClassifyRiscv(i.mnemonic, i.operands, outlined)
  }

  /** Control flow an instruction could hide: a branch-like mnemonic, or a write to `pc`. */
  predicate LooksLikeBranch(arch: Arch, m: string, ops: string) {
    match arch
    case X86_64 => StartsWith(m, "j") || StartsWith(m, "loop")
    case Aarch64 => StartsWith(m, "b") || StartsWith(m, "cb") || StartsWith(m, "tb") || StartsWith(m, "ret")
    case Thumb => StartsWith(m, "b") || StartsWith(m, "cb") || StartsWith(m, "tb") || WritesPc(ops)
    case Riscv32 => StartsWith(m, "b") || StartsWith(m, "j") || StartsWith(m, "c.b") || StartsWith(m, "c.j")
  }

  predicate IsListedBitOp(arch: Arch, m: string) {
    (arch.Aarch64? && m in AARCH64_BIT_OPS) || (arch.Thumb? && m in THUMB_BIT_OPS)
  }

  lemma X86FailsClosed(m: string, ops: string)
    requires LooksLikeBranch(X86_64, m, ops)
    ensures ClassifyX86(m, ops) != Some(NotBranch)
  {
  }

  lemma Aarch64FailsClosed(m: string)
    requires LooksLikeBranch(Aarch64, m, "")
    ensures ClassifyAarch64(m) == Some(NotBranch) <==> m in AARCH64_BIT_OPS
  {
  }

  lemma ThumbFailsClosed(m: string, ops: string)
    requires LooksLikeBranch(Thumb, m, ops)
    ensures ClassifyThumb(m, ops) == Some(NotBranch) <==> m in THUMB_BIT_OPS
  {
  }

  lemma RiscvFailsClosed(m: string, ops: string, outlined: bool)
    requires LooksLikeBranch(Riscv32, m, ops)
    ensures ClassifyRiscv(m, ops, outlined) != Some(NotBranch)
  {
  }

  /** No instruction that looks like a branch passes as a non-branch, except the listed bit ops,
      which always do. */
  lemma ClassificationFailsClosed(arch: Arch, i: Insn, outlined: bool)
    ensures var m := if arch.Thumb? then ThumbBase(i.mnemonic) else i.mnemonic;
            LooksLikeBranch(arch, m, i.operands) ==>
              (Classify(arch, i, outlined) == Some(NotBranch) <==> IsListedBitOp(arch, m))
  {
    var m := if arch.Thumb? then ThumbBase(i.mnemonic) else i.mnemonic;
    if LooksLikeBranch(arch, m, i.operands) {
      match arch
      case X86_64 => X86FailsClosed(m, i.operands);
      case Aarch64 => Aarch64FailsClosed(m);
      case Thumb => ThumbFailsClosed(m, i.operands);
      case Riscv32 => RiscvFailsClosed(m, i.operands, outlined);
    }
  }

  /** Being outlined changes one thing only: on riscv32, `jr t0` is then a return. */
  lemma OutlinedMattersOnlyForT0(arch: Arch, i: Insn)
    ensures Classify(arch, i, true) != Classify(arch, i, false)
       <==> arch.Riscv32? && i.mnemonic in {"jr", "c.jr"} && i.operands == "t0"
  {
  }

  lemma JoinedCondition(base: string, cc: string, conditions: set<string>)
    requires cc in conditions
    ensures HasCondition(base + cc, base, conditions)
  {
    assert (base + cc)[|base|..] == cc;
  }

  /** A base mnemonic with any condition counts as a conditional jump, whatever its operands. */
  lemma X86ConditionsCount(cc: string, ops: string)
    requires cc in X86_CONDITIONS
    ensures ClassifyX86("j" + cc, ops) == Some(Conditional)
  {
    JoinedCondition("j", cc, X86_CONDITIONS);
    assert ("j" + cc)[1..] == cc;
    assert "jmp"[1..] == "mp" && "jmpq"[1..] == "mpq";
    assert "mp" !in X86_CONDITIONS && "mpq" !in X86_CONDITIONS;
  }

  lemma Aarch64ConditionsCount(cc: string)
    requires cc in ARM_CONDITIONS
    ensures ClassifyAarch64("b." + cc) == Some(Conditional)
  {
    JoinedCondition("b.", cc, ARM_CONDITIONS);
    assert ("b." + cc)[1] == '.';
  }

  lemma OtherEnding(base: string, cc: string, other: string)
    requires |cc| == 2 <= |other| && cc != other[|other| - 2..]
    ensures base + cc != other
  {
    assert (base + cc)[|base|..] == cc;
  }

  /** What the mnemonics listed before the conditions end in. */
  predicate IsOtherEnding(cc: string) {
    cc == "lx" || cc == "bb" || cc == "bh" || cc == "bz" || cc == "nz" || cc == "ic" || cc == "fi" || cc == "fc"
      || cc == "pt"
  }

  lemma ConditionsEndOtherwise(cc: string)
    requires cc in ARM_CONDITIONS
    ensures |cc| == 2 && !IsOtherEnding(cc) && cc[0] != '.'
  {
  }

  lemma ThumbSpelling(base: string, cc: string)
    requires |cc| == 2 && !IsOtherEnding(cc) && base != "" && (|base| >= 2 ==> base[1] != 'i')
    ensures base + cc !in {"b", "bl", "blx", "bx", "tbb", "tbh", "cbz", "cbnz"}
    ensures base + cc !in THUMB_BIT_OPS
  {
    OtherEnding(base, cc, "blx");
    OtherEnding(base, cc, "tbb");
    OtherEnding(base, cc, "tbh");
    OtherEnding(base, cc, "cbz");
    OtherEnding(base, cc, "cbnz");
    OtherEnding(base, cc, "bic");
    OtherEnding(base, cc, "bfi");
    OtherEnding(base, cc, "bfc");
    OtherEnding(base, cc, "bkpt");
    assert |base| >= 2 ==> (base + cc)[1] == base[1];
  }

  /** No conditional branch is spelled like a mnemonic that is listed before the conditions. */
  lemma ThumbConditionalIsNoOther(base: string, cc: string)
    requires base in THUMB_BRANCHES && cc in ARM_CONDITIONS
    ensures base + cc !in {"b", "bl", "blx", "bx", "tbb", "tbh", "cbz", "cbnz"} && base + cc !in THUMB_BIT_OPS
  {
    ConditionsEndOtherwise(cc);
    assert base != "" && (|base| >= 2 ==> base[1] != 'i');
    ThumbSpelling(base, cc);
  }

  lemma ThumbBranchCounts(base: string, cc: string, ops: string)
    requires base in THUMB_BRANCHES && cc in ARM_CONDITIONS
    ensures ClassifyThumb(base + cc, ops) == Some(Conditional)
  {
    JoinedCondition(base, cc, ARM_CONDITIONS);
    ThumbConditionalIsNoOther(base, cc);
  }

  /** A mnemonic that starts like no branch is decided by its operands alone. */
  lemma ThumbPcWriteCounts(base: string, cc: string, ops: string)
    requires base in THUMB_PC_WRITERS && cc in ARM_CONDITIONS && WritesPc(ops)
    ensures ClassifyThumb(base + cc, ops) == Some(Conditional)
  {
    JoinedCondition(base, cc, ARM_CONDITIONS);
    var m := base + cc;
    assert m[0] == base[0] && base[0] in {'p', 'l', 'm', 'a'};
    assert forall b :: b in THUMB_BRANCHES ==> b[0] == 'b';
    assert forall b :: b in THUMB_BIT_OPS ==> b[0] == 'b';
    assert !StartsWith(m, "b") && !StartsWith(m, "cb") && !StartsWith(m, "tb");
  }

  /** The encoding width a mnemonic may carry. */
  predicate IsWidth(width: string) {
    width == "" || width == ".w" || width == ".n"
  }

  lemma TrimOnce(s: string, t: string)
    requires t != "" && !EndsWith(s, t)
    ensures TrimEndMatches(s + t, t) == s && TrimEndMatches(s, t) == s
  {
    var text := s + t;
    assert text[|text| - |t|..] == t && text[..|text| - |t|] == s;
  }

  /** A width is dropped, and nothing else of a mnemonic that carries no other. */
  lemma ThumbBaseDropsWidth(m: string, width: string)
    requires IsWidth(width) && !EndsWith(m, ".w") && !EndsWith(m, ".n")
    ensures ThumbBase(m + width) == m
  {
    TrimOnce(m, ".w");
    TrimOnce(m, ".n");
    var text := m + ".n";
    assert text[|text| - 2..] == ".n" != ".w";
    assert m + "" == m;
  }

  lemma ConditionIsNoWidth(base: string, cc: string)
    requires cc in ARM_CONDITIONS
    ensures !EndsWith(base + cc, ".w") && !EndsWith(base + cc, ".n")
  {
    ConditionsEndOtherwise(cc);
    var m := base + cc;
    assert m[|m| - 2..] == cc && cc[0] != '.';
  }

  /** Every conditional branch, and every conditional write to `pc` by an instruction that can make
      one, counts as a conditional jump, in either encoding width. */
  lemma ThumbConditionsCount(base: string, cc: string, width: string, ops: string, outlined: bool)
    requires base in THUMB_BRANCHES || (base in THUMB_PC_WRITERS && WritesPc(ops))
    requires cc in ARM_CONDITIONS && IsWidth(width)
    ensures Classify(Thumb, Insn(base + cc + width, ops), outlined) == Some(Conditional)
  {
    ConditionIsNoWidth(base, cc);
    ThumbBaseDropsWidth(base + cc, width);
    if base in THUMB_BRANCHES {
      ThumbBranchCounts(base, cc, ops);
    } else {
      ThumbPcWriteCounts(base, cc, ops);
    }
  }

  // ----- counting jumps

  function KindsOf(arch: Arch, insns: seq<Insn>, outlined: bool): seq<Option<Kind>> {
    seq(|insns|, k requires 0 <= k < |insns| => Classify(arch, insns[k], outlined))
  }

  predicate AllKnown(kinds: seq<Option<Kind>>) {
    forall k :: 0 <= k < |kinds| ==> kinds[k].Some?
  }

  predicate IsJump(kind: Option<Kind>) {
    kind == Some(Conditional) || kind == Some(Indirect)
  }

  function NumJumps(kinds: seq<Option<Kind>>): nat {
    if kinds == [] then 0 else (if IsJump(kinds[0]) then 1 else 0) + NumJumps(kinds[1..])
  }

  lemma {:induction false} NumJumpsAdd(a: seq<Option<Kind>>, b: seq<Option<Kind>>)
    ensures NumJumps(a + b) == NumJumps(a) + NumJumps(b)
    decreases |a|
  {
    if a == [] {
      assert a + b == b;
    } else {
      assert (a + b)[0] == a[0] && (a + b)[1..] == a[1..] + b;
      NumJumpsAdd(a[1..], b);
    }
  }

  lemma AllKnownConcat(a: seq<Option<Kind>>, b: seq<Option<Kind>>)
    ensures AllKnown(a + b) <==> AllKnown(a) && AllKnown(b)
  {
    assert forall k :: 0 <= k < |a| ==> (a + b)[k] == a[k];
    assert forall k :: 0 <= k < |b| ==> (a + b)[|a| + k] == b[k];
  }

  /** The number of conditional and indirect jumps, if every instruction classifies. */
  function JumpCount(kinds: seq<Option<Kind>>): Option<nat> {
    if AllKnown(kinds) then Some(NumJumps(kinds)) else None
  }

  function JumpsIn(arch: Arch, insns: seq<Insn>, outlined: bool): Option<nat> {
    JumpCount(KindsOf(arch, insns, outlined))
  }

  function JumpsOf(arch: Arch, f: Function): Option<nat> {
    JumpsIn(arch, f.insns, f.IsOutlined())
  }

  function AddCounts(a: Option<nat>, b: Option<nat>): Option<nat> {
    if a.Some? && b.Some? then Some(a.value + b.value) else None
  }

  lemma JumpCountAdd(a: seq<Option<Kind>>, b: seq<Option<Kind>>)
    ensures JumpCount(a + b) == AddCounts(JumpCount(a), JumpCount(b))
  {
    NumJumpsAdd(a, b);
    AllKnownConcat(a, b);
  }

  lemma KindsConcat(arch: Arch, a: seq<Insn>, b: seq<Insn>, outlined: bool)
    ensures KindsOf(arch, a + b, outlined) == KindsOf(arch, a, outlined) + KindsOf(arch, b, outlined)
  {
  }

  /** Counting joined bodies of the same outlined kind adds their counts. */
  lemma JumpsAdd(arch: Arch, a: seq<Insn>, b: seq<Insn>, outlined: bool)
    ensures JumpsIn(arch, a + b, outlined) == AddCounts(JumpsIn(arch, a, outlined), JumpsIn(arch, b, outlined))
  {
    KindsConcat(arch, a, b, outlined);
    JumpCountAdd(KindsOf(arch, a, outlined), KindsOf(arch, b, outlined));
  }

  /** The indices of the conditional and the indirect jumps. */
  ghost function JumpsAt(kinds: seq<Option<Kind>>): set<int> {
    set k | 0 <= k < |kinds| && (kinds[k] == Some(Conditional) || kinds[k] == Some(Indirect))
  }

  lemma {:induction false} JumpsAreCounted(kinds: seq<Option<Kind>>)
    ensures NumJumps(kinds) == |JumpsAt(kinds)|
    decreases |kinds|
  {
    if kinds == [] {
      assert JumpsAt(kinds) == {};
    } else {
      var n := |kinds| - 1;
      var front := kinds[..n];
      assert kinds == front + [kinds[n]];
      NumJumpsAdd(front, [kinds[n]]);
      assert NumJumps([kinds[n]]) == if n in JumpsAt(kinds) then 1 else 0;
      JumpsAreCounted(front);
      assert JumpsAt(kinds) == JumpsAt(front) + if n in JumpsAt(kinds) then {n} else {};
    }
  }

  /** The loop of `jumps`: stops at the first instruction that does not classify, and otherwise counts
      the conditional and the indirect jumps, every one once. */
  method CountJumps(kinds: seq<Option<Kind>>) returns (count: Option<nat>)
    ensures count == JumpCount(kinds)
    ensures count.None? <==> exists k :: 0 <= k < |kinds| && kinds[k] == None
    ensures count.Some? ==>
              count.value == |set k | 0 <= k < |kinds| && (kinds[k] == Some(Conditional) || kinds[k] == Some(Indirect))|
  {
    JumpsAreCounted(kinds);
    var n: nat := 0;
    for i := 0 to |kinds|
      invariant AllKnown(kinds[..i])
      invariant n + NumJumps(kinds[i..]) == NumJumps(kinds)
    {
      assert kinds[i..][1..] == kinds[i + 1..];
      if kinds[i].None? {
        return None;
      }
      if kinds[i].value.Conditional? || kinds[i].value.Indirect? {
        n := n + 1;
      }
    }
    return Some(n);
  }

  // ----- the riscv32 carry shape

  const TWO_REGISTER_BRANCHES: set<string> := {"beq", "bne", "blt", "bge", "bltu", "bgeu", "bgt", "ble", "bgtu", "bleu"}

  function Registers(ops: string): seq<string> {
    var parts := SplitAll(ops, ",");
    seq(|parts|, i requires 0 <= i < |parts| => Trim(parts[i]))
  }

  predicate SamePair(b: seq<string>, s: seq<string>) {
    |b| == 3 && |s| == 3 && ((b[0] == s[1] && b[1] == s[2]) || (b[0] == s[2] && b[1] == s[1]))
  }

  /** A branch on two registers, then `sltu` on the same pair in either order. */
  predicate IsCarryPair(branch: Insn, next: Insn) {
    && branch.mnemonic in TWO_REGISTER_BRANCHES && next.mnemonic == "sltu"
    && SamePair(Registers(branch.operands), Registers(next.operands))
  }

  function NumShapes(insns: seq<Insn>): nat {
    if |insns| < 2 then 0 else (if IsCarryPair(insns[0], insns[1]) then 1 else 0) + NumShapes(insns[1..])
  }

  method CarryShapes(f: Function) returns (count: nat)
    ensures count == NumShapes(f.insns)
  {
    count := 0;
    var n := |f.insns|;
    var i := 0;
    while i + 1 < n
      invariant 0 <= i <= n && (n > 0 ==> i < n)
      invariant count + NumShapes(f.insns[i..]) == NumShapes(f.insns)
    {
      assert f.insns[i..][1..] == f.insns[i + 1..];
      if IsCarryPair(f.insns[i], f.insns[i + 1]) {
        count := count + 1;
      }
      i := i + 1;
    }
  }

  /** Joining two bodies adds their counts, and one more exactly if the seam is a carry pair. */
  lemma {:induction false} ShapesAdd(a: seq<Insn>, b: seq<Insn>)
    ensures NumShapes(a + b) == NumShapes(a) + NumShapes(b)
                              + if a != [] && b != [] && IsCarryPair(a[|a| - 1], b[0]) then 1 else 0
    decreases |a|
  {
    if a == [] {
      assert a + b == b;
    } else if |a| == 1 {
      assert (a + b)[1..] == b;
    } else {
      assert (a + b)[1..] == a[1..] + b;
      ShapesAdd(a[1..], b);
    }
  }

  predicate PairAt(insns: seq<Insn>, k: int) {
    0 <= k < |insns| - 1 && IsCarryPair(insns[k], insns[k + 1])
  }

  /** Where the carry pairs start. */
  ghost function PairsAt(insns: seq<Insn>): set<int> {
    set k | 0 <= k < |insns| && PairAt(insns, k)
  }

  lemma PairOfLonger(front: seq<Insn>, last: Insn, k: int)
    requires front != []
    ensures var n := |front|;
            PairAt(front + [last], k) <==> PairAt(front, k) || (k == n - 1 && IsCarryPair(front[n - 1], last))
  {
    var n, insns := |front|, front + [last];
    if 0 <= k < n {
      assert insns[k] == front[k] && insns[k + 1] == if k < n - 1 then front[k + 1] else last;
    }
  }

  lemma PairsOfLonger(front: seq<Insn>, last: Insn)
    requires front != []
    ensures var n := |front|;
            PairsAt(front + [last]) == PairsAt(front) + if IsCarryPair(front[n - 1], last) then {n - 1} else {}
  {
    forall k {
      PairOfLonger(front, last, k);
    }
  }

  /** Every adjacent pair with the shape is counted, every one once. */
  lemma {:induction false} ShapesAreCounted(insns: seq<Insn>)
    ensures NumShapes(insns) == |PairsAt(insns)|
    decreases |insns|
  {
    if |insns| < 2 {
      assert PairsAt(insns) == {};
    } else {
      var n := |insns| - 1;
      var front, last := insns[..n], insns[n];
      assert insns == front + [last];
      ShapesAdd(front, [last]);
      ShapesAreCounted(front);
      PairsOfLonger(front, last);
    }
  }

  /** In particular the count is positive exactly when some adjacent pair has the shape. */
  lemma ShapesMeanPair(insns: seq<Insn>)
    ensures NumShapes(insns) > 0 <==> exists k :: 0 <= k < |insns| && PairAt(insns, k)
  {
    ShapesAreCounted(insns);
    if k :| k in PairsAt(insns) {
      assert PairAt(insns, k);
    }
    if k :| 0 <= k < |insns| && PairAt(insns, k) {
      assert k in PairsAt(insns);
    }
  }

  predicate IsOperand(r: string) {
    ',' !in r && IsTrimmed(r)
  }

  function ThreeOperands(x: string, y: string, z: string): string {
    x + ("," + ((" " + y) + ("," + (" " + z))))
  }

  lemma SplitThree(a: string, b: string, c: string)
    requires ',' !in a && ',' !in b && ',' !in c
    ensures SplitAll(a + ("," + (b + ("," + c))), ",") == [a, b, c]
  {
    SplitFirst(a, ",", b + ("," + c));
    SplitFirst(b, ",", c);
    SplitNone(c, ",");
  }

  lemma RegistersAreTrimmed(ops: string, a: string, b: string, c: string)
    requires SplitAll(ops, ",") == [a, b, c]
    ensures Registers(ops) == [Trim(a), Trim(b), Trim(c)]
  {
  }

  lemma RegistersOfThree(x: string, y: string, z: string)
    requires IsOperand(x) && IsOperand(y) && IsOperand(z)
    ensures Registers(ThreeOperands(x, y, z)) == [x, y, z]
  {
    SplitThree(x, " " + y, " " + z);
    RegistersAreTrimmed(ThreeOperands(x, y, z), x, " " + y, " " + z);
    TrimTrimmed(x);
    TrimSpaced(y);
    TrimSpaced(z);
  }

  lemma TrimSpaced(s: string)
    requires IsTrimmed(s)
    ensures Trim(" " + s) == s
  {
    assert (" " + s)[1..] == s;
    TrimTrimmed(s);
  }

  /** A branch on `x, y` and an `sltu` on `u, v` make a carry pair exactly when the two register
      pairs are equal as sets, so swapping either pair changes nothing. */
  lemma CarryPairIsUnordered(branch: Insn, next: Insn, x: string, y: string, to: string, d: string, u: string,
                             v: string)
    requires Registers(branch.operands) == [x, y, to] && Registers(next.operands) == [d, u, v]
    ensures IsCarryPair(branch, next) <==>
            branch.mnemonic in TWO_REGISTER_BRANCHES && next.mnemonic == "sltu" && {x, y} == {u, v}
  {
    assert {x, y} == {u, v} ==> x in {u, v} && y in {u, v} && u in {x, y} && v in {x, y};
    assert SamePair([x, y, to], [d, u, v]) <==> {x, y} == {u, v};
  }

  // ----- the multiply helpers

  predicate MentionsMul(i: Insn) {
    Contains(i.operands, "__multi3") || Contains(i.operands, "__muldi3")
  }

  function MulCalls(insns: seq<Insn>): nat {
    if insns == [] then 0 else (if MentionsMul(insns[0]) then 1 else 0) + MulCalls(insns[1..])
  }

  lemma {:induction false} MulCallsMeanMention(insns: seq<Insn>)
    ensures MulCalls(insns) > 0 <==> exists k :: 0 <= k < |insns| && MentionsMul(insns[k])
    decreases |insns|
  {
    if insns != [] {
      MulCallsMeanMention(insns[1..]);
      if k :| 0 <= k < |insns| && MentionsMul(insns[k]) {
        if k > 0 {
          assert MentionsMul(insns[1..][k - 1]);
        }
      }
    }
  }
}
