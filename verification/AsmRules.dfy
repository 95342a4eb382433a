/** The rules a listing is held to, over the tables and the listing's functions: what must hold of every
    instruction, of every function, and of every row that names this target, optimization level and
    profile. Stated with the mnemonic tables and with literal names, apart from how the gate works. */
module AsmRules {
  import opened Bytes
  import opened AsmText
  import opened AsmSymbols
  import opened AsmParse
  import opened AsmMnemonics

  datatype Profile = DefaultProfile | SmallTables

  /** `spec` must have exactly `expected` jumps in the builds of `target` at `opt`. */
  datatype Row = Row(target: string, opt: string, spec: string, expected: nat)

  /** A row that allows no jump at all. */
  datatype ZeroRow = ZeroRow(target: string, opt: string, spec: string)

  /** The zero-jump rows, the exact-count rows, and those of the small-tables build. */
  datatype Tables = Tables(zero: seq<ZeroRow>, exact: seq<Row>, small: seq<Row>)

  datatype Cell = Cell(target: string, arch: Arch, opt: string, profile: Profile)

  // ----- functions

  predicate IsOutlinedName(name: string) {
    "OUTLINED_FUNCTION_" <= name
  }

  /** `t` stands somewhere in `s`. */
  ghost predicate Occurs(s: string, t: string) {
    exists i :: OccursAt(s, t, i)
  }

  /** Outlined code, and the functions of the limb-arithmetic modules. */
  ghost predicate IsLimbCode(f: Function) {
    || IsOutlinedName(f.name)
    || Occurs(f.name, "8dstu9041") || Occurs(f.name, "8dstu4145") || Occurs(f.name, "9gf2m_wide")
      || Occurs(f.name, "4limb")
  }

  ghost predicate ComparesTwiceAt(insns: seq<Insn>, k: int) {
    0 <= k < |insns| - 1 && ComparesTwice(insns[k], insns[k + 1])
  }

  ghost predicate HasCarryShape(f: Function) {
    exists k :: ComparesTwiceAt(f.insns, k)
  }

  ghost predicate NamesMultiply(i: Insn) {
    Occurs(i.operands, "__multi3") || Occurs(i.operands, "__muldi3")
  }

  /** Some instruction names one of the multiply helpers. */
  ghost predicate CallsMultiply(f: Function) {
    exists k :: 0 <= k < |f.insns| && NamesMultiply(f.insns[k])
  }

  ghost predicate FunctionHolds(arch: Arch, f: Function) {
    !(arch == Riscv32 && IsLimbCode(f) && HasCarryShape(f)) && !CallsMultiply(f)
  }

  /** Every instruction of the function is in the mnemonic tables. */
  ghost predicate AllRecognized(arch: Arch, f: Function) {
    forall k :: 0 <= k < |f.insns| ==> IsRecognized(arch, f.insns[k], IsOutlinedName(f.name))
  }

  // ----- rows

  /** Function `i` and no other matches `spec`. */
  predicate MatchesAlone(fs: seq<Function>, spec: string, i: int) {
    0 <= i < |fs| && forall j :: 0 <= j < |fs| ==> (Matches(fs[j].name, spec) <==> j == i)
  }

  /** All jumps of all outlined bodies, each as its function and its place in it. */
  ghost function OutlinedJumps(arch: Arch, fs: seq<Function>): set<(int, int)> {
    set j, k | 0 <= j < |fs| && 0 <= k < |fs[j].insns| && IsOutlinedJump(arch, fs[j], k) :: (j, k)
  }

  ghost predicate IsOutlinedJump(arch: Arch, f: Function, k: int) {
    IsOutlinedName(f.name) && 0 <= k < |f.insns| && IsJumpInsn(arch, f.insns[k], true)
  }

  ghost predicate CountedAlone(arch: Arch, fs: seq<Function>, spec: string, expected: nat, i: int) {
    MatchesAlone(fs, spec, i) && HasJumps(arch, fs[i].insns, IsOutlinedName(fs[i].name), expected)
  }

  /** Every instruction of every outlined body is in the mnemonic tables. */
  ghost predicate OutlinedRecognized(arch: Arch, fs: seq<Function>) {
    forall j :: 0 <= j < |fs| && IsOutlinedName(fs[j].name) ==> AllRecognized(arch, fs[j])
  }

  /** What a row asks: a single function the spec matches, with the count; or, for the outlined row,
      some outlined body, and the count over all of them. */
  ghost predicate RowHolds(arch: Arch, fs: seq<Function>, spec: string, expected: nat) {
    if spec != "OUTLINED_FUNCTION_*" then exists i :: CountedAlone(arch, fs, spec, expected, i)
    else
      && (exists j :: 0 <= j < |fs| && IsOutlinedName(fs[j].name))
      && OutlinedRecognized(arch, fs) && expected == |OutlinedJumps(arch, fs)|
  }

  // ----- all of it

  /** If the row names the target and the level of the cell, it holds. */
  ghost predicate ZeroRowHolds(cell: Cell, fs: seq<Function>, row: ZeroRow) {
    row.target == cell.target && row.opt == cell.opt ==> RowHolds(cell.arch, fs, row.spec, 0)
  }

  ghost predicate ExactRowHolds(cell: Cell, fs: seq<Function>, row: Row) {
    row.target == cell.target && row.opt == cell.opt ==> RowHolds(cell.arch, fs, row.spec, row.expected)
  }

  ghost predicate ZeroRowsHold(cell: Cell, fs: seq<Function>, rows: seq<ZeroRow>) {
    forall k :: 0 <= k < |rows| ==> ZeroRowHolds(cell, fs, rows[k])
  }

  ghost predicate RowsHold(cell: Cell, fs: seq<Function>, rows: seq<Row>) {
    forall k :: 0 <= k < |rows| ==> ExactRowHolds(cell, fs, rows[k])
  }

  /** The rules: every body that opens has its end, every instruction of every function is known, the hard
      rules hold, and so do the rows for this target and level, those of the small-tables build in it. */
  ghost predicate RulesHold(tables: Tables, cell: Cell, asm: string) {
    var lines := ReadLines(cell.arch, Lines(asm));
    && AllTerminated(lines, |lines|)
    && var fs := Bodies(lines, |lines|);
    && (forall k :: 0 <= k < |fs| ==> AllRecognized(cell.arch, fs[k]) && FunctionHolds(cell.arch, fs[k]))
    && ZeroRowsHold(cell, fs, tables.zero)
    && RowsHold(cell, fs, tables.exact)
    && (cell.profile == SmallTables ==> RowsHold(cell, fs, tables.small))
  }

  /** A listing that passes as a small-tables build passes as a default one. */
  lemma SmallTablesIsStricter(tables: Tables, cell: Cell, asm: string)
    requires RulesHold(tables, cell.(profile := SmallTables), asm)
    ensures RulesHold(tables, cell.(profile := DefaultProfile), asm)
  {
    var strict, plain := cell.(profile := SmallTables), cell.(profile := DefaultProfile);
    var lines := ReadLines(cell.arch, Lines(asm));
    var fs := Bodies(lines, |lines|);
    assert ZeroRowsHold(strict, fs, tables.zero) ==> ZeroRowsHold(plain, fs, tables.zero);
    assert RowsHold(strict, fs, tables.exact) ==> RowsHold(plain, fs, tables.exact);
  }
}
