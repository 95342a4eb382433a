/** The gate over one build of the crate: parse the listing, then check the hard rules and the rows that
    name this target, optimization level and profile. It reports no failure exactly when `AsmRules` holds. */
module AsmGate {
  import opened Bytes
  import opened AsmText
  import opened AsmSymbols
  import opened AsmDesignation
  import opened AsmParse
  import opened AsmClassify
  import opened AsmMnemonics
  import opened AsmRules

  const OUTLINED: string := "OUTLINED_FUNCTION_*"

  datatype Failure =
    | ParseFailed(error: ParseError)
    | Unclassified(name: string)
    | RowFailed(spec: string, expected: nat)
    | CarryShape(name: string)
    | MultiplyCall(name: string)

  // ----- picking functions

  /** The elements whose flag is set. */
  function Pick<T>(xs: seq<T>, flags: seq<bool>): seq<T>
    requires |xs| == |flags|
  {
    if xs == [] then [] else (if flags[0] then [xs[0]] else []) + Pick(xs[1..], flags[1..])
  }

  /** Flag `i` and no other is set. */
  predicate IsOnly(flags: seq<bool>, i: int) {
    0 <= i < |flags| && forall j :: 0 <= j < |flags| ==> (flags[j] <==> j == i)
  }

  lemma {:induction false} PickNone<T>(xs: seq<T>, flags: seq<bool>)
    requires |xs| == |flags|
    ensures Pick(xs, flags) == [] <==> forall j :: 0 <= j < |flags| ==> !flags[j]
    decreases |xs|
  {
    if xs != [] {
      PickNone(xs[1..], flags[1..]);
      assert forall j :: 1 <= j < |flags| ==> flags[j] == flags[1..][j - 1];
    }
  }

  lemma {:induction false} PickOnly<T>(xs: seq<T>, flags: seq<bool>, i: int)
    requires |xs| == |flags| && IsOnly(flags, i)
    ensures Pick(xs, flags) == [xs[i]]
    decreases |xs|
  {
    if i == 0 {
      PickNone(xs[1..], flags[1..]);
    } else {
      PickOnly(xs[1..], flags[1..], i - 1);
    }
  }

  lemma {:induction false} PickedOne<T>(xs: seq<T>, flags: seq<bool>) returns (i: int)
    requires |xs| == |flags| && |Pick(xs, flags)| == 1
    ensures IsOnly(flags, i)
    decreases |xs|
  {
    if flags[0] {
      i := 0;
      PickNone(xs[1..], flags[1..]);
      assert forall j :: 1 <= j < |flags| ==> flags[j] == flags[1..][j - 1];
    } else {
      var k := PickedOne(xs[1..], flags[1..]);
      i := k + 1;
      assert forall j :: 1 <= j < |flags| ==> flags[j] == flags[1..][j - 1];
    }
  }

  lemma {:induction false} PickedAreFlagged<T>(xs: seq<T>, flags: seq<bool>, p: T -> bool)
    requires |xs| == |flags| && forall j :: 0 <= j < |xs| && flags[j] ==> p(xs[j])
    ensures forall k :: 0 <= k < |Pick(xs, flags)| ==> p(Pick(xs, flags)[k])
    decreases |xs|
  {
    if xs != [] {
      PickedAreFlagged(xs[1..], flags[1..], p);
    }
  }

  // ----- rows

  function Hits(fs: seq<Function>, spec: string): seq<bool> {
    seq(|fs|, j requires 0 <= j < |fs| => Matches(fs[j].name, spec))
  }

  /** `find_one`: the only function whose symbol matches. */
  function FindOne(fs: seq<Function>, spec: string): Option<Function> {
    var matching := Pick(fs, Hits(fs, spec));
    if |matching| == 1 then Some(matching[0]) else None
  }

  lemma OnlyIsAlone(fs: seq<Function>, spec: string, i: int)
    ensures IsOnly(Hits(fs, spec), i) <==> MatchesAlone(fs, spec, i)
  {
    var hits := Hits(fs, spec);
    assert forall j :: 0 <= j < |fs| ==> hits[j] == Matches(fs[j].name, spec);
  }

  /** `find_one` succeeds exactly on a symbol that matches alone. */
  lemma FindOneMeansUnique(fs: seq<Function>, spec: string, f: Function)
    ensures FindOne(fs, spec) == Some(f) <==> exists i :: MatchesAlone(fs, spec, i) && fs[i] == f
  {
    var hits := Hits(fs, spec);
    if |Pick(fs, hits)| == 1 {
      var i := PickedOne(fs, hits);
      OnlyIsAlone(fs, spec, i);
      PickOnly(fs, hits, i);
    }
    if i :| MatchesAlone(fs, spec, i) && fs[i] == f {
      OnlyIsAlone(fs, spec, i);
      PickOnly(fs, hits, i);
    }
  }

  function OutlinedFlags(fs: seq<Function>): seq<bool> {
    seq(|fs|, j requires 0 <= j < |fs| => fs[j].IsOutlined())
  }

  function OutlinedBodies(fs: seq<Function>): seq<Function> {
    Pick(fs, OutlinedFlags(fs))
  }

  /** The sum of the counts, if there are all of them. */
  function Total(counts: seq<Option<nat>>): Option<nat> {
    if counts == [] then Some(0) else AddCounts(counts[0], Total(counts[1..]))
  }

  function CountsOf(arch: Arch, fs: seq<Function>): seq<Option<nat>> {
    seq(|fs|, k requires 0 <= k < |fs| => JumpsOf(arch, fs[k]))
  }

  function SumJumps(arch: Arch, fs: seq<Function>): Option<nat> {
    Total(CountsOf(arch, fs))
  }

  function RowJumps(arch: Arch, fs: seq<Function>, spec: string): Option<nat> {
    if spec != OUTLINED then
      match FindOne(fs, spec)
      case None => None
      case Some(f) => JumpsOf(arch, f)
    else
      var bodies := OutlinedBodies(fs);
      if bodies == [] then None else SumJumps(arch, bodies)
  }

  function JoinBodies(fs: seq<Function>): seq<Insn> {
    if fs == [] then [] else fs[0].insns + JoinBodies(fs[1..])
  }

  /** The outlined row counts the outlined bodies as if they were one. */
  lemma {:induction false} SumIsJoined(arch: Arch, fs: seq<Function>)
    requires forall k :: 0 <= k < |fs| ==> fs[k].IsOutlined()
    ensures SumJumps(arch, fs) == JumpsIn(arch, JoinBodies(fs), true)
    decreases |fs|
  {
    if fs != [] {
      SumIsJoined(arch, fs[1..]);
      assert CountsOf(arch, fs)[1..] == CountsOf(arch, fs[1..]);
      JumpsAdd(arch, fs[0].insns, JoinBodies(fs[1..]), true);
    }
  }

  lemma OutlinedAreOutlined(fs: seq<Function>)
    ensures forall k :: 0 <= k < |OutlinedBodies(fs)| ==> OutlinedBodies(fs)[k].IsOutlined()
    ensures OutlinedBodies(fs) == [] <==> forall k :: 0 <= k < |fs| ==> !fs[k].IsOutlined()
  {
    var flags := OutlinedFlags(fs);
    PickedAreFlagged(fs, flags, (f: Function) => f.IsOutlined());
    PickNone(fs, flags);
    assert forall k :: 0 <= k < |fs| ==> flags[k] == fs[k].IsOutlined();
  }

  // ----- what the counts mean

  lemma NamedRowCounts(arch: Arch, fs: seq<Function>, spec: string, expected: nat, i: int)
    requires spec != OUTLINED && MatchesAlone(fs, spec, i)
    ensures RowJumps(arch, fs, spec) == Some(expected) <==> CountedAlone(arch, fs, spec, expected, i)
  {
    FindOneMeansUnique(fs, spec, fs[i]);
    CountIsExact(arch, fs[i].insns, fs[i].IsOutlined(), expected);
  }

  lemma NamedRowMeans(arch: Arch, fs: seq<Function>, spec: string, expected: nat)
    requires spec != OUTLINED
    ensures RowJumps(arch, fs, spec) == Some(expected) <==> exists i :: CountedAlone(arch, fs, spec, expected, i)
  {
    var found := FindOne(fs, spec);
    if found.Some? {
      FindOneMeansUnique(fs, spec, found.value);
      var i :| MatchesAlone(fs, spec, i) && fs[i] == found.value;
      NamedRowCounts(arch, fs, spec, expected, i);
    }
    if i :| CountedAlone(arch, fs, spec, expected, i) {
      NamedRowCounts(arch, fs, spec, expected, i);
    }
  }

  lemma {:induction false} PickSnoc<T>(xs: seq<T>, flags: seq<bool>, x: T, flag: bool)
    requires |xs| == |flags|
    ensures Pick(xs + [x], flags + [flag]) == Pick(xs, flags) + if flag then [x] else []
    decreases |xs|
  {
    if xs != [] {
      PickSnoc(xs[1..], flags[1..], x, flag);
      assert (xs + [x])[1..] == xs[1..] + [x] && (flags + [flag])[1..] == flags[1..] + [flag];
    }
  }

  lemma {:induction false} TotalSnoc(counts: seq<Option<nat>>, count: Option<nat>)
    ensures Total(counts + [count]) == AddCounts(Total(counts), count)
    decreases |counts|
  {
    if counts != [] {
      TotalSnoc(counts[1..], count);
      assert (counts + [count])[1..] == counts[1..] + [count];
    }
  }

  lemma SumSnoc(arch: Arch, fs: seq<Function>, f: Function)
    ensures SumJumps(arch, fs + [f]) == AddCounts(SumJumps(arch, fs), JumpsOf(arch, f))
  {
    assert CountsOf(arch, fs + [f]) == CountsOf(arch, fs) + [JumpsOf(arch, f)];
    TotalSnoc(CountsOf(arch, fs), JumpsOf(arch, f));
  }

  lemma OutlinedSnoc(fs: seq<Function>, f: Function)
    ensures OutlinedBodies(fs + [f]) == OutlinedBodies(fs) + if f.IsOutlined() then [f] else []
  {
    PickSnoc(fs, OutlinedFlags(fs), f, f.IsOutlined());
    assert OutlinedFlags(fs + [f]) == OutlinedFlags(fs) + [f.IsOutlined()];
  }

  /** `n` paired with every element. */
  ghost function RowOf(n: int, s: set<int>): set<(int, int)> {
    set k | k in s :: (n, k)
  }

  lemma {:induction false} RowSize(n: int, s: set<int>)
    ensures |RowOf(n, s)| == |s|
    decreases |s|
  {
    if |s| == 0 {
      assert RowOf(n, s) == {};
    } else {
      var k := Member(s);
      RowSize(n, s - {k});
      assert RowOf(n, s) == RowOf(n, s - {k}) + {(n, k)};
    }
  }

  lemma Member<T>(s: set<T>) returns (k: T)
    requires |s| > 0
    ensures k in s
  {
    k :| k in s;
  }

  lemma OutlinedJumpsSnoc(arch: Arch, fs: seq<Function>, f: Function)
    ensures OutlinedJumps(arch, fs + [f])
         == OutlinedJumps(arch, fs) + if IsOutlinedName(f.name) then RowOf(|fs|, JumpSet(arch, f.insns, true)) else {}
  {
    var more := if IsOutlinedName(f.name) then RowOf(|fs|, JumpSet(arch, f.insns, true)) else {};
    forall j, k
      ensures (j, k) in OutlinedJumps(arch, fs + [f]) <==> (j, k) in OutlinedJumps(arch, fs) || (j, k) in more
    {
      if 0 <= j < |fs| {
        assert (fs + [f])[j] == fs[j];
      }
    }
  }

  lemma OutlinedJumpsSize(arch: Arch, fs: seq<Function>, f: Function)
    requires IsOutlinedName(f.name)
    ensures |OutlinedJumps(arch, fs + [f])| == |OutlinedJumps(arch, fs)| + |JumpSet(arch, f.insns, true)|
  {
    OutlinedJumpsSnoc(arch, fs, f);
    RowSize(|fs|, JumpSet(arch, f.insns, true));
    assert OutlinedJumps(arch, fs) !! RowOf(|fs|, JumpSet(arch, f.insns, true));
  }

  lemma OutlinedRecognizedSnoc(arch: Arch, fs: seq<Function>, f: Function)
    ensures OutlinedRecognized(arch, fs + [f]) <==>
            OutlinedRecognized(arch, fs) && (IsOutlinedName(f.name) ==> AllRecognized(arch, f))
  {
    var all := fs + [f];
    assert all[|fs|] == f && forall j :: 0 <= j < |fs| ==> all[j] == fs[j];
  }

  lemma OutlinedCount(arch: Arch, f: Function)
    requires IsOutlinedName(f.name)
    ensures IsOutlinedCount(arch, f, JumpsOf(arch, f))
  {
    CountIs(arch, f.insns, true);
  }

  lemma SumOfMore(arch: Arch, fs: seq<Function>, f: Function)
    ensures SumJumps(arch, OutlinedBodies(fs + [f]))
         == if f.IsOutlined() then AddCounts(SumJumps(arch, OutlinedBodies(fs)), JumpsOf(arch, f))
            else SumJumps(arch, OutlinedBodies(fs))
  {
    OutlinedSnoc(fs, f);
    if f.IsOutlined() {
      SumSnoc(arch, OutlinedBodies(fs), f);
    } else {
      assert OutlinedBodies(fs) + [] == OutlinedBodies(fs);
    }
  }

  lemma OtherJumps(arch: Arch, fs: seq<Function>, f: Function)
    requires !f.IsOutlined()
    ensures OutlinedRecognized(arch, fs + [f]) <==> OutlinedRecognized(arch, fs)
    ensures OutlinedJumps(arch, fs + [f]) == OutlinedJumps(arch, fs)
  {
    OutlinedRecognizedSnoc(arch, fs, f);
    OutlinedJumpsSnoc(arch, fs, f);
  }

  /** `total` is the number of all jumps of all outlined bodies, if their instructions are recognized. */
  ghost predicate IsOutlinedTotal(arch: Arch, fs: seq<Function>, total: Option<nat>) {
    total == if OutlinedRecognized(arch, fs) then Some(|OutlinedJumps(arch, fs)|) else None
  }

  /** `count` is the number of jumps of an outlined body, if its instructions are recognized. */
  ghost predicate IsOutlinedCount(arch: Arch, f: Function, count: Option<nat>) {
    count == if AllRecognized(arch, f) then Some(|JumpSet(arch, f.insns, true)|) else None
  }

  lemma TotalOfMore(arch: Arch, fs: seq<Function>, total: Option<nat>, f: Function, count: Option<nat>)
    requires IsOutlinedTotal(arch, fs, total) && IsOutlinedCount(arch, f, count) && f.IsOutlined()
    ensures IsOutlinedTotal(arch, fs + [f], AddCounts(total, count))
  {
    RecognizedMore(arch, fs, total.Some?, f, count.Some?);
    OutlinedJumpsSize(arch, fs, f);
  }

  lemma TotalOfOther(arch: Arch, fs: seq<Function>, total: Option<nat>, f: Function)
    requires IsOutlinedTotal(arch, fs, total) && !f.IsOutlined()
    ensures IsOutlinedTotal(arch, fs + [f], total)
  {
    OtherJumps(arch, fs, f);
  }

  lemma RecognizedMore(arch: Arch, fs: seq<Function>, known: bool, f: Function, knownF: bool)
    requires f.IsOutlined() && (known <==> OutlinedRecognized(arch, fs)) && (knownF <==> AllRecognized(arch, f))
    ensures known && knownF <==> OutlinedRecognized(arch, fs + [f])
  {
    OutlinedRecognizedSnoc(arch, fs, f);
  }

  /** The sum over the outlined bodies is the number of all their jumps. */
  lemma {:induction false} OutlinedSum(arch: Arch, fs: seq<Function>, total: Option<nat>)
    requires total == SumJumps(arch, OutlinedBodies(fs))
    ensures IsOutlinedTotal(arch, fs, total)
    decreases |fs|
  {
    if fs == [] {
      assert OutlinedJumps(arch, fs) == {};
    } else {
      var n := |fs| - 1;
      assert fs == fs[..n] + [fs[n]];
      var front, f, sum := fs[..n], fs[n], SumJumps(arch, OutlinedBodies(fs[..n]));
      SumOfMore(arch, front, f);
      OutlinedSum(arch, front, sum);
      if f.IsOutlined() {
        OutlinedCount(arch, f);
        TotalOfMore(arch, front, sum, f, JumpsOf(arch, f));
      } else {
        TotalOfOther(arch, front, sum, f);
      }
    }
  }

  lemma OutlinedRowMeans(arch: Arch, fs: seq<Function>, expected: nat)
    ensures RowJumps(arch, fs, OUTLINED) == Some(expected) <==> RowHolds(arch, fs, OUTLINED, expected)
  {
    OutlinedAreOutlined(fs);
    OutlinedSum(arch, fs, SumJumps(arch, OutlinedBodies(fs)));
  }

  lemma RowMeans(arch: Arch, fs: seq<Function>, spec: string, expected: nat)
    ensures RowJumps(arch, fs, spec) == Some(expected) <==> RowHolds(arch, fs, spec, expected)
  {
    if spec == OUTLINED {
      OutlinedRowMeans(arch, fs, expected);
    } else {
      NamedRowMeans(arch, fs, spec, expected);
    }
  }

  /** The functions from `i` on whose symbol matches. */
  function MatchingFrom(fs: seq<Function>, spec: string, i: nat): seq<Function>
    requires i <= |fs|
  {
    Pick(fs[i..], Hits(fs, spec)[i..])
  }

  lemma MatchingStep(fs: seq<Function>, spec: string, i: nat)
    requires i < |fs|
    ensures MatchingFrom(fs, spec, i)
         == if Matches(fs[i].name, spec) then [fs[i]] + MatchingFrom(fs, spec, i + 1) else MatchingFrom(fs, spec, i + 1)
  {
    var hits := Hits(fs, spec);
    assert fs[i..][0] == fs[i] && fs[i..][1..] == fs[i + 1..];
    assert hits[i..][0] == hits[i] && hits[i..][1..] == hits[i + 1..];
  }

  lemma MoveOne<T>(xs: seq<T>, x: T, ys: seq<T>)
    ensures xs + ([x] + ys) == xs + [x] + ys
  {
  }

  /** `find_one`, over the matcher. */
  method FindOnly(fs: seq<Function>, spec: string) returns (only: Option<Function>)
    ensures only == FindOne(fs, spec)
  {
    var matching: seq<Function> := [];
    ghost var all := MatchingFrom(fs, spec, 0);
    assert all == Pick(fs, Hits(fs, spec)) by {
      assert fs[0..] == fs && Hits(fs, spec)[0..] == Hits(fs, spec);
    }
    for i := 0 to |fs|
      invariant matching + MatchingFrom(fs, spec, i) == all
    {
      MatchingStep(fs, spec, i);
      var found := SymbolMatches(fs[i].name, spec);
      if found {
        MoveOne(matching, fs[i], MatchingFrom(fs, spec, i + 1));
        matching := matching + [fs[i]];
      }
    }
    return if |matching| == 1 then Some(matching[0]) else None;
  }

  /** `row_jumps`. */
  method CountRow(arch: Arch, fs: seq<Function>, spec: string) returns (count: Option<nat>)
    ensures count == RowJumps(arch, fs, spec)
  {
    if spec != OUTLINED {
      var only := FindOnly(fs, spec);
      if only.None? {
        return None;
      }
      count := CountJumps(KindsOf(arch, only.value.insns, only.value.IsOutlined()));
    } else {
      count := RowJumps(arch, fs, OUTLINED);
    }
  }

  method CheckRow(arch: Arch, fs: seq<Function>, spec: string, expected: nat) returns (ok: bool)
    ensures ok <==> RowHolds(arch, fs, spec, expected)
  {
    RowMeans(arch, fs, spec, expected);
    var count := CountRow(arch, fs, spec);
    ok := count == Some(expected);
  }

  const CARRY_MODULES: seq<string> := ["8dstu9041", "8dstu4145", "9gf2m_wide", "4limb"]

  predicate InCarryScope(f: Function) {
    f.IsOutlined() || exists k :: 0 <= k < |CARRY_MODULES| && Contains(f.name, CARRY_MODULES[k])
  }

  lemma CarryScopeMeans(f: Function)
    ensures InCarryScope(f) <==> IsLimbCode(f)
  {
    var modules := CARRY_MODULES;
    assert modules[0] == "8dstu9041" && modules[1] == "8dstu4145" && modules[2] == "9gf2m_wide"
           && modules[3] == "4limb";
    forall k | 0 <= k < |modules|
      ensures Contains(f.name, modules[k]) <==> Occurs(f.name, modules[k])
    {
      ContainsMeansOccurs(f.name, modules[k]);
    }
  }

  lemma ShapeMeans(f: Function)
    ensures NumShapes(f.insns) > 0 <==> HasCarryShape(f)
  {
    ShapesMeanPair(f.insns);
    forall k
      ensures PairAt(f.insns, k) <==> ComparesTwiceAt(f.insns, k)
    {
      if 0 <= k < |f.insns| - 1 {
        CarryPairIsExact(f.insns[k], f.insns[k + 1]);
      }
    }
  }

  lemma MultiplyMeans(f: Function)
    ensures MulCalls(f.insns) > 0 <==> CallsMultiply(f)
  {
    MulCallsMeanMention(f.insns);
    forall k | 0 <= k < |f.insns|
      ensures MentionsMul(f.insns[k]) <==> NamesMultiply(f.insns[k])
    {
      ContainsMeansOccurs(f.insns[k].operands, "__multi3");
      ContainsMeansOccurs(f.insns[k].operands, "__muldi3");
    }
  }

  // ----- the gate

  method CheckZeroRows(cell: Cell, fs: seq<Function>, rows: seq<ZeroRow>) returns (failures: seq<Failure>)
    ensures failures == [] <==> ZeroRowsHold(cell, fs, rows)
  {
    failures := [];
    for i := 0 to |rows|
      invariant failures == [] <==> forall k :: 0 <= k < i ==> ZeroRowHolds(cell, fs, rows[k])
    {
      if rows[i].target == cell.target && rows[i].opt == cell.opt {
        var ok := CheckRow(cell.arch, fs, rows[i].spec, 0);
        if !ok {
          failures := failures + [RowFailed(rows[i].spec, 0)];
        }
      }
    }
  }

  method CheckRows(cell: Cell, fs: seq<Function>, rows: seq<Row>) returns (failures: seq<Failure>)
    ensures failures == [] <==> RowsHold(cell, fs, rows)
  {
    failures := [];
    for i := 0 to |rows|
      invariant failures == [] <==> forall k :: 0 <= k < i ==> ExactRowHolds(cell, fs, rows[k])
    {
      if rows[i].target == cell.target && rows[i].opt == cell.opt {
        var ok := CheckRow(cell.arch, fs, rows[i].spec, rows[i].expected);
        if !ok {
          failures := failures + [RowFailed(rows[i].spec, rows[i].expected)];
        }
      }
    }
  }

  lemma RowsConcat(cell: Cell, fs: seq<Function>, a: seq<Row>, b: seq<Row>)
    ensures RowsHold(cell, fs, a + b) <==> RowsHold(cell, fs, a) && RowsHold(cell, fs, b)
  {
    var all := a + b;
    assert forall k :: 0 <= k < |a| ==> a[k] == all[k];
    assert forall k :: 0 <= k < |b| ==> b[k] == all[|a| + k];
  }

  function KindsOfAll(arch: Arch, fs: seq<Function>): seq<seq<Option<Kind>>> {
    seq(|fs|, k requires 0 <= k < |fs| => KindsOf(arch, fs[k].insns, fs[k].IsOutlined()))
  }

  /** Fails closed across the whole crate: one failure per function that does not classify. */
  method CheckClassified(fs: seq<Function>, kinds: seq<seq<Option<Kind>>>) returns (failures: seq<Failure>)
    requires |fs| == |kinds|
    ensures failures == [] <==> forall k :: 0 <= k < |kinds| ==> AllKnown(kinds[k])
  {
    failures := [];
    for i := 0 to |fs|
      invariant failures == [] <==> forall k :: 0 <= k < i ==> AllKnown(kinds[k])
    {
      var count := CountJumps(kinds[i]);
      if count.None? {
        failures := failures + [Unclassified(fs[i].name)];
      }
    }
  }

  method CheckFunction(arch: Arch, f: Function) returns (failures: seq<Failure>)
    ensures failures == [] <==> FunctionHolds(arch, f)
  {
    failures := [];
    var shapes := CarryShapes(f);
    ShapeMeans(f);
    CarryScopeMeans(f);
    MultiplyMeans(f);
    if arch.Riscv32? && InCarryScope(f) && shapes > 0 {
      failures := [CarryShape(f.name)];
    }
    if MulCalls(f.insns) > 0 {
      failures := failures + [MultiplyCall(f.name)];
    }
  }

  method CheckFunctions(arch: Arch, fs: seq<Function>) returns (failures: seq<Failure>)
    ensures failures == [] <==> forall k :: 0 <= k < |fs| ==> FunctionHolds(arch, fs[k])
  {
    failures := [];
    for i := 0 to |fs|
      invariant failures == [] <==> forall k :: 0 <= k < i ==> FunctionHolds(arch, fs[k])
    {
      var found := CheckFunction(arch, fs[i]);
      failures := failures + found;
    }
  }

  lemma KindsMean(arch: Arch, fs: seq<Function>, k: nat)
    requires k < |fs|
    ensures AllKnown(KindsOfAll(arch, fs)[k]) <==> AllRecognized(arch, fs[k])
  {
    ClassifiesMeans(arch, fs[k].insns, fs[k].IsOutlined());
  }

  /** `check_cell`. */
  method CheckCell(tables: Tables, cell: Cell, asm: string) returns (failures: seq<Failure>)
    ensures failures == [] <==> RulesHold(tables, cell, asm)
  {
    ParseMeaning(ReadLines(cell.arch, Lines(asm)));
    var parsed := Parse(asm, cell.arch);
    if parsed.Err? {
      return [ParseFailed(parsed.error)];
    }
    var fs := parsed.value;
    var small := if cell.profile.SmallTables? then tables.small else [];
    var kinds := KindsOfAll(cell.arch, fs);
    var unclassified := CheckClassified(fs, kinds);
    var zero := CheckZeroRows(cell, fs, tables.zero);
    var exact := CheckRows(cell, fs, tables.exact + small);
    var functions := CheckFunctions(cell.arch, fs);
    RowsConcat(cell, fs, tables.exact, small);
    forall k | 0 <= k < |fs|
      ensures AllKnown(kinds[k]) <==> AllRecognized(cell.arch, fs[k])
    {
      KindsMean(cell.arch, fs, k);
    }
    failures := unclassified + zero + exact + functions;
  }

  /** Function `i` and no other is designated by `spec`. */
  ghost predicate IsOnlyDesignated(fs: seq<Function>, spec: string, i: int) {
    0 <= i < |fs| && forall j :: 0 <= j < |fs| ==> (Designates(spec, fs[j].name) <==> j == i)
  }

  lemma AloneIsDesignated(fs: seq<Function>, spec: string, i: int)
    requires SearchIsExact(spec)
    ensures MatchesAlone(fs, spec, i) <==> IsOnlyDesignated(fs, spec, i)
  {
    SearchFindsDesignated(spec);
  }

  /** A row whose search is exact holds exactly when its spec designates one function, and that one
      has the count. */
  lemma RowMeansDesignation(arch: Arch, fs: seq<Function>, spec: string, expected: nat)
    requires spec != OUTLINED && SearchIsExact(spec)
    ensures RowHolds(arch, fs, spec, expected) <==>
            exists i :: IsOnlyDesignated(fs, spec, i)
                        && HasJumps(arch, fs[i].insns, IsOutlinedName(fs[i].name), expected)
  {
    if i :| CountedAlone(arch, fs, spec, expected, i) {
      AloneIsDesignated(fs, spec, i);
    }
    if i :| IsOnlyDesignated(fs, spec, i) && HasJumps(arch, fs[i].insns, IsOutlinedName(fs[i].name), expected) {
      AloneIsDesignated(fs, spec, i);
      assert CountedAlone(arch, fs, spec, expected, i);
    }
  }
}
