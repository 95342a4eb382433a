/** Splitting an assembly listing into functions. A body runs from its `.type`-declared label to the
    next `.Lfunc_end`; everything else between is instructions or noise. */
module AsmParse {
  import opened Bytes
  import opened AsmText

  datatype Arch = X86_64 | Aarch64 | Thumb | Riscv32

  datatype Insn = Insn(mnemonic: string, operands: string)

  datatype Function = Function(name: string, insns: seq<Insn>) {
    predicate IsOutlined() {
      StartsWith(name, "OUTLINED_FUNCTION_")
    }
  }

  // ----- one line

  function Marker(arch: Arch): (m: string)
    ensures m != ""
  {
    match arch
    case X86_64 => "#"
    case Riscv32 => "#"
    case Aarch64 => "//"
    case Thumb => "@"
  }

  function StripComment(arch: Arch, line: string): string {
    match SplitOnce(line, Marker(arch))
    case None => line
    case Some((code, _)) => code
  }

  datatype Line = TypeDecl(name: string) | FuncEnd | Label(name: string) | Code(insn: Insn) | Noise

  /** The rest of a `.type` directive. */
  function ReadType(rest: string): Line {
    match SplitOnce(rest, ",")
    case None => Noise
    case Some((name, kind)) => if kind == "@function" || kind == "%function" then TypeDecl(Trim(name)) else Noise
  }

  function ReadCode(line: string): Line {
    match FindSpace(line, 0)
    case None => Code(Insn(line, ""))
    case Some(i) => Code(Insn(line[..i], Trim(line[i + 1..])))
  }

  function ReadTrimmed(line: string): Line {
    if StartsWith(line, ".type") then ReadType(Trim(line[|".type"|..]))
    else if StartsWith(line, ".Lfunc_end") then FuncEnd
    else if EndsWith(line, ":") then Label(line[..|line| - 1])
    else if line != "" && line[0] != '.' then ReadCode(line)
    else Noise
  }

  function ReadLine(arch: Arch, raw: string): Line {
    ReadTrimmed(Trim(StripComment(arch, raw)))
  }

  function ReadLines(arch: Arch, raws: seq<string>): seq<Line> {
    seq(|raws|, i requires 0 <= i < |raws| => ReadLine(arch, raws[i]))
  }

  // ----- all lines

  datatype ParseState =
    | Reading(declared: set<string>, functions: seq<Function>, current: Option<Function>)
    | Overrun(body: string, next: string)

  /** A body without an end: at the label that starts the next one, or at the end of the input. */
  datatype ParseError = NoEndBefore(body: string, next: string) | NoEnd(body: string)

  const Start: ParseState := Reading({}, [], None)

  function Step(st: ParseState, line: Line): ParseState {
    if st.Overrun? then st
    else match line
      case TypeDecl(name) => st.(declared := st.declared + {name})
      case FuncEnd =>
        if st.current.None? then st
        else st.(functions := st.functions + [st.current.value], current := None)
      case Label(name) =>
        if name !in st.declared then st
        else if st.current.Some? then Overrun(st.current.value.name, name)
        else st.(current := Some(Function(name, [])))
      case Code(insn) =>
        if st.current.None? then st
        else st.(current := Some(st.current.value.(insns := st.current.value.insns + [insn])))
      case Noise => st
  }

  function Scan(ls: seq<Line>): ParseState {
    if ls == [] then Start else Step(Scan(ls[..|ls| - 1]), ls[|ls| - 1])
  }

  function Conclude(st: ParseState): Result<seq<Function>, ParseError> {
    if st.Overrun? then Err(NoEndBefore(st.body, st.next))
    else if st.current.Some? then Err(NoEnd(st.current.value.name))
    else Ok(st.functions)
  }

  /** What `parse` computes, line by line. */
  function ParseLines(ls: seq<Line>): Result<seq<Function>, ParseError> {
    Conclude(Scan(ls))
  }

  function ParseText(arch: Arch, asm: string): Result<seq<Function>, ParseError> {
    ParseLines(ReadLines(arch, Lines(asm)))
  }

  lemma ScanStep(ls: seq<Line>, n: nat)
    requires 0 < n <= |ls|
    ensures Scan(ls[..n]) == Step(Scan(ls[..n - 1]), ls[n - 1])
  {
    assert ls[..n][..n - 1] == ls[..n - 1];
  }

  lemma {:induction false} OverrunStays(ls: seq<Line>, n: nat)
    requires n <= |ls| && Scan(ls[..n]).Overrun?
    ensures Scan(ls) == Scan(ls[..n])
    decreases |ls| - n
  {
    if n < |ls| {
      ScanStep(ls, n + 1);
      OverrunStays(ls, n + 1);
    } else {
      assert ls[..n] == ls;
    }
  }

  /** The loop of `parse`, over the lines as read. */
  method ParseLoop(ls: seq<Line>) returns (r: Result<seq<Function>, ParseError>)
    ensures r == ParseLines(ls)
  {
    var declared: set<string>, functions: seq<Function>, current: Option<Function> := {}, [], None;
    for i := 0 to |ls|
      invariant Scan(ls[..i]) == Reading(declared, functions, current)
    {
      ScanStep(ls, i + 1);
      match ls[i]
      case TypeDecl(name) =>
        declared := declared + {name};
      case FuncEnd =>
        if current.Some? {
          functions := functions + [current.value];
          current := None;
        }
      case Label(name) =>
        if name in declared {
          if current.Some? {
            OverrunStays(ls, i + 1);
            return Err(NoEndBefore(current.value.name, name));
          }
          current := Some(Function(name, []));
        }
      case Code(insn) =>
        if current.Some? {
          current := Some(Function(current.value.name, current.value.insns + [insn]));
        }
      case Noise =>
    }
    assert ls[..|ls|] == ls;
    match current
    case Some(body) => return Err(NoEnd(body.name));
    case None => return Ok(functions);
  }

  method Parse(asm: string, arch: Arch) returns (r: Result<seq<Function>, ParseError>)
    ensures r == ParseText(arch, asm)
  {
    r := ParseLoop(ReadLines(arch, Lines(asm)));
  }

  // ----- the meaning: bodies by position

  /** The names declared above line `n`. */
  function DeclaredAbove(ls: seq<Line>, n: nat): set<string>
    requires n <= |ls|
  {
    if n == 0 then {} else DeclaredAbove(ls, n - 1) + if ls[n - 1].TypeDecl? then {ls[n - 1].name} else {}
  }

  lemma {:induction false} DeclaredMeansTypeLine(ls: seq<Line>, n: nat, name: string)
    requires n <= |ls|
    ensures name in DeclaredAbove(ls, n) <==> exists j :: 0 <= j < n && ls[j] == TypeDecl(name)
  {
    if n > 0 {
      DeclaredMeansTypeLine(ls, n - 1, name);
    }
  }

  /** Line `i` is a label declared above it. */
  predicate Opens(ls: seq<Line>, i: nat)
    requires i < |ls|
  {
    ls[i].Label? && ls[i].name in DeclaredAbove(ls, i)
  }

  predicate NoEndIn(ls: seq<Line>, from: nat, to: nat)
    requires to <= |ls|
  {
    forall k :: from <= k < to ==> !ls[k].FuncEnd?
  }

  predicate NoStartIn(ls: seq<Line>, from: nat, to: nat)
    requires to <= |ls|
  {
    forall j :: from <= j < to ==> !Opens(ls, j)
  }

  /** The first `.Lfunc_end` from line `from` on, or the end of the input. */
  function EndAfter(ls: seq<Line>, from: nat): (e: nat)
    requires from <= |ls|
    ensures from <= e <= |ls| && NoEndIn(ls, from, e) && (e < |ls| ==> ls[e].FuncEnd?)
    decreases |ls| - from
  {
    if from == |ls| || ls[from].FuncEnd? then from else EndAfter(ls, from + 1)
  }

  /** The body opened at `s` has its end before line `n`, and no other body opens in between. */
  predicate Terminated(ls: seq<Line>, s: nat, n: nat)
    requires s < |ls|
  {
    EndAfter(ls, s + 1) < n && NoStartIn(ls, s + 1, EndAfter(ls, s + 1))
  }

  predicate AllTerminated(ls: seq<Line>, n: nat)
    requires n <= |ls|
  {
    forall s :: 0 <= s < n && Opens(ls, s) ==> Terminated(ls, s, n)
  }

  function CodeOf(ls: seq<Line>): seq<Insn> {
    if ls == [] then []
    else CodeOf(ls[..|ls| - 1]) + if ls[|ls| - 1].Code? then [ls[|ls| - 1].insn] else []
  }

  /** The body at `s`: its label's name, and the instructions up to the next `.Lfunc_end`. */
  function BodyAt(ls: seq<Line>, s: nat): Function
    requires s < |ls| && ls[s].Label?
  {
    Function(ls[s].name, CodeOf(ls[s + 1..EndAfter(ls, s + 1)]))
  }

  /** The bodies that the first `n` lines open, in order. */
  function Bodies(ls: seq<Line>, n: nat): seq<Function>
    requires n <= |ls|
  {
    if n == 0 then [] else Bodies(ls, n - 1) + if Opens(ls, n - 1) then [BodyAt(ls, n - 1)] else []
  }

  lemma {:induction false} BodiesWithoutStart(ls: seq<Line>, from: nat, n: nat)
    requires from <= n <= |ls| && NoStartIn(ls, from, n)
    ensures Bodies(ls, n) == Bodies(ls, from)
    decreases n - from
  {
    if from < n {
      BodiesWithoutStart(ls, from, n - 1);
    }
  }

  /** The parse state after `n` lines, by position. The bodies opened before line `s` are finished; the
      one at `s`, unless `s` is `n`, is being read. */
  ghost predicate StateAt(ls: seq<Line>, n: nat, st: ParseState, s: nat)
    requires n <= |ls|
  {
    && st.Reading? && st.declared == DeclaredAbove(ls, n)
    && s <= n && st.functions == Bodies(ls, s) && AllTerminated(ls, s)
    && (st.current.None? <==> s == n)
    && (s < n ==> Opens(ls, s) && NoStartIn(ls, s + 1, n) && OpenAt(ls, n, s, st.current.value))
  }

  predicate OpenAt(ls: seq<Line>, n: nat, s: nat, f: Function)
    requires s < n <= |ls|
  {
    NoEndIn(ls, s + 1, n) && ls[s].Label? && f == Function(ls[s].name, CodeOf(ls[s + 1..n]))
  }

  lemma OpenExtends(ls: seq<Line>, n: nat, s: nat, f: Function)
    requires s < n < |ls| && OpenAt(ls, n, s, f) && !ls[n].FuncEnd?
    ensures OpenAt(ls, n + 1, s, if ls[n].Code? then f.(insns := f.insns + [ls[n].insn]) else f)
  {
    var body := ls[s + 1..n + 1];
    assert body[..|body| - 1] == ls[s + 1..n] && body[|body| - 1] == ls[n];
  }

  /** A finished prefix stays finished over a line that opens nothing. */
  lemma FinishedExtends(ls: seq<Line>, n: nat)
    requires n < |ls| && AllTerminated(ls, n) && !Opens(ls, n)
    ensures AllTerminated(ls, n + 1) && Bodies(ls, n + 1) == Bodies(ls, n)
  {
  }

  /** A body is finished by the `.Lfunc_end` that closes it. */
  lemma FinishedByEnd(ls: seq<Line>, n: nat, s: nat)
    requires s < n < |ls| && AllTerminated(ls, s) && Opens(ls, s) && NoStartIn(ls, s + 1, n)
             && NoEndIn(ls, s + 1, n) && ls[n].FuncEnd?
    ensures AllTerminated(ls, n + 1) && EndAfter(ls, s + 1) == n && Bodies(ls, n + 1) == Bodies(ls, s) + [BodyAt(ls, s)]
  {
    assert NoStartIn(ls, s + 1, n + 1);
    BodiesWithoutStart(ls, s + 1, n + 1);
    assert EndAfter(ls, s + 1) == n;
    assert Terminated(ls, s, n + 1);
  }

  lemma StepByPosition(ls: seq<Line>, n: nat, st: ParseState, s: nat) returns (s': nat)
    requires n < |ls| && StateAt(ls, n, st, s) && !(s < n && Opens(ls, n))
    ensures StateAt(ls, n + 1, Step(st, ls[n]), s')
  {
    if ls[n].FuncEnd? {
      s' := n + 1;
      if s < n {
        FinishedByEnd(ls, n, s);
      } else {
        FinishedExtends(ls, n);
      }
    } else if s < n {
      s' := s;
      OpenExtends(ls, n, s, st.current.value);
    } else if Opens(ls, n) {
      s' := n;
      assert ls[n + 1..n + 1] == [];
    } else {
      s' := n + 1;
      FinishedExtends(ls, n);
    }
  }

  /** The body opened at `s` is the first without an end of its own: line `n` comes first, and
      nothing opens in between. */
  predicate RunsOn(ls: seq<Line>, s: nat, n: nat)
    requires n <= |ls|
  {
    s < n && AllTerminated(ls, s) && Opens(ls, s) && NoStartIn(ls, s + 1, n) && NoEndIn(ls, s + 1, n)
  }

  /** It runs into the label at `n`. */
  predicate RunsInto(ls: seq<Line>, s: nat, n: nat) {
    n < |ls| && RunsOn(ls, s, n) && Opens(ls, n)
  }

  lemma OverrunByPosition(ls: seq<Line>, n: nat, st: ParseState, s: nat)
    requires s < n < |ls| && StateAt(ls, n, st, s) && Opens(ls, n)
    ensures Step(st, ls[n]) == Overrun(ls[s].name, ls[n].name) && RunsInto(ls, s, n)
  {
  }

  /** Either the state is as `StateAt` says, or the body at `s` ran into the label at `e`. */
  lemma {:induction false} ScanByPosition(ls: seq<Line>, n: nat) returns (s: nat, e: nat)
    requires n <= |ls|
    ensures Scan(ls[..n]).Reading? ==> StateAt(ls, n, Scan(ls[..n]), s)
    ensures Scan(ls[..n]).Overrun? ==> RunsInto(ls, s, e) && Scan(ls[..n]) == Overrun(ls[s].name, ls[e].name)
    decreases n
  {
    if n == 0 {
      s, e := 0, 0;
    } else {
      s, e := ScanByPosition(ls, n - 1);
      ScanStep(ls, n);
      var st := Scan(ls[..n - 1]);
      if st.Reading? {
        if s < n - 1 && Opens(ls, n - 1) {
          OverrunByPosition(ls, n - 1, st, s);
          e := n - 1;
        } else {
          s := StepByPosition(ls, n - 1, st, s);
        }
      }
    }
  }

  /** A body that runs on is the only one that does, and it is not terminated. */
  lemma RunsOnOnce(ls: seq<Line>, s: nat, n: nat, s': nat, n': nat)
    requires n <= |ls| && n' <= |ls| && RunsOn(ls, s, n) && RunsOn(ls, s', n')
    requires n == |ls| || Opens(ls, n)
    ensures s' <= s && !Terminated(ls, s, |ls|)
  {
    assert EndAfter(ls, s + 1) >= n;
  }

  /** The next label after a body that runs on, or the end. */
  lemma RunsOnTo(ls: seq<Line>, s: nat, n: nat, n': nat)
    requires RunsInto(ls, s, n) && n' <= |ls| && RunsOn(ls, s, n')
    ensures n' <= n
  {
  }

  /** Some body is not terminated: the result of the parse is an error that names it. */
  lemma ParseVerdict(ls: seq<Line>) returns (s: nat, e: nat)
    ensures match ParseLines(ls)
            case Ok(fs) => AllTerminated(ls, |ls|) && fs == Bodies(ls, |ls|)
            case Err(NoEndBefore(body, next)) => RunsInto(ls, s, e) && body == ls[s].name && next == ls[e].name
            case Err(NoEnd(body)) => RunsOn(ls, s, |ls|) && body == ls[s].name
  {
    assert ls[..|ls|] == ls;
    s, e := ScanByPosition(ls, |ls|);
  }

  lemma RunsOnIsNotTerminated(ls: seq<Line>, s: nat, n: nat)
    requires n <= |ls| && RunsOn(ls, s, n) && (n == |ls| || Opens(ls, n))
    ensures !AllTerminated(ls, |ls|)
  {
    RunsOnOnce(ls, s, n, s, n);
  }

  /** `parse` succeeds exactly when every declared label's body ends before the next one opens, and
      then returns, for each such label in order, its name and the instructions up to that end. */
  lemma ParseMeaning(ls: seq<Line>)
    ensures ParseLines(ls).Ok? <==> AllTerminated(ls, |ls|)
    ensures ParseLines(ls).Ok? ==> ParseLines(ls).value == Bodies(ls, |ls|)
  {
    var s, e := ParseVerdict(ls);
    if ParseLines(ls).Err? {
      RunsOnIsNotTerminated(ls, s, if ParseLines(ls).error.NoEnd? then |ls| else e);
    }
  }

  /** It fails at a label exactly when the first body without an end of its own, at some `s`, runs
      into that label, at `e`; the error names both. */
  lemma ParseOverrunMeaning(ls: seq<Line>, body: string, next: string)
    ensures ParseLines(ls) == Err(NoEndBefore(body, next))
       <==> exists s: nat, e: nat :: RunsInto(ls, s, e) && ls[s].name == body && ls[e].name == next
  {
    var s, e := ParseVerdict(ls);
    if s': nat, e': nat :| RunsInto(ls, s', e') && ls[s'].name == body && ls[e'].name == next {
      RunsOnIsNotTerminated(ls, s', e');
      ParseMeaning(ls);
      var n := if ParseLines(ls).error.NoEnd? then |ls| else e;
      RunsOnOnce(ls, s, n, s', e');
      RunsOnOnce(ls, s', e', s, n);
      RunsOnTo(ls, s, e', n);
      if !ParseLines(ls).error.NoEnd? {
        RunsOnTo(ls, s, n, e');
      }
    }
  }

  /** And at the end of the input exactly when that body is still open there. */
  lemma ParseOpenMeaning(ls: seq<Line>, body: string)
    ensures ParseLines(ls) == Err(NoEnd(body)) <==> exists s: nat :: RunsOn(ls, s, |ls|) && ls[s].name == body
  {
    var s, e := ParseVerdict(ls);
    if s': nat :| RunsOn(ls, s', |ls|) && ls[s'].name == body {
      RunsOnIsNotTerminated(ls, s', |ls|);
      ParseMeaning(ls);
      var n := if ParseLines(ls).error.NoEnd? then |ls| else e;
      RunsOnOnce(ls, s, n, s', |ls|);
      RunsOnOnce(ls, s', |ls|, s, n);
    }
  }

  // ----- conservation

  /** Line `n` lies inside a body. */
  predicate InBody(ls: seq<Line>, n: nat)
    requires n <= |ls|
  {
    exists s :: 0 <= s < n && Opens(ls, s) && NoEndIn(ls, s + 1, n)
  }

  function CodeInBodies(ls: seq<Line>, n: nat): seq<Insn>
    requires n <= |ls|
  {
    if n == 0 then []
    else CodeInBodies(ls, n - 1) + if ls[n - 1].Code? && InBody(ls, n - 1) then [ls[n - 1].insn] else []
  }

  function AllInsns(fs: seq<Function>): seq<Insn> {
    if fs == [] then [] else AllInsns(fs[..|fs| - 1]) + fs[|fs| - 1].insns
  }

  function ReadSoFar(st: ParseState): seq<Insn>
    requires st.Reading?
  {
    AllInsns(st.functions) + if st.current.Some? then st.current.value.insns else []
  }

  lemma OpenIffInBody(ls: seq<Line>, n: nat, st: ParseState, s: nat)
    requires n <= |ls| && StateAt(ls, n, st, s)
    ensures st.current.Some? <==> InBody(ls, n)
  {
    if s == n {
      forall j | 0 <= j < n && Opens(ls, j)
        ensures !NoEndIn(ls, j + 1, n)
      {
        assert Terminated(ls, j, n);
      }
    }
  }

  lemma StepReads(st: ParseState, line: Line)
    requires st.Reading? && Step(st, line).Reading?
    ensures ReadSoFar(Step(st, line)) == ReadSoFar(st) + if line.Code? && st.current.Some? then [line.insn] else []
  {
    var fs := st.functions;
    if line.FuncEnd? && st.current.Some? {
      var longer := fs + [st.current.value];
      assert longer[..|longer| - 1] == fs;
    }
  }

  lemma {:induction false} ScanReads(ls: seq<Line>, n: nat)
    requires n <= |ls| && Scan(ls[..n]).Reading?
    ensures ReadSoFar(Scan(ls[..n])) == CodeInBodies(ls, n)
    decreases n
  {
    if n > 0 {
      ScanStep(ls, n);
      var st := Scan(ls[..n - 1]);
      ScanReads(ls, n - 1);
      var s, _ := ScanByPosition(ls, n - 1);
      OpenIffInBody(ls, n - 1, st, s);
      StepReads(st, ls[n - 1]);
    }
  }

  /** The returned instructions, joined in order, are exactly the instruction lines inside bodies. */
  lemma ParseConserves(ls: seq<Line>)
    requires ParseLines(ls).Ok?
    ensures AllInsns(ParseLines(ls).value) == CodeInBodies(ls, |ls|)
  {
    assert ls[..|ls|] == ls;
    ScanReads(ls, |ls|);
  }

  // ----- noise

  /** A line that changes nothing where it stands, after the lines `before`. */
  predicate IsHarmless(before: seq<Line>, line: Line) {
    match line
    case Noise => true
    case Label(name) => name !in DeclaredAbove(before, |before|)
    case Code(_) => !InBody(before, |before|)
    case FuncEnd => !InBody(before, |before|)
    case TypeDecl(name) => name in DeclaredAbove(before, |before|)
  }

  lemma HarmlessStep(before: seq<Line>, line: Line)
    requires IsHarmless(before, line)
    ensures Step(Scan(before), line) == Scan(before)
  {
    assert before[..|before|] == before;
    var s, _ := ScanByPosition(before, |before|);
    if Scan(before).Reading? {
      OpenIffInBody(before, |before|, Scan(before), s);
      if line.TypeDecl? {
        assert Scan(before).declared + {line.name} == Scan(before).declared;
      }
    }
  }

  /** Harmless lines may be added or removed anywhere. */
  lemma {:induction false} NoiseIsIgnored(before: seq<Line>, line: Line, after: seq<Line>)
    requires IsHarmless(before, line)
    ensures Scan(before + [line] + after) == Scan(before + after)
    ensures ParseLines(before + [line] + after) == ParseLines(before + after)
    decreases |after|
  {
    var with, without := before + [line] + after, before + after;
    if after == [] {
      assert with[..|with| - 1] == before && without == before;
      HarmlessStep(before, line);
    } else {
      var shorter := after[..|after| - 1];
      assert with[..|with| - 1] == before + [line] + shorter && without[..|without| - 1] == before + shorter;
      NoiseIsIgnored(before, line, shorter);
    }
  }
}
