/** What a spec says about a symbol, without tokens and searches: the identifiers stand in the symbol in
    order, each behind its own length in decimal, and the last one closes it. And how a spec is written. */
module AsmDesignation {
  import opened Bytes
  import opened AsmText
  import opened AsmSymbols

  // ----- identifiers in a symbol

  /** The length of `ident`, written in decimal, and then `ident`. */
  predicate Spells(text: string, ident: string) {
    exists k :: 0 <= k <= |text| && IsNumeral(text[..k], |ident|) && text[k..] == ident
  }

  lemma TokenSpells(ident: string, text: string)
    ensures Spells(text, ident) <==> text == Token(ident)
  {
    var digits := Decimal(|ident|);
    DecimalIsNumeral(|ident|);
    var token := Token(ident);
    assert token[..|digits|] == digits && token[|digits|..] == ident;
    if k :| 0 <= k <= |text| && IsNumeral(text[..k], |ident|) && text[k..] == ident {
      NumeralIsDecimal(text[..k], |ident|);
      assert text == text[..k] + text[k..];
    }
  }

  datatype Span = Span(start: nat, end: nat)

  /** The identifier with its length fills the span. */
  predicate StandsAt(name: string, ident: string, at: Span) {
    at.start <= at.end <= |name| && Spells(name[at.start..at.end], ident)
  }

  /** Every segment's identifier stands in its span; no span starts before the one in front of it ends. */
  predicate StandInOrder(name: string, segs: seq<Segment>, at: seq<Span>) {
    && |at| == |segs|
    && (forall i :: 0 <= i < |segs| ==> !segs[i].Malformed? && StandsAt(name, segs[i].ident, at[i]))
    && (forall i, j :: 0 <= i < j < |at| ==> at[i].end <= at[j].start)
  }

  /** What may follow the last identifier: nothing, or its arguments, `E` and a back-reference. */
  predicate Closes(rest: string, last: Segment) {
    match last
    case Plain(_) => rest == ""
    case Generic(_, args) => exists k :: 0 <= k <= |rest| && rest[..k] == args + "E" && IsBase62Reference(rest[k..])
    case Malformed => false
  }

  /** `B`, letters and digits, `_`. */
  predicate IsBase62Reference(s: string) {
    && |s| >= 2 && s[0] == 'B' && s[|s| - 1] == '_'
    && forall i :: 1 <= i < |s| - 1 ==> '0' <= s[i] <= '9' || 'A' <= s[i] <= 'Z' || 'a' <= s[i] <= 'z'
  }

  /** All identifiers stand in their spans, and the last one closes the symbol. */
  predicate IsReadAt(name: string, segs: seq<Segment>, at: seq<Span>)
    requires segs != []
  {
    StandInOrder(name, segs, at) && Closes(name[at[|segs| - 1].end..], segs[|segs| - 1])
  }

  ghost predicate Designates(spec: string, name: string) {
    exists at: seq<Span> :: IsReadAt(name, Segments(spec), at)
  }

  lemma StandsIsToken(name: string, ident: string, at: Span)
    ensures StandsAt(name, ident, at) <==> OccursAt(name, Token(ident), at.start) && at.end == at.start + |Token(ident)|
  {
    if at.start <= at.end <= |name| {
      TokenSpells(ident, name[at.start..at.end]);
    }
  }

  lemma ReferenceIsBackref(s: string)
    ensures IsBase62Reference(s) <==> IsBackref(s)
  {
    if |s| >= 2 {
      var mid := s[1..|s| - 1];
      assert forall i :: 1 <= i < |s| - 1 ==> s[i] == mid[i - 1];
    }
  }

  lemma BothParts(x: string, y: string, a: string, b: string)
    requires |x| == |a|
    ensures x + y == a + b <==> x == a && y == b
  {
    assert (x + y)[..|x|] == x && (x + y)[|x|..] == y && (a + b)[..|a|] == a && (a + b)[|a|..] == b;
  }

  lemma OccursJoined(name: string, a: string, b: string, q: nat)
    ensures OccursAt(name, a + b, q) <==> OccursAt(name, a, q) && OccursAt(name, b, q + |a|)
  {
    if q + |a| + |b| <= |name| {
      var x, y := name[q..q + |a|], name[q + |a|..q + |a| + |b|];
      assert name[q..q + |a + b|] == x + y;
      BothParts(x, y, a, b);
    }
  }

  /** An occurrence is how what stands from there on begins. */
  lemma OccursInRest(name: string, t: string, q: nat)
    requires q <= |name|
    ensures OccursAt(name, t, q) <==> |t| <= |name[q..]| && name[q..][..|t|] == t
    ensures q + |t| <= |name| ==> name[q..][|t|..] == name[q + |t|..]
  {
  }

  /** The arguments and `E` can only be what `rest` begins with. */
  lemma ArgumentsFirst(rest: string, args: string)
    ensures Closes(rest, Generic("", args)) <==>
            |args| + 1 <= |rest| && rest[..|args| + 1] == args + "E" && IsBackref(rest[|args| + 1..])
  {
    if |args| + 1 <= |rest| {
      ReferenceIsBackref(rest[|args| + 1..]);
    }
    if k :| 0 <= k <= |rest| && rest[..k] == args + "E" && IsBase62Reference(rest[k..]) {
      assert k == |args + "E"|;
    }
  }

  /** The last segment closes the symbol where its token starts. */
  lemma ClosesIsClosesAt(name: string, last: Segment, q: nat)
    requires !last.Malformed? && OccursAt(name, Token(last.ident), q)
    ensures ClosesAt(name, last, q) <==> Closes(name[q + |Token(last.ident)|..], last)
  {
    if last.Generic? {
      GenericCloses(name, last.ident, last.args, q);
    }
  }

  lemma GenericCloses(name: string, ident: string, args: string, q: nat)
    requires OccursAt(name, Token(ident), q)
    ensures ClosesAt(name, Generic(ident, args), q) <==> Closes(name[q + |Token(ident)|..], Generic(ident, args))
  {
    var token, text := Token(ident), args + "E";
    assert Closing(ident, args) == token + text;
    OccursJoined(name, token, text, q);
    OccursInRest(name, text, q + |token|);
    ArgumentsFirst(name[q + |token|..], args);
  }

  lemma StandingIsPlaced(name: string, segs: seq<Segment>, at: seq<Span>)
    requires segs != [] && IsReadAt(name, segs, at)
    ensures var n := |segs| - 1;
            && WellFormed(segs) && ClosesAt(name, segs[n], at[n].start)
            && IsPlacement(name, TokensOf(segs[..n]), seq(n, i requires 0 <= i < n => at[i].start), at[n].start)
  {
    var n := |segs| - 1;
    forall i | 0 <= i < |segs|
      ensures OccursAt(name, Token(segs[i].ident), at[i].start) && at[i].end == at[i].start + |Token(segs[i].ident)|
    {
      StandsIsToken(name, segs[i].ident, at[i]);
    }
    ClosesIsClosesAt(name, segs[n], at[n].start);
  }

  function SpansOf(segs: seq<Segment>, starts: seq<nat>): seq<Span>
    requires |starts| == |segs| && WellFormed(segs)
  {
    seq(|segs|, i requires 0 <= i < |segs| => Span(starts[i], starts[i] + |Token(segs[i].ident)|))
  }

  /** Where the tokens of all segments start. */
  predicate TokensAt(name: string, segs: seq<Segment>, starts: seq<nat>)
    requires |starts| == |segs| && WellFormed(segs)
  {
    && (forall i :: 0 <= i < |segs| ==> OccursAt(name, Token(segs[i].ident), starts[i]))
    && (forall i, j :: 0 <= i < j < |segs| ==> starts[i] + |Token(segs[i].ident)| <= starts[j])
  }

  lemma TokensStand(name: string, segs: seq<Segment>, starts: seq<nat>)
    requires |starts| == |segs| && WellFormed(segs) && TokensAt(name, segs, starts)
    ensures StandInOrder(name, segs, SpansOf(segs, starts))
  {
    forall i | 0 <= i < |segs|
      ensures StandsAt(name, segs[i].ident, SpansOf(segs, starts)[i])
    {
      StandsIsToken(name, segs[i].ident, SpansOf(segs, starts)[i]);
    }
  }

  lemma TokensOfAll(name: string, segs: seq<Segment>, starts: seq<nat>, q: nat)
    requires segs != [] && WellFormed(segs) && OccursAt(name, Token(segs[|segs| - 1].ident), q)
    requires IsPlacement(name, TokensOf(segs[..|segs| - 1]), starts, q)
    ensures TokensAt(name, segs, starts + [q])
  {
    var n := |segs| - 1;
    forall i | 0 <= i < n
      ensures OccursAt(name, Token(segs[i].ident), starts[i]) && starts[i] + |Token(segs[i].ident)| <= q
    {
      assert TokensOf(segs[..n])[i] == Token(segs[i].ident);
    }
    forall i, j | 0 <= i < j < n
      ensures starts[i] + |Token(segs[i].ident)| <= starts[j]
    {
      assert TokensOf(segs[..n])[i] == Token(segs[i].ident);
    }
  }

  lemma PlacedIsStanding(name: string, segs: seq<Segment>, starts: seq<nat>, q: nat) returns (at: seq<Span>)
    requires segs != [] && WellFormed(segs)
    requires IsPlacement(name, TokensOf(segs[..|segs| - 1]), starts, q) && ClosesAt(name, segs[|segs| - 1], q)
    ensures IsReadAt(name, segs, at)
  {
    LastStands(name, segs[|segs| - 1], q);
    TokensOfAll(name, segs, starts, q);
    TokensStand(name, segs, starts + [q]);
    ClosesIsClosesAt(name, segs[|segs| - 1], q);
    at := SpansOf(segs, starts + [q]);
  }

  lemma LastStands(name: string, last: Segment, q: nat)
    requires ClosesAt(name, last, q)
    ensures !last.Malformed? && OccursAt(name, Token(last.ident), q)
  {
    if last.Generic? {
      assert Closing(last.ident, last.args) == Token(last.ident) + (last.args + "E");
      OccursJoined(name, Token(last.ident), last.args + "E", q);
    }
  }

  lemma DesignatedHasPlacement(spec: string, name: string, at: seq<Span>)
    requires IsReadAt(name, Segments(spec), at)
    ensures HasPlacement(spec, name)
  {
    StandingIsPlaced(name, Segments(spec), at);
  }

  lemma PlacedIsDesignated(spec: string, name: string)
    requires HasPlacement(spec, name)
    ensures Designates(spec, name)
  {
    var segs := Segments(spec);
    var n := |segs| - 1;
    var starts, q: nat :| IsPlacement(name, TokensOf(segs[..n]), starts, q) && ClosesAt(name, segs[n], q);
    var at := PlacedIsStanding(name, segs, starts, q);
  }

  /** The two readings of a spec agree. */
  lemma DesignatesIsPlaced(spec: string, name: string)
    ensures Designates(spec, name) <==> HasPlacement(spec, name)
  {
    if at: seq<Span> :| IsReadAt(name, Segments(spec), at) {
      DesignatedHasPlacement(spec, name, at);
    }
    if HasPlacement(spec, name) {
      PlacedIsDesignated(spec, name);
    }
  }

  /** A match is never wrong about what the spec says. */
  lemma MatchIsDesignated(name: string, spec: string)
    requires Matches(name, spec)
    ensures Designates(spec, name)
  {
    MatchIsSound(name, spec);
    DesignatesIsPlaced(spec, name);
  }

  /** And the search finds exactly the symbols a spec designates, if and only if `SearchIsExact`. */
  lemma SearchFindsDesignated(spec: string)
    ensures SearchIsExact(spec) <==> forall name :: Matches(name, spec) <==> Designates(spec, name)
  {
    SearchIsExactIff(spec);
    forall name {
      DesignatesIsPlaced(spec, name);
    }
  }

  // ----- how a spec is written

  /** An identifier that can stand in a spec. */
  predicate IsIdent(s: string) {
    ':' !in s && '<' !in s
  }

  /** `a::b::c`, or with arguments `a::b::c<args>`. */
  function SpecText(inner: seq<string>, last: string, args: Option<string>): string {
    JoinWith(inner + [last + if args.Some? then "<" + args.value + ">" else ""], "::")
  }

  function SpecSegments(inner: seq<string>, last: string, args: Option<string>): seq<Segment> {
    seq(|inner|, i requires 0 <= i < |inner| => Plain(inner[i]))
    + [if args.Some? then Generic(last, args.value) else Plain(last)]
  }

  /** How one segment is read. */
  lemma SegmentMeans(text: string, last: bool, ident: string, args: string)
    ensures ParseSegment(text, last) == Plain(ident) <==> text == ident && '<' !in text
    ensures ParseSegment(text, last) == Generic(ident, args) <==>
            last && '<' !in ident && text == ident + ("<" + (args + ">"))
  {
    var split := SplitOnce(text, "<");
    SplitOnceIsExact(text, "<", ident, args + ">");
    if split.Some? {
      SplitOnceIsExact(text, "<", split.value.0, split.value.1);
      var rest := split.value.1;
      if EndsWith(rest, ">") {
        assert rest == rest[..|rest| - 1] + ">";
      }
    }
    assert EndsWith(args + ">", ">") && (args + ">")[..|args|] == args;
  }

  lemma PartsAreRead(parts: seq<string>)
    requires parts != [] && forall i :: 0 <= i < |parts| ==> ':' !in parts[i]
    ensures Segments(JoinWith(parts, "::"))
         == seq(|parts|, i requires 0 <= i < |parts| => ParseSegment(parts[i], i + 1 == |parts|))
  {
    SplitUndoesJoin(parts, "::");
  }

  /** A spec is read as the identifiers and the arguments it was written from. */
  lemma SpecIsRead(inner: seq<string>, last: string, args: Option<string>)
    requires (forall i :: 0 <= i < |inner| ==> IsIdent(inner[i])) && IsIdent(last)
             && (args.Some? ==> ':' !in args.value)
    ensures Segments(SpecText(inner, last, args)) == SpecSegments(inner, last, args)
  {
    var text := last + if args.Some? then "<" + args.value + ">" else "";
    var parts := inner + [text];
    PartsAreRead(parts);
    forall i | 0 <= i < |inner|
      ensures ParseSegment(parts[i], i + 1 == |parts|) == Plain(inner[i])
    {
      SegmentMeans(inner[i], false, inner[i], "");
    }
    if args.Some? {
      assert text == last + ("<" + (args.value + ">"));
      SegmentMeans(text, true, last, args.value);
    } else {
      assert text == last;
      SegmentMeans(text, true, last, "");
    }
  }
}
