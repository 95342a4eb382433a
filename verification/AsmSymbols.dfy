/** Matching a `::`-separated spec against a v0-mangled symbol: each identifier is searched for as
    its length-prefixed token, greedily from the left; the last one must end the symbol, or, with
    generic arguments, is searched for from the right and closed by a back-reference. The searches
    are compared with what they stand for: some placement of all tokens, in order. */
module AsmSymbols {
  import opened Bytes
  import opened AsmText

  // ----- specs

  datatype Segment = Plain(ident: string) | Generic(ident: string, args: string) | Malformed

  /** Only the last segment may name generic arguments. */
  function ParseSegment(text: string, last: bool): Segment {
    match SplitOnce(text, "<")
    case None => Plain(text)
    case Some((ident, rest)) =>
      if last && EndsWith(rest, ">") then Generic(ident, rest[..|rest| - 1]) else Malformed
  }

  function Segments(spec: string): (segs: seq<Segment>)
    ensures segs != []
  {
    var parts := SplitAll(spec, "::");
    seq(|parts|, i requires 0 <= i < |parts| => ParseSegment(parts[i], i + 1 == |parts|))
  }

  predicate WellFormed(segs: seq<Segment>) {
    forall i :: 0 <= i < |segs| ==> !segs[i].Malformed?
  }

  function Token(ident: string): (t: string)
    ensures t != ""
  {
    Decimal(|ident|) + ident
  }

  /** The text a last segment with arguments is searched for. */
  function Closing(ident: string, args: string): (t: string)
    ensures t != "" && t[|t| - 1] == 'E'
  {
    Token(ident) + args + "E"
  }

  function TokensOf(segs: seq<Segment>): seq<string>
    requires WellFormed(segs)
  {
    seq(|segs|, i requires 0 <= i < |segs| => Token(segs[i].ident))
  }

  // ----- the meaning: a placement

  predicate IsAlnum(c: char) {
    '0' <= c <= '9' || 'A' <= c <= 'Z' || 'a' <= c <= 'z'
  }

  predicate AllAlnum(s: string) {
    forall i :: 0 <= i < |s| ==> IsAlnum(s[i])
  }

  /** `B<base-62>_`. */
  predicate IsBackref(s: string) {
    |s| >= 2 && s[0] == 'B' && s[|s| - 1] == '_' && AllAlnum(s[1..|s| - 1])
  }

  /** The first `|at|` tokens occur at `at`, in order, without overlap, before `end`. */
  predicate Placed(name: string, tokens: seq<string>, at: seq<nat>, end: nat) {
    && |at| <= |tokens|
    && (forall i :: 0 <= i < |at| ==> OccursAt(name, tokens[i], at[i]) && at[i] + |tokens[i]| <= end)
    && (forall i, j :: 0 <= i < j < |at| ==> at[i] + |tokens[i]| <= at[j])
  }

  predicate IsPlacement(name: string, tokens: seq<string>, at: seq<nat>, end: nat) {
    |at| == |tokens| && Placed(name, tokens, at, end)
  }

  /** The last segment stands at `q` and closes the symbol. */
  predicate ClosesAt(name: string, last: Segment, q: nat) {
    match last
    case Plain(ident) => OccursAt(name, Token(ident), q) && q + |Token(ident)| == |name|
    case Generic(ident, args) =>
      && OccursAt(name, Closing(ident, args), q)
      && IsBackref(name[q + |Closing(ident, args)|..])
    case Malformed => false
  }

  /** Some placement of the inner tokens leaves room for the last segment to close the symbol. */
  ghost predicate HasPlacement(spec: string, name: string) {
    var segs := Segments(spec);
    var n := |segs| - 1;
    WellFormed(segs) && exists at, q: nat :: IsPlacement(name, TokensOf(segs[..n]), at, q) && ClosesAt(name, segs[n], q)
  }

  // ----- the searches

  /** Where a text is first found from a position on. */
  type Search = (string, nat) -> Option<nat>

  function SearchIn(name: string): Search {
    (text, from) => Find(name, text, from)
  }

  /** Where the leftmost search for each token in turn, from token `i` on, ends. */
  function GreedyEnd(find: Search, tokens: seq<string>, i: nat, from: nat): Option<nat>
    requires i <= |tokens|
    decreases |tokens| - i
  {
    if i == |tokens| then Some(from)
    else match find(tokens[i], from)
      case None => None
      case Some(at) => GreedyEnd(find, tokens, i + 1, at + |tokens[i]|)
  }

  predicate LastFits(name: string, last: Segment, from: nat) {
    match last
    case Plain(ident) => from + |Token(ident)| <= |name| && EndsWith(name, Token(ident))
    case Generic(ident, args) =>
      var closing := Closing(ident, args);
      var at := FindLast(name, closing, from);
      at.Some? && IsBackref(name[at.value + |closing|..])
    case Malformed => false
  }

  /** What the search looks for, segment by segment; there is nothing for a malformed one. */
  function InnerTokens(segs: seq<Segment>): seq<Option<string>> {
    seq(|segs|, i requires 0 <= i < |segs| => if segs[i].Malformed? then None else Some(Token(segs[i].ident)))
  }

  /** Where the search for the inner segments from `i` on ends; a malformed one ends it without success. */
  function InnerEnd(find: Search, inner: seq<Option<string>>, i: nat, from: nat): Option<nat>
    requires i <= |inner|
    decreases |inner| - i
  {
    if i == |inner| then Some(from)
    else if inner[i].None? then None
    else match find(inner[i].value, from)
      case None => None
      case Some(at) => InnerEnd(find, inner, i + 1, at + |inner[i].value|)
  }

  /** What `symbol_matches` computes. */
  predicate Matches(name: string, spec: string) {
    var segs := Segments(spec);
    var n := |segs| - 1;
    var from := InnerEnd(SearchIn(name), InnerTokens(segs[..n]), 0, 0);
    from.Some? && LastFits(name, segs[n], from.value)
  }

  lemma {:induction false} KnownIsGreedy(find: Search, inner: seq<Option<string>>, tokens: seq<string>, i: nat,
                                         from: nat)
    requires |inner| == |tokens| && forall k :: 0 <= k < |inner| ==> inner[k] == Some(tokens[k])
    requires i <= |inner|
    ensures InnerEnd(find, inner, i, from) == GreedyEnd(find, tokens, i, from)
    decreases |inner| - i
  {
    if i < |inner| {
      var at := find(tokens[i], from);
      if at.Some? {
        KnownIsGreedy(find, inner, tokens, i + 1, at.value + |tokens[i]|);
      }
    }
  }

  lemma {:induction false} UnknownFails(find: Search, inner: seq<Option<string>>, i: nat, from: nat, k: nat)
    requires i <= k < |inner| && inner[k].None?
    ensures InnerEnd(find, inner, i, from).None?
    decreases |inner| - i
  {
    if i < k && inner[i].Some? {
      var at := find(inner[i].value, from);
      if at.Some? {
        UnknownFails(find, inner, i + 1, at.value + |inner[i].value|, k);
      }
    }
  }

  lemma InnerEndIsGreedy(find: Search, segs: seq<Segment>)
    ensures InnerEnd(find, InnerTokens(segs), 0, 0)
         == if WellFormed(segs) then GreedyEnd(find, TokensOf(segs), 0, 0) else None
  {
    if WellFormed(segs) {
      KnownIsGreedy(find, InnerTokens(segs), TokensOf(segs), 0, 0);
    } else {
      var k :| 0 <= k < |segs| && segs[k].Malformed?;
      UnknownFails(find, InnerTokens(segs), 0, 0, k);
    }
  }

  // ----- greedy is least

  lemma PlacedSnoc(name: string, tokens: seq<string>, at: seq<nat>, end: nat, next: nat)
    requires Placed(name, tokens, at, end) && |at| < |tokens| && end <= next && OccursAt(name, tokens[|at|], next)
    ensures Placed(name, tokens, at + [next], next + |tokens[|at|]|)
  {
  }

  /** The greedy search ends at a placement, and no placement ends before it. */
  lemma {:induction false} GreedyFindsAPlacement(name: string, tokens: seq<string>, at: seq<nat>, from: nat)
    returns (full: seq<nat>)
    requires Placed(name, tokens, at, from) && GreedyEnd(SearchIn(name), tokens, |at|, from).Some?
    ensures IsPlacement(name, tokens, full, GreedyEnd(SearchIn(name), tokens, |at|, from).value)
    ensures from <= GreedyEnd(SearchIn(name), tokens, |at|, from).value
    decreases |tokens| - |at|
  {
    full := at;
    if |at| < |tokens| {
      var next := Find(name, tokens[|at|], from).value;
      PlacedSnoc(name, tokens, at, from, next);
      full := GreedyFindsAPlacement(name, tokens, at + [next], next + |tokens[|at|]|);
    }
  }

  lemma {:induction false} GreedyIsLeast(name: string, tokens: seq<string>, at: seq<nat>, end: nat, i: nat, from: nat)
    requires IsPlacement(name, tokens, at, end) && i <= |tokens| && from <= if i < |tokens| then at[i] else end
    ensures GreedyEnd(SearchIn(name), tokens, i, from).Some? && GreedyEnd(SearchIn(name), tokens, i, from).value <= end
    decreases |tokens| - i
  {
    if i < |tokens| {
      FindIsLeftmost(name, tokens[i], from, at[i]);
      GreedyIsLeast(name, tokens, at, end, i + 1, Find(name, tokens[i], from).value + |tokens[i]|);
    }
  }

  // ----- the last occurrence

  /** Past the last character of the closing text that is not alphanumeric, at `mark`, everything is
      alphanumeric up to the final underscore. */
  lemma AlnumPastMark(name: string, closing: string, q: nat, mark: nat, p: nat)
    requires OccursAt(name, closing, q) && IsBackref(name[q + |closing|..])
    requires mark < |closing| && forall i :: mark < i < |closing| ==> IsAlnum(closing[i])
    requires q + mark < p < |name| - 1
    ensures IsAlnum(name[p])
  {
    var tail := name[q + |closing|..];
    if p < q + |closing| {
      assert name[p] == name[q..q + |closing|][p - q];
    } else {
      var k := p - (q + |closing|);
      assert name[p] == tail[k];
      assert k > 0 ==> tail[k] == tail[1..|tail| - 1][k - 1];
    }
  }

  /** So no occurrence of it starts after one that a back-reference follows to the end. */
  lemma NoLaterOccurrence(name: string, closing: string, q: nat, later: nat, mark: nat)
    requires OccursAt(name, closing, q) && IsBackref(name[q + |closing|..]) && closing != ""
             && closing[|closing| - 1] == 'E'
    requires mark < |closing| && !IsAlnum(closing[mark]) && forall i :: mark < i < |closing| ==> IsAlnum(closing[i])
    requires OccursAt(name, closing, later)
    ensures later <= q
  {
    var p := later + mark;
    assert name[p] == name[later..later + |closing|][mark];
    assert mark < |closing| - 1;
    if q < later {
      AlnumPastMark(name, closing, q, mark, p);
    }
  }

  /** The last character of `s` that is not alphanumeric. */
  lemma {:induction false} LastMark(s: string) returns (mark: nat)
    requires !AllAlnum(s)
    ensures mark < |s| && !IsAlnum(s[mark]) && forall i :: mark < i < |s| ==> IsAlnum(s[i])
    decreases |s|
  {
    mark := |s| - 1;
    if IsAlnum(s[mark]) {
      mark := LastMark(s[..mark]);
    }
  }

  // ----- the search against its meaning

  /** The only specs whose search can miss a symbol: those with arguments whose whole closing text
      is alphanumeric. */
  predicate SearchIsExact(spec: string) {
    var segs := Segments(spec);
    var last := segs[|segs| - 1];
    WellFormed(segs) && last.Generic? ==> !AllAlnum(Closing(last.ident, last.args))
  }

  lemma LastCloses(name: string, last: Segment, from: nat) returns (q: nat)
    requires LastFits(name, last, from)
    ensures from <= q && ClosesAt(name, last, q)
  {
    match last
    case Plain(ident) => q := |name| - |Token(ident)|;
    case Generic(ident, args) => q := FindLast(name, Closing(ident, args), from).value;
  }

  /** A match is never wrong about the placement. */
  lemma MatchIsSound(name: string, spec: string)
    requires Matches(name, spec)
    ensures HasPlacement(spec, name)
  {
    var segs := Segments(spec);
    var n := |segs| - 1;
    InnerEndIsGreedy(SearchIn(name), segs[..n]);
    var tokens := TokensOf(segs[..n]);
    var at := GreedyFindsAPlacement(name, tokens, [], 0);
    var q := LastCloses(name, segs[n], GreedyEnd(SearchIn(name), tokens, 0, 0).value);
    assert IsPlacement(name, tokens, at, q);
    assert segs == segs[..n] + [segs[n]];
  }

  lemma EndsAt(s: string, t: string, q: nat)
    requires OccursAt(s, t, q) && q + |t| == |s|
    ensures EndsWith(s, t)
  {
  }

  lemma LastIsFound(name: string, last: Segment, from: nat, q: nat)
    requires from <= q && ClosesAt(name, last, q)
    requires last.Generic? ==> !AllAlnum(Closing(last.ident, last.args))
    ensures LastFits(name, last, from)
  {
    match last
    case Plain(ident) => EndsAt(name, Token(ident), q);
    case Generic(ident, args) => ClosingIsFound(name, Closing(ident, args), from, q);
  }

  lemma ClosingIsFound(name: string, closing: string, from: nat, q: nat)
    requires closing != "" && closing[|closing| - 1] == 'E' && !AllAlnum(closing)
    requires from <= q && OccursAt(name, closing, q) && IsBackref(name[q + |closing|..])
    ensures FindLast(name, closing, from) == Some(q)
  {
    var mark := LastMark(closing);
    FindLastIsRightmost(name, closing, from, q);
    NoLaterOccurrence(name, closing, q, FindLast(name, closing, from).value, mark);
  }

  /** And misses none, unless the closing text is all alphanumeric. */
  lemma MatchIsComplete(name: string, spec: string)
    requires HasPlacement(spec, name) && SearchIsExact(spec)
    ensures Matches(name, spec)
  {
    var segs := Segments(spec);
    var n := |segs| - 1;
    var tokens := TokensOf(segs[..n]);
    var at, q: nat :| IsPlacement(name, tokens, at, q) && ClosesAt(name, segs[n], q);
    GreedyIsLeast(name, tokens, at, q, 0, 0);
    LastIsFound(name, segs[n], GreedyEnd(SearchIn(name), tokens, 0, 0).value, q);
    InnerEndIsGreedy(SearchIn(name), segs[..n]);
  }

  /** The first `n` tokens, one after another. */
  function Join(tokens: seq<string>, n: nat): string
    requires n <= |tokens|
  {
    if n == 0 then "" else Join(tokens, n - 1) + tokens[n - 1]
  }

  lemma {:induction false} JoinIsPlaced(tokens: seq<string>, n: nat, tail: string) returns (at: seq<nat>)
    requires n <= |tokens|
    ensures |at| == n && Placed(Join(tokens, n) + tail, tokens, at, |Join(tokens, n)|)
    decreases n
  {
    at := [];
    if n > 0 {
      var front, last := Join(tokens, n - 1), tokens[n - 1];
      at := JoinIsPlaced(tokens, n - 1, last + tail);
      var name := front + (last + tail);
      assert name == Join(tokens, n) + tail;
      assert name[|front|..|front| + |last|] == last;
      PlacedSnoc(name, tokens, at, |front|, |front|);
      at := at + [|front|];
    }
  }

  /** `lead`, the closing text, a back-reference that repeats the closing text, and the end. */
  function MissedName(lead: string, closing: string): string {
    lead + (closing + ("B" + (closing + "_")))
  }

  lemma MissedNameCloses(lead: string, closing: string)
    requires AllAlnum(closing)
    ensures OccursAt(MissedName(lead, closing), closing, |lead|)
    ensures IsBackref(MissedName(lead, closing)[|lead| + |closing|..])
  {
    var name, tail := MissedName(lead, closing), "B" + (closing + "_");
    assert name[|lead|..|lead| + |closing|] == closing;
    assert name[|lead| + |closing|..] == tail;
    assert tail[1..|tail| - 1] == closing;
  }

  lemma MissedNameIsMissed(lead: string, closing: string, from: nat)
    requires closing != "" && closing[|closing| - 1] == 'E' && from <= |lead|
    ensures FindLast(MissedName(lead, closing), closing, from) == Some(|lead| + |closing| + 1)
    ensures MissedName(lead, closing)[|lead| + 2 * |closing| + 1..] == "_"
  {
    var name, second := MissedName(lead, closing), |lead| + |closing| + 1;
    assert name[second..second + |closing|] == closing;
    FindLastIsRightmost(name, closing, from, second);
    var found := FindLast(name, closing, from).value;
    assert closing[|closing| - 1] == name[found..found + |closing|][|closing| - 1] == name[found + |closing| - 1];
  }

  /** The symbol with all inner tokens in front is placed there. */
  lemma MissedNameIsPlaced(tokens: seq<string>, closing: string) returns (at: seq<nat>)
    ensures IsPlacement(MissedName(Join(tokens, |tokens|), closing), tokens, at, |Join(tokens, |tokens|)|)
  {
    at := JoinIsPlaced(tokens, |tokens|, closing + ("B" + (closing + "_")));
  }

  lemma MissedNameClosesAt(name: string, lead: string, last: Segment)
    requires last.Generic? && AllAlnum(Closing(last.ident, last.args))
    requires name == MissedName(lead, Closing(last.ident, last.args))
    ensures ClosesAt(name, last, |lead|)
  {
    MissedNameCloses(lead, Closing(last.ident, last.args));
  }

  lemma MissedNameDoesNotFit(name: string, lead: string, last: Segment, from: nat)
    requires last.Generic? && from <= |lead| && name == MissedName(lead, Closing(last.ident, last.args))
    ensures !LastFits(name, last, from)
  {
    MissedNameIsMissed(lead, Closing(last.ident, last.args), from);
  }

  lemma MissedNameIsNotMatched(name: string, segs: seq<Segment>, lead: string, at: seq<nat>)
    requires segs != [] && WellFormed(segs) && segs[|segs| - 1].Generic?
    requires name == MissedName(lead, Closing(segs[|segs| - 1].ident, segs[|segs| - 1].args))
    requires IsPlacement(name, TokensOf(segs[..|segs| - 1]), at, |lead|)
    ensures var from := InnerEnd(SearchIn(name), InnerTokens(segs[..|segs| - 1]), 0, 0);
            from.Some? && !LastFits(name, segs[|segs| - 1], from.value)
  {
    var n := |segs| - 1;
    var tokens := TokensOf(segs[..n]);
    GreedyIsLeast(name, tokens, at, |lead|, 0, 0);
    InnerEndIsGreedy(SearchIn(name), segs[..n]);
    MissedNameDoesNotFit(name, lead, segs[n], GreedyEnd(SearchIn(name), tokens, 0, 0).value);
  }

  /** A symbol an inexact spec designates and its search misses. */
  lemma InexactSearchMisses(spec: string) returns (name: string)
    requires !SearchIsExact(spec)
    ensures HasPlacement(spec, name) && !Matches(name, spec)
  {
    var segs := Segments(spec);
    var n := |segs| - 1;
    var tokens, last := TokensOf(segs[..n]), segs[n];
    var lead := Join(tokens, n);
    name := MissedName(lead, Closing(last.ident, last.args));
    var at := MissedNameIsPlaced(tokens, Closing(last.ident, last.args));
    MissedNameClosesAt(name, lead, last);
    MissedNameIsNotMatched(name, segs, lead, at);
  }

  /** The search of a spec agrees with its meaning on every symbol if and only if `SearchIsExact`. */
  lemma SearchIsExactIff(spec: string)
    ensures SearchIsExact(spec) <==> forall name :: Matches(name, spec) <==> HasPlacement(spec, name)
  {
    if SearchIsExact(spec) {
      forall name
        ensures Matches(name, spec) <==> HasPlacement(spec, name)
      {
        if Matches(name, spec) {
          MatchIsSound(name, spec);
        }
        if HasPlacement(spec, name) {
          MatchIsComplete(name, spec);
        }
      }
    } else {
      var name := InexactSearchMisses(spec);
    }
  }

  /** Every argument text with an underscore, as in each table row that has one, is safe. */
  lemma UnderscoreArgsAreExact(spec: string)
    requires var segs := Segments(spec); var last := segs[|segs| - 1]; last.Generic? ==> '_' in last.args
    ensures SearchIsExact(spec)
  {
    var segs := Segments(spec);
    var last := segs[|segs| - 1];
    if last.Generic? {
      var k :| 0 <= k < |last.args| && last.args[k] == '_';
      var closing := Closing(last.ident, last.args);
      assert closing[|Token(last.ident)| + k] == '_';
    }
  }

  // ----- the loop

  /** The loop over the inner segments: where it ends, if it does not give up. */
  method FindInner(find: Search, segs: seq<Segment>) returns (end: Option<nat>)
    ensures end == InnerEnd(find, InnerTokens(segs), 0, 0)
  {
    var from: nat := 0;
    ghost var inner := InnerTokens(segs);
    for i := 0 to |segs|
      invariant InnerEnd(find, inner, i, from) == InnerEnd(find, inner, 0, 0)
    {
      if segs[i].Malformed? {
        return None;
      }
      var token := Token(segs[i].ident);
      var found := find(token, from);
      if found.None? {
        return None;
      }
      from := found.value + |token|;
    }
    return Some(from);
  }

  method SymbolMatches(name: string, spec: string) returns (ok: bool)
    ensures ok <==> Matches(name, spec)
  {
    var segs := Segments(spec);
    var n := |segs| - 1;
    var from := FindInner(SearchIn(name), segs[..n]);
    if from.None? {
      return false;
    }
    ok := LastFits(name, segs[n], from.value);
  }
}
