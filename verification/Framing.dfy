/** What a stream file is, independently of the codec that reads it and of the writers that cut
    the plaintext, and what the codec does on every input: it accepts exactly the stream files,
    gives nothing of the `Final` chunk away when bytes follow it, and fails on every truncation. */
module Framing {
  import opened Bytes
  import opened Secretstream
  import opened Codec

  // ----- cutting a message into chunks

  datatype Cut = Cut(full: seq<Bytes>, last: Bytes)

  /** The canonical cut: full chunks while more than one chunk is left; the rest, even a full chunk,
      is the last one. */
  function CutUp(m: Bytes): Cut
    decreases |m|
  {
    if |m| <= CHUNK_BYTES then Cut([], m)
    else
      var rest := CutUp(m[CHUNK_BYTES..]);
      Cut([m[..CHUNK_BYTES]] + rest.full, rest.last)
  }

  function RecordCount(m: Bytes): nat {
    |CutUp(m).full| + 1
  }

  predicate AllFull(chunks: seq<Bytes>) {
    forall i :: 0 <= i < |chunks| ==> |chunks[i]| == CHUNK_BYTES
  }

  /** Nothing lost or reordered, every cut chunk full, and the held-back rest at most one chunk and
      not empty once anything was cut. */
  predicate IsCut(full: seq<Bytes>, last: Bytes, m: Bytes) {
    AllFull(full) && Flatten(full) + last == m && |last| <= CHUNK_BYTES && (full != [] ==> last != [])
  }

  /** `IsCut` determines the cut: however a writer got there, it holds the canonical one. */
  lemma {:induction false} CutIsUnique(full: seq<Bytes>, last: Bytes, m: Bytes)
    ensures IsCut(full, last, m) <==> CutUp(m) == Cut(full, last)
    decreases |m|
  {
    if |m| <= CHUNK_BYTES {
      if full != [] && IsCut(full, last, m) {
        CutTail(full, last, m);
      }
      assert Flatten([]) + m == m;
    } else {
      var rest := CutUp(m[CHUNK_BYTES..]);
      CutIsUnique(rest.full, rest.last, m[CHUNK_BYTES..]);
      var cut := [m[..CHUNK_BYTES]] + rest.full;
      assert cut[1..] == rest.full;
      assert rest.last != [] by {
        if rest.full == [] {
          assert Flatten(rest.full) + rest.last == rest.last;
        }
      }
      assert Flatten(cut) + rest.last == m[..CHUNK_BYTES] + (Flatten(rest.full) + rest.last) == m;
      assert IsCut(cut, rest.last, m);
      if full != [] && IsCut(full, last, m) {
        CutTail(full, last, m);
        CutIsUnique(full[1..], last, m[CHUNK_BYTES..]);
        assert full == [m[..CHUNK_BYTES]] + full[1..];
      }
    }
  }

  lemma CutTail(full: seq<Bytes>, last: Bytes, m: Bytes)
    requires IsCut(full, last, m) && full != []
    ensures |m| > CHUNK_BYTES && full[0] == m[..CHUNK_BYTES] && IsCut(full[1..], last, m[CHUNK_BYTES..])
  {
    assert m == full[0] + (Flatten(full[1..]) + last);
    assert m[CHUNK_BYTES..] == Flatten(full[1..]) + last;
  }

  // ----- stream files, as parse trees

  /** The parse tree of a stream file. */
  datatype Transcript = Transcript(header: Bytes, chunks: seq<Record>, last: Record)

  predicate ChunkShape(r: Record) {
    |r.ciphertext| == CHUNK_BYTES && r.tagByte != Final.ToByte()
  }

  predicate FinalShape(r: Record) {
    |r.ciphertext| <= CHUNK_BYTES && r.tagByte == Final.ToByte()
  }

  predicate WellShaped(t: Transcript) {
    |t.header| == HEADER_BYTES && FinalShape(t.last) && forall i :: 0 <= i < |t.chunks| ==> ChunkShape(t.chunks[i])
  }

  function RecordsBytes(rs: seq<Record>): Bytes {
    if rs == [] then [] else RecordBytes(rs[0]) + RecordsBytes(rs[1..])
  }

  function WireBytes(t: Transcript): Bytes {
    FilePrefix(t.header) + RecordsBytes(t.chunks) + RecordBytes(t.last)
  }

  /** Opens records one after another, each in the session the one before it left. */
  function OpenChunks(c: Cipher, s: Session, rs: seq<Record>): (r: Option<(Session, seq<Bytes>)>)
    ensures r.Some? ==> |r.value.1| == |rs|
    decreases |rs|
  {
    if rs == [] then Some((s, []))
    else match PullChunk(c, s, rs[0].tagByte, rs[0].ciphertext, rs[0].authTag)
      case Err(_) => None
      case Ok((s', p)) =>
        match OpenChunks(c, s', rs[1..])
        case None => None
        case Some((s'', ps)) => Some((s'', [p] + ps))
  }

  /** The plaintext chunks of an authentic transcript: those before the `Final` one, and it. */
  function OpenTranscript(c: Cipher, key: Bytes, t: Transcript): Option<Cut> {
    match OpenChunks(c, StartSession(c, key, t.header), t.chunks)
    case None => None
    case Some((s, ps)) =>
      match PullChunk(c, s, t.last.tagByte, t.last.ciphertext, t.last.authTag)
      case Err(_) => None
      case Ok((_, p)) => Some(Cut(ps, p))
  }

  ghost predicate IsStreamFile(c: Cipher, key: Bytes, file: Bytes, t: Transcript, plain: Cut) {
    WellShaped(t) && WireBytes(t) == file && OpenTranscript(c, key, t) == Some(plain)
  }

  // ----- the codec on one record

  ghost predicate AtHead(d: Decoder, s: Session) {
    d.state == AtRecordHead && d.session == Some(s)
  }

  lemma RunRecordHead(c: Cipher, d: Decoder, s: Session, r: Record, tail: Bytes)
    requires AtHead(d, s) && (ChunkShape(r) || FinalShape(r)) && TagOf(r.tagByte).Some?
    ensures Run(c, d, RecordBytes(r) + tail)
         == Run(c, d.(state := AtRecordBody(r.tagByte, |r.ciphertext|)), r.ciphertext + r.authTag + tail)
  {
    var input := RecordBytes(r) + tail;
    assert input[1..5] == ToU32Le(|r.ciphertext|);
    U32LeBijection(|r.ciphertext|, input[1..5]);
    assert input[..5][1..5] == input[1..5];
    assert input[5..] == r.ciphertext + r.authTag + tail;
  }

  lemma RunRecord(c: Cipher, d: Decoder, s: Session, r: Record, s': Session, p: Bytes, tail: Bytes)
    requires AtHead(d, s) && (ChunkShape(r) || FinalShape(r))
    requires PullChunk(c, s, r.tagByte, r.ciphertext, r.authTag) == Ok((s', p))
    ensures Run(c, d, RecordBytes(r) + tail)
         == if FinalShape(r) then Run(c, Decoder(d.key, Some(s'), AfterFinal, p), tail)
            else Prepend(p, Run(c, d.(session := Some(s')), tail))
  {
    RunRecordHead(c, d, s, r, tail);
    var input := r.ciphertext + r.authTag + tail;
    var want := |r.ciphertext| + AUTH_TAG_BYTES;
    assert input[..want] == r.ciphertext + r.authTag;
    assert input[..want][..|r.ciphertext|] == r.ciphertext;
    assert input[..want][|r.ciphertext|..] == r.authTag;
    assert input[want..] == tail;
  }

  lemma JoinedJoined(p: Bytes, ps: seq<Bytes>, rest: Outcome)
    ensures Joined([p], Joined(ps, rest)) == Joined([p] + ps, rest)
  {
    assert [p] + (ps + rest.fed) == [p] + ps + rest.fed;
  }

  lemma {:induction false} RunChunks(c: Cipher, d: Decoder, s: Session, rs: seq<Record>, s': Session, ps: seq<Bytes>,
                                     input: Bytes, tail: Bytes)
    requires AtHead(d, s) && OpenChunks(c, s, rs) == Some((s', ps)) && input == RecordsBytes(rs) + tail
    requires forall i :: 0 <= i < |rs| ==> ChunkShape(rs[i])
    ensures Run(c, d, input) == Joined(ps, Run(c, d.(session := Some(s')), tail))
    decreases |rs|
  {
    if rs == [] {
      assert input == tail;
      assert d.(session := Some(s')) == d;
    } else {
      var s1, p := FirstOpened(c, s, rs, s', ps);
      var d1 := d.(session := Some(s1));
      var after := RecordsBytes(rs[1..]) + tail;
      RecordsFirst(rs, tail);
      RunChunks(c, d1, s1, rs[1..], s', ps[1..], after, tail);
      RunChunkRecord(c, d, s, rs[0], s1, p, input, after);
      JoinedJoined(p, ps[1..], Run(c, d1.(session := Some(s')), tail));
    }
  }

  lemma RecordsFirst(rs: seq<Record>, tail: Bytes)
    requires rs != []
    ensures RecordsBytes(rs) + tail == RecordBytes(rs[0]) + (RecordsBytes(rs[1..]) + tail)
  {
    var x, y := RecordBytes(rs[0]), RecordsBytes(rs[1..]);
    assert x + y + tail == x + (y + tail);
  }

  lemma RunChunkRecord(c: Cipher, d: Decoder, s: Session, r: Record, s1: Session, p: Bytes, input: Bytes, after: Bytes)
    requires AtHead(d, s) && ChunkShape(r) && PullChunk(c, s, r.tagByte, r.ciphertext, r.authTag) == Ok((s1, p))
    requires input == RecordBytes(r) + after
    ensures Run(c, d, input) == Joined([p], Run(c, d.(session := Some(s1)), after))
  {
    RunRecord(c, d, s, r, s1, p, after);
  }

  lemma FirstOpened(c: Cipher, s: Session, rs: seq<Record>, s': Session, ps: seq<Bytes>) returns (s1: Session, p: Bytes)
    requires rs != [] && OpenChunks(c, s, rs) == Some((s', ps))
    ensures PullChunk(c, s, rs[0].tagByte, rs[0].ciphertext, rs[0].authTag) == Ok((s1, p)) && |p| == |rs[0].ciphertext|
    ensures ps == [p] + ps[1..] && OpenChunks(c, s1, rs[1..]) == Some((s', ps[1..]))
  {
    var pulled := PullChunk(c, s, rs[0].tagByte, rs[0].ciphertext, rs[0].authTag).value;
    s1, p := pulled.0, pulled.1;
    assert OpenChunks(c, s1, rs[1..]).value.1 == ps[1..];
  }

  lemma RunPrefixBytes(c: Cipher, key: Bytes, header: Bytes, tail: Bytes)
    requires |header| == HEADER_BYTES
    ensures Run(c, NewDecoder(key), FilePrefix(header) + tail)
         == Run(c, Decoder(Zeros(|key|), Some(StartSession(c, key, header)), AtRecordHead, []), tail)
  {
    var input := FilePrefix(header) + tail;
    assert input[..1] == [FORMAT_VERSION] && input[1..] == header + tail;
    assert (header + tail)[..HEADER_BYTES] == header && (header + tail)[HEADER_BYTES..] == tail;
  }

  // ----- the language the codec accepts

  /** Every stream file is read back to its own plaintext chunks; and with anything appended, the
      chunks before the `Final` one come out, the `Final` one never does. */
  lemma StreamFileThenTail(c: Cipher, key: Bytes, file: Bytes, t: Transcript, plain: Cut, tail: Bytes)
    requires IsStreamFile(c, key, file, t, plain)
    ensures Run(c, NewDecoder(key), file + tail)
            == Outcome(plain.full, if tail == [] then Ok(plain.last) else Err(TrailingData))
  {
    var s0 := StartSession(c, key, t.header);
    var d0 := Decoder(Zeros(|key|), Some(s0), AtRecordHead, []);
    var (s, ps) := OpenChunks(c, s0, t.chunks).value;
    var (s', p) := PullChunk(c, s, t.last.tagByte, t.last.ciphertext, t.last.authTag).value;
    var finalAndTail := RecordBytes(t.last) + tail;
    var records := RecordsBytes(t.chunks) + finalAndTail;
    assert file + tail == FilePrefix(t.header) + records;
    RunPrefixBytes(c, key, t.header, records);
    RunChunks(c, d0, s0, t.chunks, s, ps, records, finalAndTail);
    RunRecord(c, d0.(session := Some(s)), s, t.last, s', p, tail);
    assert ps + [] == ps;
  }

  /** `input` is the wire form of records that open to exactly the accepting outcome `o`. */
  ghost predicate Splits(c: Cipher, s: Session, input: Bytes, rs: seq<Record>, last: Record, o: Outcome) {
    && FinalShape(last) && (forall i :: 0 <= i < |rs| ==> ChunkShape(rs[i]))
    && input == RecordsBytes(rs) + RecordBytes(last)
    && OpenChunks(c, s, rs).Some? && OpenChunks(c, s, rs).value.1 == o.fed
    && var pulled := PullChunk(c, OpenChunks(c, s, rs).value.0, last.tagByte, last.ciphertext, last.authTag);
    pulled.Ok? && o.verdict == Ok(pulled.value.1)
  }

  lemma SplitsCons(c: Cipher, s: Session, r: Record, s': Session, p: Bytes, tail: Bytes, rs: seq<Record>,
                   last: Record, o: Outcome)
    requires ChunkShape(r) && PullChunk(c, s, r.tagByte, r.ciphertext, r.authTag) == Ok((s', p))
             && Splits(c, s', tail, rs, last, o)
    ensures Splits(c, s, RecordBytes(r) + tail, [r] + rs, last, Prepend(p, o))
  {
    assert ([r] + rs)[1..] == rs;
    assert RecordBytes(r) + (RecordsBytes(rs) + RecordBytes(last))
           == RecordBytes(r) + RecordsBytes(rs) + RecordBytes(last);
  }

  lemma {:induction false} AcceptedRecords(c: Cipher, d: Decoder, s: Session, input: Bytes)
    returns (rs: seq<Record>, last: Record)
    requires AtHead(d, s) && Run(c, d, input).verdict.Ok?
    ensures Splits(c, s, input, rs, last, Run(c, d, input))
    decreases |input|
  {
    var r := FirstRecord(c, d, s, input);
    var tail := input[|RecordBytes(r)|..];
    assert input == RecordBytes(r) + tail;
    var pulled := PullChunk(c, s, r.tagByte, r.ciphertext, r.authTag).value;
    RunRecord(c, d, s, r, pulled.0, pulled.1, tail);
    if FinalShape(r) {
      assert tail == [];
      rs, last := [], r;
      assert input == RecordsBytes(rs) + RecordBytes(last);
    } else {
      var rs';
      rs', last := AcceptedRecords(c, d.(session := Some(pulled.0)), pulled.0, tail);
      rs := [r] + rs';
      SplitsCons(c, s, r, pulled.0, pulled.1, tail, rs', last, Run(c, d.(session := Some(pulled.0)), tail));
    }
  }

  lemma FirstRecord(c: Cipher, d: Decoder, s: Session, input: Bytes) returns (r: Record)
    requires AtHead(d, s) && Run(c, d, input).verdict.Ok?
    ensures ChunkShape(r) || FinalShape(r)
    ensures |RecordBytes(r)| <= |input| && input[..|RecordBytes(r)|] == RecordBytes(r)
    ensures PullChunk(c, s, r.tagByte, r.ciphertext, r.authTag).Ok?
  {
    var tagByte, len := input[0], FromU32Le(input[1..5]);
    assert input[..5][1..5] == input[1..5];
    var body := input[5..];
    assert Step(c, d, input[..5]) == Ok((d.(state := AtRecordBody(tagByte, len)), []));
    var want := len + AUTH_TAG_BYTES;
    assert Step(c, d.(state := AtRecordBody(tagByte, len)), body[..want]).Ok?;
    r := Record(tagByte, body[..want][..len], body[..want][len..]);
    U32LeBijection(len, input[1..5]);
    assert input[..5] == [tagByte] + input[1..5];
    assert input[..5 + want] == input[..5] + body[..want];
    assert body[..want] == r.ciphertext + r.authTag;
  }

  /** The codec accepts exactly the stream files: an input is read to `plain` if and only if it is
      the wire form of a well-shaped transcript whose records open, in order, to `plain`. */
  lemma AcceptsExactlyStreamFiles(c: Cipher, key: Bytes, file: Bytes, plain: Cut)
    ensures Run(c, NewDecoder(key), file) == Outcome(plain.full, Ok(plain.last))
       <==> exists t :: IsStreamFile(c, key, file, t, plain)
  {
    if t :| IsStreamFile(c, key, file, t, plain) {
      StreamFileThenTail(c, key, file, t, plain, []);
      assert file + [] == file;
    }
    if Run(c, NewDecoder(key), file) == Outcome(plain.full, Ok(plain.last)) {
      var t := AcceptedTranscript(c, key, file, plain);
    }
  }

  lemma AcceptedTranscript(c: Cipher, key: Bytes, file: Bytes, plain: Cut) returns (t: Transcript)
    requires Run(c, NewDecoder(key), file) == Outcome(plain.full, Ok(plain.last))
    ensures IsStreamFile(c, key, file, t, plain)
  {
    var header, body := AcceptedPrefix(c, key, file);
    var s := StartSession(c, key, header);
    var rs, last := AcceptedRecords(c, Decoder(Zeros(|key|), Some(s), AtRecordHead, []), s, body);
    t := Transcript(header, rs, last);
    assert FilePrefix(header) + (RecordsBytes(rs) + RecordBytes(last)) == WireBytes(t);
  }

  /** What opens has ciphertexts of its plaintexts' lengths, and 16-byte tags. */
  lemma {:induction false} OpenedShapes(c: Cipher, s: Session, rs: seq<Record>)
    requires OpenChunks(c, s, rs).Some?
    ensures var ps := OpenChunks(c, s, rs).value.1;
            forall i :: 0 <= i < |rs| ==> |rs[i].ciphertext| == |ps[i]| && |rs[i].authTag| == AUTH_TAG_BYTES
    decreases |rs|
  {
    if rs != [] {
      var s', ps := OpenChunks(c, s, rs).value.0, OpenChunks(c, s, rs).value.1;
      var s1, p := FirstOpened(c, s, rs, s', ps);
      OpenedShapes(c, s1, rs[1..]);
    }
  }

  /** A record in front of anything is determined by the bytes. */
  lemma RecordIsDetermined(r: Record, x: Bytes, r': Record, x': Bytes)
    requires RecordBytes(r) + x == RecordBytes(r') + x'
    requires |r.ciphertext| <= CHUNK_BYTES && |r'.ciphertext| <= CHUNK_BYTES
             && |r.authTag| == |r'.authTag| == AUTH_TAG_BYTES
    ensures r == r' && x == x'
  {
    var n, n' := |r.ciphertext|, |r'.ciphertext|;
    var b, b' := RecordBytes(r) + x, RecordBytes(r') + x';
    assert b[0] == r.tagByte && b'[0] == r'.tagByte;
    assert b[1..5] == ToU32Le(n) && b'[1..5] == ToU32Le(n');
    U32LeBijection(n, ToU32Le(n));
    U32LeBijection(n', ToU32Le(n));
    assert b[5..5 + n] == r.ciphertext && b'[5..5 + n'] == r'.ciphertext;
    assert b[5 + n..5 + n + AUTH_TAG_BYTES] == r.authTag && b'[5 + n'..5 + n' + AUTH_TAG_BYTES] == r'.authTag;
    assert b[5 + n + AUTH_TAG_BYTES..] == x && b'[5 + n' + AUTH_TAG_BYTES..] == x';
  }

  predicate AllTagged(rs: seq<Record>) {
    forall i :: 0 <= i < |rs| ==> |rs[i].authTag| == AUTH_TAG_BYTES
  }

  function RestBytes(rs: seq<Record>, last: Record): Bytes {
    if rs == [] then [] else RecordsBytes(rs[1..]) + RecordBytes(last)
  }

  lemma FirstAndRest(rs: seq<Record>, last: Record)
    ensures RecordsBytes(rs) + RecordBytes(last) == RecordBytes((rs + [last])[0]) + RestBytes(rs, last)
  {
    if rs == [] {
      assert rs + [last] == [last];
    } else {
      var x, y, z := RecordBytes(rs[0]), RecordsBytes(rs[1..]), RecordBytes(last);
      assert (rs + [last])[0] == rs[0];
      assert (x + y) + z == x + (y + z);
    }
  }

  lemma {:induction false} RecordsAreDetermined(rs: seq<Record>, last: Record, rs': seq<Record>, last': Record)
    requires RecordsBytes(rs) + RecordBytes(last) == RecordsBytes(rs') + RecordBytes(last')
    requires FinalShape(last) && FinalShape(last') && AllTagged(rs + [last]) && AllTagged(rs' + [last'])
    requires (forall i :: 0 <= i < |rs| ==> ChunkShape(rs[i])) && (forall i :: 0 <= i < |rs'| ==> ChunkShape(rs'[i]))
    ensures rs == rs' && last == last'
    decreases |rs|
  {
    var first, first' := (rs + [last])[0], (rs' + [last'])[0];
    FirstAndRest(rs, last);
    FirstAndRest(rs', last');
    RecordIsDetermined(first, RestBytes(rs, last), first', RestBytes(rs', last'));
    if rs != [] {
      assert rs[1..] + [last] == (rs + [last])[1..] && rs'[1..] + [last'] == (rs' + [last'])[1..];
      RecordsAreDetermined(rs[1..], last, rs'[1..], last');
      assert rs == [first] + rs[1..] && rs' == [first'] + rs'[1..];
    }
  }

  lemma OpenedTags(c: Cipher, key: Bytes, t: Transcript)
    requires OpenTranscript(c, key, t).Some?
    ensures AllTagged(t.chunks + [t.last])
  {
    OpenedShapes(c, StartSession(c, key, t.header), t.chunks);
  }

  lemma PrefixIsDetermined(h: Bytes, x: Bytes, h': Bytes, x': Bytes)
    requires |h| == |h'| && FilePrefix(h) + x == FilePrefix(h') + x'
    ensures h == h' && x == x'
  {
    var b, b' := FilePrefix(h) + x, FilePrefix(h') + x';
    assert b[1..1 + |h|] == h && b'[1..1 + |h|] == h' && b[1 + |h|..] == x && b'[1 + |h|..] == x';
  }

  lemma WireSplit(t: Transcript)
    ensures WireBytes(t) == FilePrefix(t.header) + (RecordsBytes(t.chunks) + RecordBytes(t.last))
  {
    var x, y, z := FilePrefix(t.header), RecordsBytes(t.chunks), RecordBytes(t.last);
    assert x + y + z == x + (y + z);
  }

  lemma WireIsInjective(t: Transcript, t': Transcript)
    requires WellShaped(t) && WellShaped(t') && AllTagged(t.chunks + [t.last]) && AllTagged(t'.chunks + [t'.last])
    requires WireBytes(t) == WireBytes(t')
    ensures t == t'
  {
    var body, body' := RecordsBytes(t.chunks) + RecordBytes(t.last), RecordsBytes(t'.chunks) + RecordBytes(t'.last);
    WireSplit(t);
    WireSplit(t');
    PrefixIsDetermined(t.header, body, t'.header, body');
    RecordsAreDetermined(t.chunks, t.last, t'.chunks, t'.last);
  }

  /** The format is unambiguous: a file has at most one transcript. */
  lemma TranscriptIsUnique(c: Cipher, key: Bytes, file: Bytes, t: Transcript, plain: Cut, t': Transcript, plain': Cut)
    requires IsStreamFile(c, key, file, t, plain) && IsStreamFile(c, key, file, t', plain')
    ensures t == t' && plain == plain'
  {
    OpenedTags(c, key, t);
    OpenedTags(c, key, t');
    WireIsInjective(t, t');
  }

  lemma AcceptedPrefix(c: Cipher, key: Bytes, file: Bytes) returns (header: Bytes, body: Bytes)
    requires Run(c, NewDecoder(key), file).verdict.Ok?
    ensures |header| == HEADER_BYTES && file == FilePrefix(header) + body
    ensures Run(c, NewDecoder(key), file)
            == Run(c, Decoder(Zeros(|key|), Some(StartSession(c, key, header)), AtRecordHead, []), body)
  {
    var rest := file[1..];
    assert Step(c, NewDecoder(key), file[..1]) == Ok((NewDecoder(key).(state := AtHeader), []));
    assert |rest| >= HEADER_BYTES;
    header, body := rest[..HEADER_BYTES], rest[HEADER_BYTES..];
    assert file == FilePrefix(header) + body;
    RunPrefixBytes(c, key, header, body);
  }

  lemma AcceptedStep(c: Cipher, d: Decoder, input: Bytes)
    requires Run(c, d, input).verdict.Ok? && NextLen(d) <= |input|
    ensures !d.state.Done? && Step(c, d, input[..NextLen(d)]).Ok?
    ensures Run(c, Step(c, d, input[..NextLen(d)]).value.0, input[NextLen(d)..]).verdict.Ok?
  {
  }

  lemma RunHead(c: Cipher, d: Decoder, input: Bytes, head: Bytes, rest: Bytes, d': Decoder, p: Bytes)
    requires !d.state.Done? && input == head + rest && |head| == NextLen(d) && Step(c, d, head) == Ok((d', p))
    ensures Run(c, d, input) == Prepend(p, Run(c, d', rest))
  {
    assert input[..|head|] == head && input[|head|..] == rest;
  }

  /** A cut inside the next step ends the run there. */
  lemma RunCutHere(c: Cipher, d: Decoder, input: Bytes, n: nat)
    requires Run(c, d, input).verdict.Ok? && n < |input| && n < NextLen(d)
    ensures Run(c, d, input[..n]) == Outcome([], Err(Truncated))
  {
  }

  /** `short` is truncated, and released no more than `whole` does before its end. */
  predicate IsCutShort(short: Outcome, whole: Outcome) {
    short.verdict == Err(Truncated) && short.fed <= whole.fed
  }

  lemma CutShortPrepend(p: Bytes, short: Outcome, whole: Outcome)
    requires IsCutShort(short, whole)
    ensures IsCutShort(Prepend(p, short), Prepend(p, whole))
  {
  }

  /** Every strict prefix of an accepted input is refused as truncated, after releasing at most
      the chunks before the `Final` one. In particular the accepted inputs are prefix-free. */
  lemma {:induction false} TruncationFailsClosed(c: Cipher, d: Decoder, input: Bytes, n: nat)
    requires Run(c, d, input).verdict.Ok? && n < |input|
    ensures IsCutShort(Run(c, d, input[..n]), Run(c, d, input))
    decreases |input|
  {
    var want := NextLen(d);
    if n < want {
      RunCutHere(c, d, input, n);
    } else {
      AcceptedStep(c, d, input);
      var next, head, rest := Step(c, d, input[..want]).value, input[..want], input[want..];
      TruncationFailsClosed(c, next.0, rest, n - want);
      CutInside(input, want, n);
      CutShortStep(c, d, input, input[..n], head, rest, rest[..n - want], next.0, next.1);
    }
  }

  lemma CutInside(input: Bytes, want: nat, n: nat)
    requires want <= n <= |input|
    ensures input == input[..want] + input[want..] && input[..n] == input[..want] + input[want..][..n - want]
  {
  }

  lemma CutShortStep(c: Cipher, d: Decoder, input: Bytes, cut: Bytes, head: Bytes, rest: Bytes, less: Bytes,
                     d': Decoder, p: Bytes)
    requires !d.state.Done? && input == head + rest && cut == head + less
    requires |head| == NextLen(d) && Step(c, d, head) == Ok((d', p))
    requires IsCutShort(Run(c, d', less), Run(c, d', rest))
    ensures IsCutShort(Run(c, d, cut), Run(c, d, input))
  {
    RunHead(c, d, input, head, rest, d', p);
    RunHead(c, d, cut, head, less, d', p);
    CutShortPrepend(p, Run(c, d', less), Run(c, d', rest));
  }

  /** On any input at all, what `Feed` releases are whole chunks. */
  lemma {:induction false} FedChunksAreFull(c: Cipher, d: Decoder, input: Bytes)
    requires Coherent(d)
    ensures AllFull(Run(c, d, input).fed)
    ensures Run(c, d, input).verdict.Ok? ==> |Run(c, d, input).verdict.value| <= CHUNK_BYTES
    decreases |input|
  {
    var want := NextLen(d);
    if !d.state.Done? && want <= |input| && Step(c, d, input[..want]).Ok? {
      FedChunksAreFull(c, Step(c, d, input[..want]).value.0, input[want..]);
    }
  }

  // ----- the file a writer produces

  function SessionAfter(s: Session, n: nat): Session {
    s.(counter := s.counter + n)
  }

  /** The records of full chunks sealed one after another. */
  function ChunkRecords(c: Cipher, s: Session, chunks: seq<Bytes>): seq<Record> {
    seq(|chunks|, i requires 0 <= i < |chunks| => SealRecord(c, SessionAfter(s, i), Message, chunks[i]))
  }

  function WrittenTranscript(c: Cipher, key: Bytes, header: Bytes, cut: Cut): Transcript {
    var s := StartSession(c, key, header);
    Transcript(header, ChunkRecords(c, s, cut.full), SealRecord(c, SessionAfter(s, |cut.full|), Final, cut.last))
  }

  /** The stream file of message `m` under a key and a header. */
  function FileOf(c: Cipher, key: Bytes, header: Bytes, m: Bytes): Bytes {
    WireBytes(WrittenTranscript(c, key, header, CutUp(m)))
  }

  /** The file of a writer that has sealed exactly `chunks`, and no `Final` record. */
  function PartialFileOf(c: Cipher, key: Bytes, header: Bytes, chunks: seq<Bytes>): Bytes {
    FilePrefix(header) + RecordsBytes(ChunkRecords(c, StartSession(c, key, header), chunks))
  }

  lemma {:induction false} ChunkRecordsOpen(c: Cipher, s: Session, chunks: seq<Bytes>)
    requires !s.finalized && s.counter + |chunks| <= MAX_RECORDS
    ensures OpenChunks(c, s, ChunkRecords(c, s, chunks)) == Some((SessionAfter(s, |chunks|), chunks))
    decreases |chunks|
  {
    var rs := ChunkRecords(c, s, chunks);
    if chunks != [] {
      PullUndoesPush(c, s, Message, chunks[0]);
      var s1 := AfterChunk(c, s, Message);
      assert rs[1..] == ChunkRecords(c, s1, chunks[1..]);
      ChunkRecordsOpen(c, s1, chunks[1..]);
      assert chunks == [chunks[0]] + chunks[1..];
      assert OpenChunks(c, s1, rs[1..]).value.1 == chunks[1..];
    }
  }

  lemma WrittenIsStreamFile(c: Cipher, key: Bytes, header: Bytes, m: Bytes)
    requires |header| == HEADER_BYTES && RecordCount(m) <= MAX_RECORDS
    ensures IsStreamFile(c, key, FileOf(c, key, header, m), WrittenTranscript(c, key, header, CutUp(m)), CutUp(m))
  {
    var cut := CutUp(m);
    CutIsUnique(cut.full, cut.last, m);
    var s := StartSession(c, key, header);
    ChunkRecordsOpen(c, s, cut.full);
    PullUndoesPush(c, SessionAfter(s, |cut.full|), Final, cut.last);
  }

  /** Reading back what was written gives the message, chunk by chunk. */
  lemma RoundTrip(c: Cipher, key: Bytes, header: Bytes, m: Bytes)
    requires |header| == HEADER_BYTES && RecordCount(m) <= MAX_RECORDS
    ensures Run(c, NewDecoder(key), FileOf(c, key, header, m)) == Outcome(CutUp(m).full, Ok(CutUp(m).last))
    ensures Run(c, NewDecoder(key), FileOf(c, key, header, m)).Released() == m
  {
    var file, cut := FileOf(c, key, header, m), CutUp(m);
    WrittenIsStreamFile(c, key, header, m);
    StreamFileThenTail(c, key, file, WrittenTranscript(c, key, header, cut), cut, []);
    assert file + [] == file;
    CutIsUnique(cut.full, cut.last, m);
  }

  /** Whatever kept a writer from its `Final` record, a reader gets the sealed chunks and then fails. */
  lemma UnfinishedFailsClosed(c: Cipher, key: Bytes, header: Bytes, chunks: seq<Bytes>)
    requires |header| == HEADER_BYTES && AllFull(chunks) && |chunks| <= MAX_RECORDS
    ensures Run(c, NewDecoder(key), PartialFileOf(c, key, header, chunks)) == Outcome(chunks, Err(Truncated))
  {
    var s := StartSession(c, key, header);
    var d := Decoder(Zeros(|key|), Some(s), AtRecordHead, []);
    var rs := ChunkRecords(c, s, chunks);
    RunPrefixBytes(c, key, header, RecordsBytes(rs));
    ChunkRecordsOpen(c, s, chunks);
    assert RecordsBytes(rs) + [] == RecordsBytes(rs);
    RunChunks(c, d, s, rs, SessionAfter(s, |chunks|), chunks, RecordsBytes(rs), []);
    assert chunks + [] == chunks;
  }

  lemma {:induction false} RecordsBytesConcat(a: seq<Record>, b: seq<Record>)
    ensures RecordsBytes(a + b) == RecordsBytes(a) + RecordsBytes(b)
    decreases |a|
  {
    if a == [] {
      assert a + b == b;
    } else {
      var x, y, z := RecordBytes(a[0]), RecordsBytes(a[1..]), RecordsBytes(b);
      assert (a + b)[0] == a[0] && (a + b)[1..] == a[1..] + b;
      RecordsBytesConcat(a[1..], b);
      assert x + (y + z) == x + y + z;
    }
  }

  lemma RecordsBytesSplit(rs: seq<Record>, n: nat)
    requires n <= |rs|
    ensures RecordsBytes(rs) == RecordsBytes(rs[..n]) + RecordsBytes(rs[n..])
  {
    RecordsBytesConcat(rs[..n], rs[n..]);
    assert rs == rs[..n] + rs[n..];
  }

  lemma ChunkRecordsTake(c: Cipher, s: Session, chunks: seq<Bytes>, n: nat)
    requires n <= |chunks|
    ensures ChunkRecords(c, s, chunks[..n]) == ChunkRecords(c, s, chunks)[..n]
  {
  }

  /** And what such a writer leaves is a strict prefix of the file it did not finish. */
  lemma UnfinishedIsPrefix(c: Cipher, key: Bytes, header: Bytes, m: Bytes, n: nat)
    requires n <= |CutUp(m).full|
    ensures PartialFileOf(c, key, header, CutUp(m).full[..n]) < FileOf(c, key, header, m)
  {
    var t := WrittenTranscript(c, key, header, CutUp(m));
    ChunkRecordsTake(c, StartSession(c, key, header), CutUp(m).full, n);
    RecordsBytesSplit(t.chunks, n);
    FrontIsPrefix(FilePrefix(header), RecordsBytes(t.chunks[..n]), RecordsBytes(t.chunks[n..]), RecordBytes(t.last));
  }

  lemma FrontIsPrefix(a: Bytes, b: Bytes, rest: Bytes, last: Bytes)
    requires last != []
    ensures a + b < a + (b + rest) + last
  {
  }
}
