/** The four stream writers. Each buffers and cuts its own way; all hold the canonical cut of the
    bytes written so far, so the records depend only on the concatenated plaintext. */
module Writers {
  import opened Bytes
  import opened Secretstream
  import opened Codec
  import opened Framing

  datatype WriteError = AlreadyCompleted | BadArgument | Refused(error: FileError)

  /** The underlying output; every write to it succeeds. */
  class Sink {
    var data: Bytes

    constructor ()
      ensures data == []
    {
      data := [];
    }

    method Append(bytes: Bytes)
      modifies this
      ensures data == old(data) + bytes
    {
      data := data + bytes;
    }
  }

  /** Where a stream starts: the bytes in front of the stream file, its key and its header. */
  datatype Origin = Origin(lead: Bytes, key: Bytes, header: Bytes) {
    function Prefix(): Bytes {
      lead + FilePrefix(header)
    }

    /** After exactly `chunks` were sealed. */
    function Partial(c: Cipher, chunks: seq<Bytes>): Bytes {
      lead + PartialFileOf(c, key, header, chunks)
    }

    function Finished(c: Cipher, m: Bytes): Bytes {
      lead + FileOf(c, key, header, m)
    }
  }

  /** The output and the session after exactly `chunks` were sealed. */
  ghost predicate Emitted(c: Cipher, o: Origin, chunks: seq<Bytes>, session: Session, output: Bytes) {
    session == SessionAfter(StartSession(c, o.key, o.header), |chunks|) && output == o.Partial(c, chunks)
  }

  /** The output and the session of a writer that has been given `m` and not been completed. */
  ghost predicate Holding(c: Cipher, o: Origin, m: Bytes, held: Bytes, session: Session, output: Bytes) {
    && CutUp(m).last == held && session.counter <= MAX_RECORDS
    && Emitted(c, o, CutUp(m).full, session, output)
  }

  /** Mid-write: `chunks` are sealed and `rest` is still to be cut. */
  ghost predicate Cutting(chunks: seq<Bytes>, rest: Bytes, m: Bytes) {
    AllFull(chunks) && Flatten(chunks) + rest == m && (chunks != [] ==> rest != [])
  }

  /** The counter ran out: the output stops after the chunks it allowed, without a `Final` record. */
  ghost predicate Exhausted(c: Cipher, o: Origin, m: Bytes, output: Bytes) {
    && |CutUp(m).full| > MAX_RECORDS
    && output == o.Partial(c, CutUp(m).full[..MAX_RECORDS])
  }

  lemma CutResume(chunks: seq<Bytes>, rest: Bytes, m: Bytes)
    requires Cutting(chunks, rest, m)
    ensures CutUp(m) == Cut(chunks + CutUp(rest).full, CutUp(rest).last)
  {
    var cut := CutUp(rest);
    CutIsUnique(cut.full, cut.last, rest);
    FlattenConcat(chunks, cut.full);
    assert Flatten(chunks + cut.full) + cut.last == Flatten(chunks) + (Flatten(cut.full) + cut.last) == m;
    assert IsCut(chunks + cut.full, cut.last, m) by {
      if cut.last == [] {
        assert cut.full == [];
        assert Flatten(cut.full) + cut.last == [];
      }
    }
    CutIsUnique(chunks + cut.full, cut.last, m);
  }

  lemma CuttingSnoc(chunks: seq<Bytes>, chunk: Bytes, rest: Bytes, m: Bytes)
    requires Cutting(chunks, chunk + rest, m) && |chunk| == CHUNK_BYTES && rest != []
    ensures Cutting(chunks + [chunk], rest, m)
  {
    FlattenSnoc(chunks, chunk);
    assert Flatten(chunks) + (chunk + rest) == Flatten(chunks) + chunk + rest;
  }

  /** What a writer holds is what is left to cut of everything it was given. */
  lemma HoldingIsCutting(c: Cipher, o: Origin, m: Bytes, held: Bytes, session: Session, output: Bytes, more: Bytes)
    requires Holding(c, o, m, held, session, output)
    ensures Emitted(c, o, CutUp(m).full, session, output) && |held| <= CHUNK_BYTES
    ensures Cutting(CutUp(m).full, held + more, m + more)
  {
    var cut := CutUp(m);
    CutIsUnique(cut.full, cut.last, m);
    assert Flatten(cut.full) + (held + more) == m + more;
  }

  lemma CuttingIsHolding(c: Cipher, o: Origin, chunks: seq<Bytes>, held: Bytes, m: Bytes, session: Session,
                         output: Bytes)
    requires Emitted(c, o, chunks, session, output) && Cutting(chunks, held, m) && |held| <= CHUNK_BYTES
             && |chunks| <= MAX_RECORDS
    ensures Holding(c, o, m, held, session, output)
  {
    CutIsUnique(chunks, held, m);
  }

  /** With only the prefix written, a writer holds the empty message. */
  lemma StartIsHolding(c: Cipher, o: Origin, session: Session, output: Bytes)
    requires session == StartSession(c, o.key, o.header) && output == o.Prefix()
    ensures Holding(c, o, [], [], session, output)
  {
    assert ChunkRecords(c, session, []) == [];
    assert FilePrefix(o.header) + [] == FilePrefix(o.header);
    CuttingIsHolding(c, o, [], [], [], session, output);
  }

  /** Bytes that fit beside the held ones are simply held too. */
  lemma HeldFits(c: Cipher, o: Origin, m: Bytes, held: Bytes, session: Session, output: Bytes, more: Bytes)
    requires Holding(c, o, m, held, session, output) && |held| + |more| <= CHUNK_BYTES
    ensures Holding(c, o, m + more, held + more, session, output)
  {
    HoldingIsCutting(c, o, m, held, session, output, more);
    CuttingIsHolding(c, o, CutUp(m).full, held + more, m + more, session, output);
  }

  lemma CuttingIsExhausted(c: Cipher, o: Origin, chunks: seq<Bytes>, rest: Bytes, m: Bytes, session: Session,
                           output: Bytes)
    requires Emitted(c, o, chunks, session, output) && Cutting(chunks, rest, m) && |rest| > CHUNK_BYTES
             && |chunks| == MAX_RECORDS
    ensures Exhausted(c, o, m, output)
  {
    CutResume(chunks, rest, m);
    assert CutUp(m).full[..MAX_RECORDS] == chunks;
  }

  lemma EmittedSnoc(c: Cipher, o: Origin, chunks: seq<Bytes>, session: Session, output: Bytes, chunk: Bytes)
    requires Emitted(c, o, chunks, session, output)
    ensures Emitted(c, o, chunks + [chunk], AfterChunk(c, session, Message),
                    output + RecordBytes(SealRecord(c, session, Message, chunk)))
  {
    var s := StartSession(c, o.key, o.header);
    var rs, r := ChunkRecords(c, s, chunks), SealRecord(c, session, Message, chunk);
    assert ChunkRecords(c, s, chunks + [chunk]) == rs + [r];
    RecordsBytesConcat(rs, [r]);
    assert RecordsBytes([r]) == RecordBytes(r) + RecordsBytes([]);
    PartialGrows(o.lead, FilePrefix(o.header), RecordsBytes(rs), RecordBytes(r));
  }

  lemma PartialGrows(lead: Bytes, prefix: Bytes, records: Bytes, record: Bytes)
    ensures lead + (prefix + (records + record)) == lead + (prefix + records) + record
  {
  }

  /** Seals one full chunk into `record` and writes it out: `sealChunk` of every binding. */
  method SealChunk(enc: FileEncryptor, chunk: Bytes, record: array<byte>, inner: Sink, ghost o: Origin,
                   ghost chunks: seq<Bytes>)
    returns (err: Option<WriteError>)
    requires |chunk| == CHUNK_BYTES && record.Length == MAX_RECORD_BYTES
    requires Emitted(enc.cipher, o, chunks, enc.session, inner.data)
    modifies enc, record, inner
    ensures err.None? ==> |chunks| < MAX_RECORDS && Emitted(enc.cipher, o, chunks + [chunk], enc.session, inner.data)
    ensures err.Some? ==> err == Some(Refused(CounterExhausted)) && |chunks| >= MAX_RECORDS
    ensures err.Some? ==> Emitted(enc.cipher, o, chunks, enc.session, inner.data)
  {
    EmittedSnoc(enc.cipher, o, chunks, enc.session, inner.data, chunk);
    var r := enc.Seal(Message, chunk, record);
    if r.Err? {
      return Some(Refused(r.error));
    }
    inner.Append(record[..]);
    assert record[..] == record[..r.value];
    return None;
  }

  lemma ChunkOff(held: Bytes, data: Bytes, pos: nat)
    requires held == [] && pos + CHUNK_BYTES <= |data|
    ensures held + data[pos..] == data[pos..pos + CHUNK_BYTES] + (held + data[pos + CHUNK_BYTES..])
  {
  }

  /** Seals full chunks of `data` from `start` on, as long as more than one chunk is left: the loop
      at the heart of every writer. What it leaves, after bytes already `held`, is to be held back. */
  method SealWhileLonger(enc: FileEncryptor, data: Bytes, start: nat, record: array<byte>, inner: Sink,
                         ghost o: Origin, ghost sealed: seq<Bytes>, ghost held: Bytes, ghost m: Bytes)
    returns (pos: nat, err: Option<WriteError>)
    requires start <= |data| && record.Length == MAX_RECORD_BYTES
    requires Emitted(enc.cipher, o, sealed, enc.session, inner.data) && |sealed| <= MAX_RECORDS
    requires Cutting(sealed, held + data[start..], m)
    requires held == [] || (start == |data| && |held| <= CHUNK_BYTES)
    modifies enc, record, inner
    ensures err.None? <==> |CutUp(m).full| <= MAX_RECORDS
    ensures err.None? ==>
            start <= pos <= |data| && Holding(enc.cipher, o, m, held + data[pos..], enc.session, inner.data)
    ensures err.Some? ==>
            err == Some(Refused(CounterExhausted)) && Exhausted(enc.cipher, o, m, inner.data) && pos < |data|
  {
    pos := start;
    ghost var chunks := sealed;
    while |data| - pos > CHUNK_BYTES
      invariant start <= pos <= |data| && Cutting(chunks, held + data[pos..], m)
      invariant Emitted(enc.cipher, o, chunks, enc.session, inner.data) && |chunks| <= MAX_RECORDS
    {
      var chunk := data[pos..pos + CHUNK_BYTES];
      ghost var rest := held + data[pos + CHUNK_BYTES..];
      ChunkOff(held, data, pos);
      err := SealChunk(enc, chunk, record, inner, o, chunks);
      if err.Some? {
        CuttingIsExhausted(enc.cipher, o, chunks, chunk + rest, m, enc.session, inner.data);
        return;
      }
      CuttingSnoc(chunks, chunk, rest, m);
      chunks := chunks + [chunk];
      pos := pos + CHUNK_BYTES;
    }
    CuttingIsHolding(enc.cipher, o, chunks, held + data[pos..], m, enc.session, inner.data);
    err := None;
  }

  /** The array-buffer writers, when `p` does not fit the held chunk: fills and seals that chunk,
      seals full chunks straight from `p`, and keeps the rest in `buffer`. */
  method SealOverflow(enc: FileEncryptor, buffer: array<byte>, bufferLen: nat, p: Bytes, record: array<byte>,
                      inner: Sink, ghost o: Origin, ghost before: Bytes)
    returns (pos: nat, newLen: nat, err: Option<WriteError>)
    requires buffer.Length == CHUNK_BYTES && record.Length == MAX_RECORD_BYTES && buffer != record
    requires bufferLen <= CHUNK_BYTES < bufferLen + |p|
    requires Holding(enc.cipher, o, before, buffer[..bufferLen], enc.session, inner.data)
    modifies enc, buffer, record, inner
    ensures newLen <= CHUNK_BYTES && (err.None? <==> |CutUp(before + p).full| <= MAX_RECORDS)
    ensures err.Some? ==> newLen == if |CutUp(before).full| < MAX_RECORDS then 0 else bufferLen
    ensures err.None? ==> Holding(enc.cipher, o, before + p, buffer[..newLen], enc.session, inner.data)
    ensures err.Some? ==>
            err == Some(Refused(CounterExhausted)) && Exhausted(enc.cipher, o, before + p, inner.data) && pos < |p|
  {
    ghost var chunks, m := CutUp(before).full, before + p;
    HoldingIsCutting(enc.cipher, o, before, buffer[..bufferLen], enc.session, inner.data, p);
    pos, newLen := 0, bufferLen;
    if bufferLen > 0 {
      pos, err, chunks := FillAndSeal(enc, buffer, bufferLen, p, record, inner, o, chunks, m);
      if err.Some? {
        return;
      }
      newLen := 0;
    } else {
      assert buffer[..bufferLen] + p == p[pos..];
    }
    assert [] + p[pos..] == p[pos..];
    pos, err := SealWhileLonger(enc, p, pos, record, inner, o, chunks, [], m);
    if err.Some? {
      return;
    }
    assert [] + p[pos..] == p[pos..];
    CutIsUnique(CutUp(m).full, CutUp(m).last, m);
    CopyInto(buffer, 0, p[pos..]);
    newLen := |p| - pos;
    assert buffer[..newLen] == p[pos..];
  }

  method FillAndSeal(enc: FileEncryptor, buffer: array<byte>, bufferLen: nat, p: Bytes, record: array<byte>,
                     inner: Sink, ghost o: Origin, ghost sealed: seq<Bytes>, ghost m: Bytes)
    returns (taken: nat, err: Option<WriteError>, ghost chunks: seq<Bytes>)
    requires buffer.Length == CHUNK_BYTES && record.Length == MAX_RECORD_BYTES && buffer != record
    requires bufferLen <= CHUNK_BYTES < bufferLen + |p|
    requires Emitted(enc.cipher, o, sealed, enc.session, inner.data) && |sealed| <= MAX_RECORDS
    requires Cutting(sealed, buffer[..bufferLen] + p, m)
    modifies enc, buffer, record, inner
    ensures taken < |p| && (err.None? <==> |sealed| < MAX_RECORDS)
    ensures err.None? ==>
            Emitted(enc.cipher, o, chunks, enc.session, inner.data) && |chunks| <= MAX_RECORDS
              && Cutting(chunks, p[taken..], m)
    ensures err.Some? ==> err == Some(Refused(CounterExhausted)) && Exhausted(enc.cipher, o, m, inner.data)
  {
    ghost var all := buffer[..bufferLen] + p;
    taken := CHUNK_BYTES - bufferLen;
    CopyInto(buffer, bufferLen, p[..taken]);
    assert buffer[..] + p[taken..] == all;
    err := SealChunk(enc, buffer[..], record, inner, o, sealed);
    if err.Some? {
      CuttingIsExhausted(enc.cipher, o, sealed, all, m, enc.session, inner.data);
    } else {
      CuttingSnoc(sealed, buffer[..], p[taken..], m);
    }
    chunks := sealed + [buffer[..]];
  }

  /** Seals everything held back as the `Final` record and writes it out. */
  method SealFinal(enc: FileEncryptor, last: Bytes, record: array<byte>, inner: Sink, ghost o: Origin, ghost m: Bytes)
    returns (err: Option<WriteError>)
    requires record.Length == MAX_RECORD_BYTES
    requires Holding(enc.cipher, o, m, last, enc.session, inner.data)
    modifies enc, record, inner
    ensures err.None? <==> RecordCount(m) <= MAX_RECORDS
    ensures err.None? ==> inner.data == o.Finished(enc.cipher, m)
    ensures err.Some? ==>
            err == Some(Refused(CounterExhausted)) && Holding(enc.cipher, o, m, last, enc.session, inner.data)
  {
    CutIsUnique(CutUp(m).full, CutUp(m).last, m);
    ghost var before, last' := inner.data, RecordBytes(SealRecord(enc.cipher, enc.session, Final, last));
    var r := enc.Seal(Final, last, record);
    if r.Err? {
      return Some(Refused(r.error));
    }
    inner.Append(record[..r.value]);
    ghost var records := RecordsBytes(WrittenTranscript(enc.cipher, o.key, o.header, CutUp(m)).chunks);
    assert inner.data == before + last' && before == o.lead + (FilePrefix(o.header) + records);
    PartialGrows(o.lead, FilePrefix(o.header), records, last');
    WireSplit(WrittenTranscript(enc.cipher, o.key, o.header, CutUp(m)));
    return None;
  }

  // ----- Go: an array buffer, full chunks sealed straight from the argument

  class GoWriter {
    const inner: Sink
    const enc: FileEncryptor
    const buffer: array<byte>
    const record: array<byte>
    var bufferLen: nat
    var completed: bool
    ghost const origin: Origin
    ghost var written: Bytes

    ghost predicate Valid()
      reads this, enc, inner, buffer
    {
      && buffer.Length == CHUNK_BYTES && record.Length == MAX_RECORD_BYTES && buffer != record
      && bufferLen <= CHUNK_BYTES
      && (!completed ==> Holding(enc.cipher, origin, written, buffer[..bufferLen], enc.session, inner.data))
      && (completed ==> inner.data == origin.Finished(enc.cipher, written))
    }

    constructor (inner: Sink, enc: FileEncryptor, prefix: Bytes, ghost origin: Origin)
      requires inner.data == [] && prefix == origin.Prefix()
      requires enc.session == StartSession(enc.cipher, origin.key, origin.header)
      modifies inner
      ensures Valid() && !completed && written == []
      ensures this.inner == inner && this.enc == enc && this.origin == origin && fresh(buffer) && fresh(record)
    {
      this.inner, this.enc := inner, enc;
      buffer, record := new byte[CHUNK_BYTES], new byte[MAX_RECORD_BYTES];
      bufferLen, completed := 0, false;
      this.origin, written := origin, [];
      new;
      inner.Append(prefix);
      StartIsHolding(enc.cipher, origin, enc.session, inner.data);
    }

    method Write(p: Bytes) returns (n: nat, err: Option<WriteError>)
      requires Valid()
      modifies this, enc, inner, buffer, record
      ensures old(completed) ==>
              n == 0 && err == Some(AlreadyCompleted) && Valid() && completed && written == old(written)
                && inner.data == old(inner.data)
      ensures !old(completed) ==> (err.None? <==> |CutUp(old(written) + p).full| <= MAX_RECORDS) && !completed
      ensures err.None? ==> n == |p| && Valid() && written == old(written) + p
      ensures !old(completed) && err.Some? ==> Exhausted(enc.cipher, origin, old(written) + p, inner.data) && n < |p|
    {
      if completed {
        return 0, Some(AlreadyCompleted);
      }
      ghost var held, m := buffer[..bufferLen], written + p;
      if bufferLen + |p| <= CHUNK_BYTES {
        CopyInto(buffer, bufferLen, p);
        bufferLen := bufferLen + |p|;
        assert buffer[..bufferLen] == held + p;
        written := m;
        HeldFits(enc.cipher, origin, old(written), held, enc.session, inner.data, p);
        return |p|, None;
      }
      n, bufferLen, err := SealOverflow(enc, buffer, bufferLen, p, record, inner, origin, written);
      if err.None? {
        n := |p|;
        written := m;
      }
    }

    method Complete() returns (err: Option<WriteError>)
      requires Valid()
      modifies this, enc, inner, record
      ensures Valid() && written == old(written)
      ensures old(completed) ==> err.None? && completed && inner.data == old(inner.data)
      ensures !old(completed) ==> (err.None? <==> RecordCount(written) <= MAX_RECORDS) && completed == err.None?
    {
      if completed {
        return None;
      }
      err := SealFinal(enc, buffer[..bufferLen], record, inner, origin, written);
      if err.None? {
        bufferLen := 0;
        completed := true;
      }
    }
  }

  // ----- C#: the same buffer, over a range of the caller's array, with 32-bit lengths

  const INT32_MAX: int := 0x7FFF_FFFF
  /** The longest byte array the runtime allocates. */
  const MAX_ARRAY_LENGTH: int := 0x7FFF_FFC7

  type int32 = x: int | -0x8000_0000 <= x <= INT32_MAX

  /** Unchecked 32-bit addition wraps around. */
  function Add32(a: int32, b: int32): int32 {
    (a + b + 0x8000_0000) % 0x1_0000_0000 - 0x8000_0000
  }

  class CsWriter {
    const inner: Sink
    const enc: FileEncryptor
    const buffer: array<byte>
    const record: array<byte>
    var bufferLen: nat
    var completed: bool
    ghost const origin: Origin
    ghost var written: Bytes

    ghost predicate Valid()
      reads this, enc, inner, buffer
    {
      && buffer.Length == CHUNK_BYTES && record.Length == MAX_RECORD_BYTES && buffer != record
      && bufferLen <= CHUNK_BYTES
      && (!completed ==> Holding(enc.cipher, origin, written, buffer[..bufferLen], enc.session, inner.data))
      && (completed ==> inner.data == origin.Finished(enc.cipher, written))
    }

    constructor (inner: Sink, enc: FileEncryptor, prefix: Bytes, ghost origin: Origin)
      requires inner.data == [] && prefix == origin.Prefix()
      requires enc.session == StartSession(enc.cipher, origin.key, origin.header)
      modifies inner
      ensures Valid() && !completed && written == []
      ensures this.inner == inner && this.enc == enc && this.origin == origin && fresh(buffer) && fresh(record)
    {
      this.inner, this.enc := inner, enc;
      buffer, record := new byte[CHUNK_BYTES], new byte[MAX_RECORD_BYTES];
      bufferLen, completed := 0, false;
      this.origin, written := origin, [];
      new;
      inner.Append(prefix);
      StartIsHolding(enc.cipher, origin, enc.session, inner.data);
    }

    /** A range outside the array is refused; so is one so long that the 32-bit sum of the held and
        the new length wraps, because the wrapped sum takes the branch that copies everything. */
    method Write(data: array<byte>, offset: int32, count: int32) returns (err: Option<WriteError>)
      requires Valid() && data != buffer && data != record && data.Length <= MAX_ARRAY_LENGTH
      modifies this, enc, inner, buffer, record
      ensures var inRange := 0 <= offset && 0 <= count <= data.Length - offset;
              var open := inRange && !old(completed);
              var fits := open && old(bufferLen) + count <= INT32_MAX;
              && (err == Some(BadArgument) <==> !inRange || (open && !fits))
              && (err == Some(AlreadyCompleted) <==> inRange && old(completed))
              && (err.None? <==> fits && |CutUp(old(written) + data[offset..offset + count]).full| <= MAX_RECORDS)
              && (err.None? ==> Valid() && written == old(written) + data[offset..offset + count] && !completed)
              && (err.Some? && !fits ==>
                  Valid() && written == old(written) && completed == old(completed) && inner.data == old(inner.data))
              && (err.Some? && fits ==>
                  Exhausted(enc.cipher, origin, old(written) + data[offset..offset + count], inner.data) && !completed)
    {
      if offset < 0 || count < 0 || count > data.Length - offset {
        return Some(BadArgument);
      }
      if completed {
        return Some(AlreadyCompleted);
      }
      err := WriteRange(data[offset..offset + count]);
    }

    /** The rest of `Write`, once the range is known to be one. */
    method WriteRange(p: Bytes) returns (err: Option<WriteError>)
      requires Valid() && !completed && |p| <= MAX_ARRAY_LENGTH
      modifies this, enc, inner, buffer, record
      ensures !completed && (err == Some(BadArgument) <==> old(bufferLen) + |p| > INT32_MAX)
      ensures err == Some(BadArgument) ==> Valid() && written == old(written) && inner.data == old(inner.data)
      ensures err != Some(BadArgument) ==> (err.None? <==> |CutUp(old(written) + p).full| <= MAX_RECORDS)
      ensures err.None? ==> Valid() && written == old(written) + p
      ensures err.Some? && err != Some(BadArgument) ==>
                err == Some(Refused(CounterExhausted)) && Exhausted(enc.cipher, origin, old(written) + p, inner.data)
    {
      ghost var held, m := buffer[..bufferLen], written + p;
      WriteWrapsExactlyBeyondInt32(bufferLen, |p|);
      if Add32(bufferLen, |p|) <= CHUNK_BYTES {
        if |p| > buffer.Length - bufferLen {
          return Some(BadArgument);
        }
        CopyInto(buffer, bufferLen, p);
        bufferLen := bufferLen + |p|;
        assert buffer[..bufferLen] == held + p;
        written := m;
        HeldFits(enc.cipher, origin, old(written), held, enc.session, inner.data, p);
        return None;
      }
      var used;
      used, bufferLen, err := SealOverflow(enc, buffer, bufferLen, p, record, inner, origin, written);
      if err.None? {
        written := m;
      }
    }

    method Complete() returns (err: Option<WriteError>)
      requires Valid()
      modifies this, enc, inner, record
      ensures Valid() && written == old(written)
      ensures old(completed) ==> err.None? && completed && inner.data == old(inner.data)
      ensures !old(completed) ==> (err.None? <==> RecordCount(written) <= MAX_RECORDS) && completed == err.None?
    {
      if completed {
        return None;
      }
      err := SealFinal(enc, buffer[..bufferLen], record, inner, origin, written);
      if err.None? {
        bufferLen := 0;
        completed := true;
      }
    }
  }

  /** The wrap is reachable: it is met exactly by the sums beyond `INT32_MAX`, and the longest array
      reaches that with any 57 bytes already held. */
  lemma WriteWrapsExactlyBeyondInt32(held: int32, count: int32)
    requires 0 <= held <= CHUNK_BYTES && 0 <= count <= MAX_ARRAY_LENGTH
    ensures Add32(held, count) <= CHUNK_BYTES < held + count <==> held + count > INT32_MAX
    ensures count == MAX_ARRAY_LENGTH ==> (held + count > INT32_MAX <==> held >= 57)
  {
  }

  /** And so it happens: 57 bytes, then the longest array there is. */
  method WriteTheLongestArray(c: Cipher, o: Origin) returns (err: Option<WriteError>)
    ensures err == Some(BadArgument)
  {
    var inner := new Sink();
    var enc := new FileEncryptor(c, o.key, o.header);
    var w := new CsWriter(inner, enc, o.Prefix(), o);
    var few, many := new byte[57], new byte[MAX_ARRAY_LENGTH];
    assert |[] + few[0..57]| == 57;
    err := w.Write(few, 0, 57);
    assert CutUp(w.written).last == w.written;
    err := w.Write(many, 0, MAX_ARRAY_LENGTH);
  }

  // ----- JavaScript: concatenate, then slice

  class JsWriter {
    const enc: FileEncryptor
    const pushed: Sink
    var buf: Bytes
    ghost var flushed: bool
    ghost const origin: Origin
    ghost var written: Bytes

    ghost predicate Valid()
      reads this, enc, pushed
    {
      && (!flushed ==> Holding(enc.cipher, origin, written, buf, enc.session, pushed.data))
      && (flushed ==> pushed.data == origin.Finished(enc.cipher, written))
    }

    constructor (enc: FileEncryptor, pushed: Sink, prefix: Bytes, ghost origin: Origin)
      requires pushed.data == [] && prefix == origin.Prefix()
      requires enc.session == StartSession(enc.cipher, origin.key, origin.header)
      modifies pushed
      ensures Valid() && !flushed && written == []
      ensures this.pushed == pushed && this.enc == enc && this.origin == origin
    {
      this.enc, this.pushed, buf := enc, pushed, [];
      this.origin, written, flushed := origin, [], false;
      new;
      pushed.Append(prefix);
      StartIsHolding(enc.cipher, origin, enc.session, pushed.data);
    }

    /** The stream machinery calls this any number of times, and then `Flush` at most once. */
    method Transform(chunk: Bytes) returns (err: Option<WriteError>)
      requires Valid() && !flushed
      modifies this, enc, pushed
      ensures err.None? <==> |CutUp(old(written) + chunk).full| <= MAX_RECORDS
      ensures err.None? ==> Valid() && !flushed && written == old(written) + chunk
      ensures err.Some? ==> Exhausted(enc.cipher, origin, old(written) + chunk, pushed.data)
    {
      ghost var chunks, m := CutUp(written).full, written + chunk;
      HoldingIsCutting(enc.cipher, origin, written, buf, enc.session, pushed.data, chunk);
      buf := buf + chunk;
      var record := new byte[MAX_RECORD_BYTES];
      assert [] + buf[0..] == buf;
      var pos;
      pos, err := SealWhileLonger(enc, buf, 0, record, pushed, origin, chunks, [], m);
      if err.None? {
        assert [] + buf[pos..] == buf[pos..];
        buf := buf[pos..];
        written := m;
      }
    }

    method Flush() returns (err: Option<WriteError>)
      requires Valid() && !flushed
      modifies this, enc, pushed
      ensures Valid() && written == old(written)
      ensures (err.None? <==> RecordCount(written) <= MAX_RECORDS) && flushed == err.None?
    {
      var record := new byte[MAX_RECORD_BYTES];
      err := SealFinal(enc, buf, record, pushed, origin, written);
      if err.None? {
        buf := [];
        flushed := true;
      }
    }
  }

  // ----- PHP: top the held chunk up, then cut by offset

  class PhpWriter {
    const enc: FileEncryptor
    const out: Sink
    var buf: Bytes
    var closed: bool
    ghost const origin: Origin
    ghost var written: Bytes

    ghost predicate Valid()
      reads this, enc, out
    {
      && (!closed ==> Holding(enc.cipher, origin, written, buf, enc.session, out.data))
      && (closed ==> out.data == origin.Finished(enc.cipher, written))
    }

    constructor (enc: FileEncryptor, out: Sink, prefix: Bytes, ghost origin: Origin)
      requires out.data == [] && prefix == origin.Prefix()
      requires enc.session == StartSession(enc.cipher, origin.key, origin.header)
      modifies out
      ensures Valid() && !closed && written == []
      ensures this.out == out && this.enc == enc && this.origin == origin
    {
      this.enc, this.out, buf, closed := enc, out, [], false;
      this.origin, written := origin, [];
      new;
      out.Append(prefix);
      StartIsHolding(enc.cipher, origin, enc.session, out.data);
    }

    method Write(data: Bytes) returns (size: nat, err: Option<WriteError>)
      requires Valid()
      modifies this, enc, out
      ensures old(closed) ==>
              err == Some(AlreadyCompleted) && Valid() && closed && written == old(written) && out.data == old(out.data)
      ensures !old(closed) ==> (err.None? <==> |CutUp(old(written) + data).full| <= MAX_RECORDS) && !closed
      ensures err.None? ==> size == |data| && Valid() && written == old(written) + data
      ensures !old(closed) && err.Some? ==> Exhausted(enc.cipher, origin, old(written) + data, out.data)
    {
      size := |data|;
      if closed {
        return size, Some(AlreadyCompleted);
      }
      var record := new byte[MAX_RECORD_BYTES];
      ghost var m := written + data;
      ghost var chunks;
      var pos;
      pos, err, chunks := TopUpBuffer(data, record);
      if err.Some? {
        return;
      }
      pos, err := SealWhileLonger(enc, data, pos, record, out, origin, chunks, buf, m);
      if err.Some? {
        return;
      }
      buf := buf + data[pos..];
      written := m;
    }

    /** Adds `data` to the held chunk if it all fits; otherwise fills that chunk and seals it. */
    method TopUpBuffer(data: Bytes, record: array<byte>)
      returns (pos: nat, err: Option<WriteError>, ghost chunks: seq<Bytes>)
      requires Valid() && !closed && record.Length == MAX_RECORD_BYTES
      modifies this`buf, enc, out, record
      ensures err.Some? ==> Exhausted(enc.cipher, origin, written + data, out.data)
      ensures err.None? ==> pos <= |data| && (buf == [] || (pos == |data| && |buf| <= CHUNK_BYTES))
      ensures err.None? ==> Emitted(enc.cipher, origin, chunks, enc.session, out.data) && |chunks| <= MAX_RECORDS
      ensures err.None? ==> Cutting(chunks, buf + data[pos..], written + data)
    {
      chunks := CutUp(written).full;
      ghost var m := written + data;
      HoldingIsCutting(enc.cipher, origin, written, buf, enc.session, out.data, data);
      if buf == [] {
        assert data[0..] == data;
        return 0, None, chunks;
      }
      if |buf| + |data| <= CHUNK_BYTES {
        buf := buf + data;
        assert buf + data[|data|..] == buf;
        return |data|, None, chunks;
      }
      pos := CHUNK_BYTES - |buf|;
      var chunk := buf + data[..pos];
      assert chunk + data[pos..] == buf + data;
      err := SealChunk(enc, chunk, record, out, origin, chunks);
      if err.Some? {
        CuttingIsExhausted(enc.cipher, origin, chunks, buf + data, m, enc.session, out.data);
        return;
      }
      CuttingSnoc(chunks, chunk, data[pos..], m);
      chunks := chunks + [chunk];
      buf := [];
      assert buf + data[pos..] == data[pos..];
    }

    method Close() returns (err: Option<WriteError>)
      requires Valid()
      modifies this, enc, out
      ensures Valid() && written == old(written)
      ensures old(closed) ==> err.None? && closed && out.data == old(out.data)
      ensures !old(closed) ==> (err.None? <==> RecordCount(written) <= MAX_RECORDS) && closed == err.None?
    {
      if closed {
        return None;
      }
      var record := new byte[MAX_RECORD_BYTES];
      err := SealFinal(enc, buf, record, out, origin, written);
      if err.None? {
        buf := [];
        closed := true;
      }
    }
  }
}
