/** Every verdict of the codec, stated on the bytes of the input and on the cipher's own functions:
    literal positions, literal tags, literal lengths. Nothing here goes through the codec's steps, its
    states or its sessions; `VerdictIsExact` says that the reading contract comes to exactly this. */
module Verdicts {
  import opened Bytes
  import opened Secretstream
  import opened Codec
  import opened Framing

  /** The subkey of the record after the first `n`: a new one after every record tagged 2. */
  function SubkeyAfter(c: Cipher, first: Bytes, rs: seq<Record>, n: nat): Bytes
    requires n <= |rs|
  {
    if n == 0 then first
    else
      var subkey := SubkeyAfter(c, first, rs, n - 1);
      if rs[n - 1].tagByte == 2 then c.rekey(subkey) else subkey
  }

  /** Record `i` is a full chunk, not the last one, and decrypts to `p` in its place. */
  ghost predicate DecryptsTo(c: Cipher, first: Bytes, rs: seq<Record>, i: nat, p: Bytes)
    requires i < |rs|
  {
    && rs[i].tagByte < 3 && |rs[i].ciphertext| == 8192 && |rs[i].authTag| == 16 && i < 0xFFFF_FFFF_FFFF_FFFF
    && c.decrypt(SubkeyAfter(c, first, rs, i), i, rs[i].tagByte, rs[i].ciphertext, rs[i].authTag) == Some(p)
  }

  ghost predicate Decrypts(c: Cipher, first: Bytes, rs: seq<Record>, ps: seq<Bytes>) {
    |rs| == |ps| && forall i :: 0 <= i < |rs| ==> DecryptsTo(c, first, rs, i, ps[i])
  }

  /** The length a record head declares, low byte first. */
  function Declared(head: Bytes): nat
    requires |head| >= 5
  {
    head[1] as int + 0x100 * head[2] as int + 0x1_0000 * head[3] as int + 0x100_0000 * head[4] as int
  }

  /** What `tail` comes to as record `i` under `subkey`: an error, or the last chunk. */
  ghost predicate TailGives(c: Cipher, subkey: Bytes, i: nat, tail: Bytes, verdict: Result<Bytes, FileError>) {
    if |tail| < 5 then verdict == Err(Truncated)
    else
      var tag, n := tail[0], Declared(tail);
      if n > 8192 then verdict == Err(ChunkTooLarge(n))
      else if tag > 3 then verdict == Err(UnknownTag)
      else if tag < 3 && n != 8192 then verdict == Err(BadChunkLength(n))
      else if |tail| < 21 + n then verdict == Err(Truncated)
      else if i >= 0xFFFF_FFFF_FFFF_FFFF then verdict == Err(CounterExhausted)
      else BodyGives(c.decrypt(subkey, i, tag, tail[5..5 + n], tail[5 + n..21 + n]), tag, |tail| - (21 + n), verdict)
  }

  /** What a whole record comes to, by what its decryption gave and how many bytes follow it. */
  predicate BodyGives(plain: Option<Bytes>, tag: byte, after: nat, verdict: Result<Bytes, FileError>) {
    if plain.None? then verdict == Err(Auth)
    else tag == 3 && verdict == if after == 0 then Ok(plain.value) else Err(TrailingData)
  }

  /** The input starts with records that decrypt to `ps`; `tail` follows. */
  ghost predicate StartsWithRecords(c: Cipher, key: Bytes, input: Bytes, header: Bytes, rs: seq<Record>,
                                    ps: seq<Bytes>, tail: Bytes) {
    |header| == 32 && input == [2] + header + (RecordsBytes(rs) + tail) && Decrypts(c, c.subkey(key, header), rs, ps)
  }

  /** What an input comes to. */
  ghost predicate Comes(c: Cipher, key: Bytes, input: Bytes, o: Outcome) {
    if input == [] then o == Outcome([], Err(Truncated))
    else if input[0] != 2 then o == Outcome([], Err(UnsupportedVersion(input[0])))
    else if |input| < 33 then o == Outcome([], Err(Truncated))
    else exists header, rs, tail ::
           && StartsWithRecords(c, key, input, header, rs, o.fed, tail)
           && TailGives(c, SubkeyAfter(c, c.subkey(key, header), rs, |rs|), |rs|, tail, o.verdict)
  }

  // ----- one record after the other

  lemma {:induction false} SubkeyOfFront(c: Cipher, first: Bytes, rs: seq<Record>, more: seq<Record>, n: nat)
    requires n <= |rs|
    ensures SubkeyAfter(c, first, rs + more, n) == SubkeyAfter(c, first, rs, n)
    decreases n
  {
    if n > 0 {
      SubkeyOfFront(c, first, rs, more, n - 1);
    }
  }

  lemma DecryptsSnoc(c: Cipher, first: Bytes, rs: seq<Record>, ps: seq<Bytes>, r: Record, p: Bytes)
    requires Decrypts(c, first, rs, ps) && DecryptsTo(c, first, rs + [r], |rs|, p)
    ensures Decrypts(c, first, rs + [r], ps + [p])
  {
    forall i | 0 <= i < |rs|
      ensures DecryptsTo(c, first, rs + [r], i, ps[i])
    {
      assert DecryptsTo(c, first, rs, i, ps[i]);
      SubkeyOfFront(c, first, rs, [r], i);
    }
  }

  /** The session the codec is in after `n` of the records. */
  function SessionAt(c: Cipher, first: Bytes, rs: seq<Record>, n: nat): Session
    requires n <= |rs|
  {
    Session(SubkeyAfter(c, first, rs, n), n, false)
  }

  lemma PullDecrypted(c: Cipher, first: Bytes, rs: seq<Record>, i: nat, p: Bytes)
    requires i < |rs| && DecryptsTo(c, first, rs, i, p)
    ensures PullChunk(c, SessionAt(c, first, rs, i), rs[i].tagByte, rs[i].ciphertext, rs[i].authTag)
         == Ok((SessionAt(c, first, rs, i + 1), p))
  {
  }

  lemma RecordsSnoc(front: seq<Record>, r: Record)
    ensures RecordsBytes(front + [r]) == RecordsBytes(front) + RecordBytes(r)
  {
    RecordsBytesConcat(front, [r]);
    assert RecordsBytes([r]) == RecordBytes(r) + RecordsBytes([]);
  }

  lemma RecordsLast(front: seq<Record>, r: Record, tail: Bytes)
    ensures RecordsBytes(front + [r]) + tail == RecordsBytes(front) + (RecordBytes(r) + tail)
  {
    RecordsSnoc(front, r);
    Regroup(RecordsBytes(front), RecordBytes(r), tail);
  }

  lemma Regroup(x: Bytes, y: Bytes, z: Bytes)
    ensures x + y + z == x + (y + z)
  {
  }

  /** Records that decrypt one by one also open one after another. */
  lemma {:induction false} OpenDecrypted(c: Cipher, first: Bytes, rs: seq<Record>, ps: seq<Bytes>, k: nat)
    requires Decrypts(c, first, rs, ps) && k <= |rs|
    ensures OpenChunks(c, SessionAt(c, first, rs, k), rs[k..]) == Some((SessionAt(c, first, rs, |rs|), ps[k..]))
    decreases |rs| - k
  {
    if k < |rs| {
      OpenDecrypted(c, first, rs, ps, k + 1);
      assert DecryptsTo(c, first, rs, k, ps[k]);
      PullDecrypted(c, first, rs, k, ps[k]);
      assert rs[k..][0] == rs[k] && rs[k..][1..] == rs[k + 1..];
      OpenChunksCons(c, SessionAt(c, first, rs, k), rs[k..], SessionAt(c, first, rs, k + 1), ps[k],
                     SessionAt(c, first, rs, |rs|), ps[k + 1..]);
      assert [ps[k]] + ps[k + 1..] == ps[k..];
    } else {
      assert rs[k..] == [] && ps[k..] == [];
    }
  }

  lemma OpenChunksCons(c: Cipher, s: Session, rs: seq<Record>, s1: Session, p: Bytes, s2: Session, ps: seq<Bytes>)
    requires rs != [] && PullChunk(c, s, rs[0].tagByte, rs[0].ciphertext, rs[0].authTag) == Ok((s1, p))
    requires OpenChunks(c, s1, rs[1..]) == Some((s2, ps))
    ensures OpenChunks(c, s, rs) == Some((s2, [p] + ps))
  {
  }

  /** The codec gets through records that decrypt, and releases their plaintexts. */
  lemma RunDecrypted(c: Cipher, d: Decoder, first: Bytes, rs: seq<Record>, ps: seq<Bytes>, input: Bytes, tail: Bytes)
    requires AtHead(d, Session(first, 0, false)) && Decrypts(c, first, rs, ps) && input == RecordsBytes(rs) + tail
    ensures Run(c, d, input) == Joined(ps, Run(c, d.(session := Some(SessionAt(c, first, rs, |rs|))), tail))
  {
    OpenDecrypted(c, first, rs, ps, 0);
    assert rs[0..] == rs && ps[0..] == ps;
    forall i | 0 <= i < |rs|
      ensures ChunkShape(rs[i])
    {
      assert DecryptsTo(c, first, rs, i, ps[i]);
    }
    RunChunks(c, d, SessionAt(c, first, rs, 0), rs, SessionAt(c, first, rs, |rs|), ps, input, tail);
  }

  // ----- where it stops

  lemma HeadFields(tail: Bytes)
    requires |tail| >= 5
    ensures tail[..5][0] == tail[0] && FromU32Le(tail[..5][1..5]) == Declared(tail)
  {
    assert tail[..5][1..5] == [tail[1], tail[2], tail[3], tail[4]];
  }

  lemma RunBadHead(c: Cipher, d: Decoder, s: Session, tail: Bytes, e: FileError)
    requires AtHead(d, s) && |tail| >= 5
    requires var tag, n := tail[0], Declared(tail);
             || (n > 8192 && e == ChunkTooLarge(n)) || (n <= 8192 && tag > 3 && e == UnknownTag)
             || (n < 8192 && tag < 3 && e == BadChunkLength(n))
    ensures Run(c, d, tail) == Outcome([], Err(e))
  {
    HeadFields(tail);
  }

  lemma RunGoodHead(c: Cipher, d: Decoder, s: Session, tail: Bytes)
    requires AtHead(d, s) && |tail| >= 5 && Declared(tail) <= 8192 && tail[0] <= 3
    requires tail[0] == 3 || Declared(tail) == 8192
    ensures Run(c, d, tail) == Run(c, d.(state := AtRecordBody(tail[0], Declared(tail))), tail[5..])
  {
    HeadFields(tail);
  }

  lemma RunBody(c: Cipher, d: Decoder, s: Session, tag: byte, n: nat, body: Bytes, verdict: Result<Bytes, FileError>)
    requires d.state == AtRecordBody(tag, n) && d.session == Some(s) && !s.finalized && tag <= 3 && n <= 8192
    requires |body| >= n + 16 && s.counter < MAX_RECORDS
    requires BodyGives(c.decrypt(s.subkey, s.counter, tag, body[..n], body[n..n + 16]), tag, |body| - (n + 16), verdict)
    ensures Run(c, d, body) == Outcome([], verdict)
  {
    var want := n + 16;
    assert body[..want][..n] == body[..n] && body[..want][n..] == body[n..want];
  }

  lemma RunStoppedBody(c: Cipher, d: Decoder, s: Session, tag: byte, n: nat, body: Bytes)
    requires d.state == AtRecordBody(tag, n) && d.session == Some(s) && !s.finalized && tag <= 3 && n <= 8192
    ensures |body| < n + 16 ==> Run(c, d, body) == Outcome([], Err(Truncated))
    ensures |body| >= n + 16 && s.counter >= MAX_RECORDS ==> Run(c, d, body) == Outcome([], Err(CounterExhausted))
  {
  }

  lemma TailSlices(tail: Bytes, n: nat)
    requires |tail| >= 21 + n
    ensures tail[5..][..n] == tail[5..5 + n] && tail[5..][n..n + 16] == tail[5 + n..21 + n]
  {
  }

  lemma RunTail(c: Cipher, d: Decoder, s: Session, tail: Bytes, verdict: Result<Bytes, FileError>)
    requires AtHead(d, s) && !s.finalized && TailGives(c, s.subkey, s.counter, tail, verdict)
    ensures Run(c, d, tail) == Outcome([], verdict)
  {
    if |tail| >= 5 {
      var tag, n := tail[0], Declared(tail);
      if n > 8192 || tag > 3 || (tag < 3 && n != 8192) {
        RunBadHead(c, d, s, tail, verdict.error);
      } else {
        var body := d.(state := AtRecordBody(tag, n));
        RunGoodHead(c, d, s, tail);
        if |tail| < 21 + n || s.counter >= MAX_RECORDS {
          RunStoppedBody(c, body, s, tag, n, tail[5..]);
        } else {
          TailSlices(tail, n);
          RunBody(c, body, s, tag, n, tail[5..], verdict);
        }
      }
    }
  }

  /** The tail goes on with a record that decrypts. */
  ghost predicate GoesOn(c: Cipher, first: Bytes, rs: seq<Record>, tail: Bytes) {
    && |tail| >= 8213 && tail[0] < 3 && Declared(tail) == 8192 && |rs| < 0xFFFF_FFFF_FFFF_FFFF
    && c.decrypt(SubkeyAfter(c, first, rs, |rs|), |rs|, tail[0], tail[5..8197], tail[8197..8213]).Some?
  }

  lemma TailStopsOrGoesOn(c: Cipher, first: Bytes, rs: seq<Record>, tail: Bytes)
    returns (verdict: Result<Bytes, FileError>)
    requires !GoesOn(c, first, rs, tail)
    ensures TailGives(c, SubkeyAfter(c, first, rs, |rs|), |rs|, tail, verdict)
  {
    verdict := Err(Truncated);
    if |tail| >= 5 {
      var tag, n := tail[0], Declared(tail);
      if n > 8192 {
        verdict := Err(ChunkTooLarge(n));
      } else if tag > 3 {
        verdict := Err(UnknownTag);
      } else if tag < 3 && n != 8192 {
        verdict := Err(BadChunkLength(n));
      } else if |tail| >= 21 + n {
        verdict := Err(CounterExhausted);
        if |rs| < 0xFFFF_FFFF_FFFF_FFFF {
          var p := c.decrypt(SubkeyAfter(c, first, rs, |rs|), |rs|, tag, tail[5..5 + n], tail[5 + n..21 + n]);
          verdict := if p.None? then Err(Auth) else if |tail| == 21 + n then Ok(p.value) else Err(TrailingData);
        }
      }
    }
  }

  lemma NextRecord(c: Cipher, first: Bytes, rs: seq<Record>, tail: Bytes) returns (r: Record, p: Bytes)
    requires GoesOn(c, first, rs, tail)
    ensures tail[..8213] == RecordBytes(r) && DecryptsTo(c, first, rs + [r], |rs|, p)
  {
    r := Record(tail[0], tail[5..8197], tail[8197..8213]);
    p := c.decrypt(SubkeyAfter(c, first, rs, |rs|), |rs|, tail[0], tail[5..8197], tail[8197..8213]).value;
    SubkeyOfFront(c, first, rs, [r], |rs|);
    HeadFields(tail);
    assert tail[1..5] == tail[..5][1..5];
    U32LeBijection(8192, tail[1..5]);
    assert tail[..8213] == [tail[0]] + tail[1..5] + r.ciphertext + r.authTag;
  }

  lemma MoveRecord(rs: seq<Record>, r: Record, tail: Bytes, rest: Bytes)
    requires tail == RecordBytes(r) + rest
    ensures RecordsBytes(rs) + tail == RecordsBytes(rs + [r]) + rest
  {
    RecordsLast(rs, r, rest);
  }

  /** Every input can be read up to where it stops. */
  lemma {:induction false} ReadOn(c: Cipher, first: Bytes, rs: seq<Record>, ps: seq<Bytes>, tail: Bytes)
    returns (rs': seq<Record>, ps': seq<Bytes>, tail': Bytes, verdict: Result<Bytes, FileError>)
    requires Decrypts(c, first, rs, ps)
    ensures RecordsBytes(rs) + tail == RecordsBytes(rs') + tail' && Decrypts(c, first, rs', ps')
    ensures TailGives(c, SubkeyAfter(c, first, rs', |rs'|), |rs'|, tail', verdict)
    decreases |tail|
  {
    if GoesOn(c, first, rs, tail) {
      var r, p := NextRecord(c, first, rs, tail);
      DecryptsSnoc(c, first, rs, ps, r, p);
      assert tail == tail[..8213] + tail[8213..];
      MoveRecord(rs, r, tail, tail[8213..]);
      rs', ps', tail', verdict := ReadOn(c, first, rs + [r], ps + [p], tail[8213..]);
    } else {
      rs', ps', tail' := rs, ps, tail;
      verdict := TailStopsOrGoesOn(c, first, rs, tail);
    }
  }

  lemma RunShort(c: Cipher, key: Bytes, input: Bytes)
    ensures input == [] ==> Run(c, NewDecoder(key), input) == Outcome([], Err(Truncated))
    ensures input != [] && input[0] != 2 ==>
            Run(c, NewDecoder(key), input) == Outcome([], Err(UnsupportedVersion(input[0])))
    ensures input != [] && input[0] == 2 && |input| < 33 ==>
            Run(c, NewDecoder(key), input) == Outcome([], Err(Truncated))
  {
    if input != [] && input[0] == 2 && |input| < 33 {
      assert Run(c, NewDecoder(key), input) == Prepend([], Run(c, NewDecoder(key).(state := AtHeader), input[1..]));
    }
  }

  lemma RunStarted(c: Cipher, key: Bytes, input: Bytes, header: Bytes, rs: seq<Record>, ps: seq<Bytes>, tail: Bytes,
                   verdict: Result<Bytes, FileError>)
    requires StartsWithRecords(c, key, input, header, rs, ps, tail)
    requires TailGives(c, SubkeyAfter(c, c.subkey(key, header), rs, |rs|), |rs|, tail, verdict)
    ensures Run(c, NewDecoder(key), input) == Outcome(ps, verdict)
  {
    var first := c.subkey(key, header);
    var d := Decoder(Zeros(|key|), Some(Session(first, 0, false)), AtRecordHead, []);
    RunPrefixBytes(c, key, header, RecordsBytes(rs) + tail);
    RunDecrypted(c, d, first, rs, ps, RecordsBytes(rs) + tail, tail);
    RunTail(c, d.(session := Some(SessionAt(c, first, rs, |rs|))), SessionAt(c, first, rs, |rs|), tail, verdict);
    assert ps + [] == ps;
  }

  lemma StartedInput(c: Cipher, key: Bytes, input: Bytes)
    returns (header: Bytes, rs: seq<Record>, o: Outcome, tail: Bytes)
    requires |input| >= 33 && input[0] == 2
    ensures StartsWithRecords(c, key, input, header, rs, o.fed, tail)
    ensures TailGives(c, SubkeyAfter(c, c.subkey(key, header), rs, |rs|), |rs|, tail, o.verdict)
  {
    header := input[1..33];
    var ps, verdict;
    rs, ps, tail, verdict := ReadOn(c, c.subkey(key, header), [], [], input[33..]);
    o := Outcome(ps, verdict);
    assert RecordsBytes([]) + input[33..] == input[33..];
    assert input == [2] + header + input[33..];
  }

  /** The reading contract comes, on every input, to what the bytes say and to nothing else. */
  lemma VerdictIsExact(c: Cipher, key: Bytes, input: Bytes, o: Outcome)
    ensures Run(c, NewDecoder(key), input) == o <==> Comes(c, key, input, o)
  {
    RunShort(c, key, input);
    if |input| >= 33 && input[0] == 2 {
      var header, rs, o', tail := StartedInput(c, key, input);
      RunStarted(c, key, input, header, rs, o'.fed, tail, o'.verdict);
      if Comes(c, key, input, o) {
        var h, r, t :| StartsWithRecords(c, key, input, h, r, o.fed, t)
                    && TailGives(c, SubkeyAfter(c, c.subkey(key, h), r, |r|), |r|, t, o.verdict);
        RunStarted(c, key, input, h, r, o.fed, t, o.verdict);
      }
    }
  }
}
