/** The bytes of a written file, position by position, with nothing left to the writing functions:
    literal version, tags and length bytes, and which part of the message is encrypted where. */
module Layout {
  import opened Bytes
  import opened Secretstream
  import opened Codec
  import opened Framing

  /** Record `i`: tag, length with its low byte first, ciphertext, authentication tag. */
  function RecordOnWire(c: Cipher, subkey: Bytes, i: nat, tag: byte, p: Bytes): Bytes
    requires |p| <= 8192
  {
    var x := c.encrypt(subkey, i, tag, p);
    [tag, (|p| % 256) as byte, (|p| / 256) as byte, 0, 0] + x.ciphertext + x.authTag
  }

  lemma SealedOnWire(c: Cipher, s: Session, tag: Tag, p: Bytes)
    requires |p| <= 8192
    ensures RecordBytes(SealRecord(c, s, tag, p)) == RecordOnWire(c, s.subkey, s.counter, tag.ToByte(), p)
    ensures |RecordOnWire(c, s.subkey, s.counter, tag.ToByte(), p)| == |p| + 21
  {
    assert ToU32Le(|p|) == [(|p| % 256) as byte, (|p| / 256) as byte, 0, 0];
  }

  /** Chunk `k` is where it belongs in `m`. */
  predicate InPlace(m: Bytes, k: nat, chunk: Bytes) {
    8192 * (k + 1) <= |m| && chunk == m[8192 * k..8192 * (k + 1)]
  }

  lemma InPlaceLater(m: Bytes, k: nat, chunk: Bytes)
    requires |m| >= 8192 && InPlace(m[8192..], k, chunk)
    ensures InPlace(m, k + 1, chunk)
  {
  }

  /** Where the chunks of a message lie, and how many come before the last. */
  lemma {:induction false} ChunksInPlace(m: Bytes)
    ensures var full := CutUp(m).full;
            && |full| == (if m == [] then 0 else (|m| - 1) / 8192)
            && (forall k :: 0 <= k < |full| ==> InPlace(m, k, full[k]))
            && 8192 * |full| <= |m| && CutUp(m).last == m[8192 * |full|..]
    decreases |m|
  {
    if |m| > 8192 {
      ChunksInPlace(m[8192..]);
      var full, rest := CutUp(m).full, CutUp(m[8192..]).full;
      forall k | 0 <= k < |full|
        ensures InPlace(m, k, full[k])
      {
        if k > 0 {
          InPlaceLater(m, k - 1, rest[k - 1]);
        }
      }
    }
  }

  lemma {:induction false} RecordsLength(rs: seq<Record>)
    requires forall i :: 0 <= i < |rs| ==> |RecordBytes(rs[i])| == 8213
    ensures |RecordsBytes(rs)| == 8213 * |rs|
    decreases |rs|
  {
    if rs != [] {
      RecordsLength(rs[1..]);
    }
  }

  lemma MiddleOf(x: Bytes, y: Bytes, z: Bytes)
    ensures (x + (y + z))[|x|..|x| + |y|] == y
  {
  }

  /** Records of one length lie one after another. */
  lemma RecordsInPlace(rs: seq<Record>, k: nat)
    requires k < |rs| && forall i :: 0 <= i < |rs| ==> |RecordBytes(rs[i])| == 8213
    ensures |RecordsBytes(rs)| == 8213 * |rs| && RecordsBytes(rs)[8213 * k..8213 * (k + 1)] == RecordBytes(rs[k])
  {
    RecordsLength(rs);
    RecordsLength(rs[..k]);
    RecordsBytesSplit(rs, k);
    var x, y, z := RecordsBytes(rs[..k]), RecordBytes(rs[k]), RecordsBytes(rs[k + 1..]);
    assert RecordsBytes(rs[k..]) == y + z by {
      assert rs[k..][0] == rs[k] && rs[k..][1..] == rs[k + 1..];
    }
    MiddleOf(x, y, z);
  }

  lemma ChunkOnWire(c: Cipher, s: Session, chunks: seq<Bytes>, k: nat)
    requires AllFull(chunks) && k < |chunks|
    ensures RecordBytes(ChunkRecords(c, s, chunks)[k]) == RecordOnWire(c, s.subkey, s.counter + k, 0, chunks[k])
    ensures |RecordBytes(ChunkRecords(c, s, chunks)[k])| == 8213
  {
    SealedOnWire(c, SessionAfter(s, k), Message, chunks[k]);
  }

  lemma ChunksUniform(c: Cipher, s: Session, chunks: seq<Bytes>)
    requires AllFull(chunks)
    ensures var rs := ChunkRecords(c, s, chunks);
            |rs| == |chunks| && forall i :: 0 <= i < |rs| ==> |RecordBytes(rs[i])| == 8213
  {
    forall i | 0 <= i < |chunks|
      ensures |RecordBytes(ChunkRecords(c, s, chunks)[i])| == 8213
    {
      ChunkOnWire(c, s, chunks, i);
    }
  }

  /** The records of full chunks, each in its place and with its bytes. */
  lemma ChunksOnWire(c: Cipher, s: Session, chunks: seq<Bytes>, k: nat)
    requires AllFull(chunks) && k < |chunks|
    ensures var b := RecordsBytes(ChunkRecords(c, s, chunks));
            && |b| == 8213 * |chunks|
            && b[8213 * k..8213 * (k + 1)] == RecordOnWire(c, s.subkey, s.counter + k, 0, chunks[k])
  {
    ChunksUniform(c, s, chunks);
    RecordsInPlace(ChunkRecords(c, s, chunks), k);
    ChunkOnWire(c, s, chunks, k);
  }

  lemma ChunksLength(c: Cipher, s: Session, chunks: seq<Bytes>)
    requires AllFull(chunks)
    ensures |RecordsBytes(ChunkRecords(c, s, chunks))| == 8213 * |chunks|
  {
    ChunksUniform(c, s, chunks);
    RecordsLength(ChunkRecords(c, s, chunks));
  }

  lemma InnerSlice(x: Bytes, y: Bytes, z: Bytes, from: nat, to: nat)
    requires from <= to <= |y|
    ensures (x + y + z)[|x| + from..|x| + to] == y[from..to]
  {
  }

  lemma OuterSlices(x: Bytes, y: Bytes, z: Bytes)
    ensures (x + y + z)[..|x|] == x && (x + y + z)[|x| + |y|..] == z
  {
  }

  /** The start and the end of a written file: version 2 and the header, then, after `n` records of 8213
      bytes, the record tagged 3 with what is left of the message, to the last byte. */
  lemma FileEnds(c: Cipher, key: Bytes, header: Bytes, m: Bytes)
    requires |header| == 32
    ensures var file, n := FileOf(c, key, header, m), if m == [] then 0 else (|m| - 1) / 8192;
            && |file| == 33 + 8213 * n + (|m| - 8192 * n) + 21
            && file[..33] == [2] + header
            && file[33 + 8213 * n..] == RecordOnWire(c, c.subkey(key, header), n, 3, m[8192 * n..])
  {
    ChunksInPlace(m);
    var s, cut := StartSession(c, key, header), CutUp(m);
    CutIsUnique(cut.full, cut.last, m);
    ChunksLength(c, s, cut.full);
    SealedOnWire(c, SessionAfter(s, |cut.full|), Final, cut.last);
    var t := WrittenTranscript(c, key, header, cut);
    OuterSlices(FilePrefix(header), RecordsBytes(t.chunks), RecordBytes(t.last));
  }

  /** And record `k` of those in between: tagged 0, with bytes `8192 k` to `8192 (k + 1)` of the message
      encrypted under the stream's subkey and the counter `k`. */
  lemma FileMiddle(c: Cipher, key: Bytes, header: Bytes, m: Bytes, k: nat)
    requires |header| == 32 && 8192 * (k + 1) < |m|
    ensures var file := FileOf(c, key, header, m);
            && 33 + 8213 * (k + 1) <= |file|
            && file[33 + 8213 * k..33 + 8213 * (k + 1)]
               == RecordOnWire(c, c.subkey(key, header), k, 0, m[8192 * k..8192 * (k + 1)])
  {
    ChunksInPlace(m);
    var cut := CutUp(m);
    CutIsUnique(cut.full, cut.last, m);
    assert InPlace(m, k, cut.full[k]);
    FileMiddleOf(c, key, header, cut, k);
  }

  lemma FileMiddleOf(c: Cipher, key: Bytes, header: Bytes, cut: Cut, k: nat)
    requires |header| == 32 && AllFull(cut.full) && k < |cut.full|
    ensures var file := WireBytes(WrittenTranscript(c, key, header, cut));
            && 33 + 8213 * (k + 1) <= |file|
            && file[33 + 8213 * k..33 + 8213 * (k + 1)] == RecordOnWire(c, c.subkey(key, header), k, 0, cut.full[k])
  {
    var t, s := WrittenTranscript(c, key, header, cut), StartSession(c, key, header);
    var x, y, z := FilePrefix(header), RecordsBytes(t.chunks), RecordBytes(t.last);
    ChunksOnWire(c, s, cut.full, k);
    assert |x| == 33 && y[8213 * k..8213 * (k + 1)] == RecordOnWire(c, c.subkey(key, header), k, 0, cut.full[k]);
    InnerSlice(x, y, z, 8213 * k, 8213 * (k + 1));
  }
}
