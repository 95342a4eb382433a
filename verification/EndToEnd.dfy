/** Whole runs: every writer turns any split of a message into the same file, the pull and the push
    readers agree on every input, and together they carry every message across. */
module EndToEnd {
  import opened Bytes
  import opened Secretstream
  import opened Codec
  import opened Framing
  import opened Writers
  import opened Readers
  import opened Verdicts

  // ----- any writer, any split

  /** The chunks of `m` that are sealed before a `Final` record, as far as the counter goes. */
  function SealedChunks(m: Bytes): seq<Bytes> {
    var full := CutUp(m).full;
    if |full| <= MAX_RECORDS then full else full[..MAX_RECORDS]
  }

  /** What a writer that took `m` leaves on the wire. */
  function Output(c: Cipher, o: Origin, m: Bytes, finished: bool): Bytes {
    if finished then o.Finished(c, m) else o.Partial(c, SealedChunks(m))
  }

  lemma CutGrows(m: Bytes, more: Bytes)
    ensures CutUp(m).full <= CutUp(m + more).full
  {
    var cut := CutUp(m);
    CutIsUnique(cut.full, cut.last, m);
    assert Flatten(cut.full) + (cut.last + more) == m + more;
    CutResume(cut.full, cut.last + more, m + more);
  }

  lemma FlattenStep(pieces: seq<Bytes>, i: nat)
    requires i < |pieces|
    ensures Flatten(pieces[..i + 1]) == Flatten(pieces[..i]) + pieces[i]
  {
    FlattenSnoc(pieces[..i], pieces[i]);
    assert pieces[..i + 1] == pieces[..i] + [pieces[i]];
  }

  lemma FlattenSplit(pieces: seq<Bytes>, i: nat, k: nat)
    requires i <= k <= |pieces|
    ensures Flatten(pieces[..k]) == Flatten(pieces[..i]) + Flatten(pieces[i..k])
  {
    FlattenConcat(pieces[..i], pieces[i..k]);
    assert pieces[..k] == pieces[..i] + pieces[i..k];
  }

  /** A writer that the counter stops leaves what any longer message would have left. */
  lemma StoppedEarly(c: Cipher, o: Origin, pieces: seq<Bytes>, i: nat, k: nat, output: Bytes)
    requires i <= k <= |pieces| && Exhausted(c, o, Flatten(pieces[..i]), output)
    ensures output == Output(c, o, Flatten(pieces[..k]), false)
    ensures |CutUp(Flatten(pieces[..k])).full| > MAX_RECORDS
  {
    var m, more := Flatten(pieces[..i]), Flatten(pieces[i..k]);
    FlattenSplit(pieces, i, k);
    CutGrows(m, more);
    PrefixTake(CutUp(m).full, CutUp(m + more).full);
  }

  lemma PrefixTake(shorter: seq<Bytes>, longer: seq<Bytes>)
    requires shorter <= longer && |shorter| > MAX_RECORDS
    ensures shorter[..MAX_RECORDS] == longer[..MAX_RECORDS]
  {
  }

  lemma HoldingIsOutput(c: Cipher, o: Origin, m: Bytes, held: Bytes, session: Session, output: Bytes)
    requires Holding(c, o, m, held, session, output)
    ensures output == Output(c, o, m, false)
  {
  }

  method WriteWithGo(c: Cipher, o: Origin, pieces: seq<Bytes>, complete: bool) returns (file: Bytes, finished: bool)
    ensures finished <==> complete && RecordCount(Flatten(pieces)) <= MAX_RECORDS
    ensures file == Output(c, o, Flatten(pieces), finished)
  {
    var inner := new Sink();
    var enc := new FileEncryptor(c, o.key, o.header);
    var w := new GoWriter(inner, enc, o.Prefix(), o);
    assert pieces[..|pieces|] == pieces;
    for i := 0 to |pieces|
      invariant w.Valid() && !w.completed && w.written == Flatten(pieces[..i])
      invariant w.origin == o && w.enc == enc && w.inner == inner && fresh(w.buffer) && fresh(w.record)
    {
      FlattenStep(pieces, i);
      var n, err := w.Write(pieces[i]);
      if err.Some? {
        StoppedEarly(c, o, pieces, i + 1, |pieces|, inner.data);
        return inner.data, false;
      }
    }
    finished := false;
    if complete {
      var err := w.Complete();
      finished := err.None?;
    }
    file := inner.data;
  }

  /** Written after the pieces before it, piece `i` does not wrap C#'s 32-bit sum. */
  predicate Fits(pieces: seq<Bytes>, i: nat)
    requires i < |pieces|
  {
    |CutUp(Flatten(pieces[..i])).last| + |pieces[i]| <= INT32_MAX
  }

  predicate AllFit(pieces: seq<Bytes>) {
    forall i :: 0 <= i < |pieces| ==> Fits(pieces, i)
  }

  /** How many pieces C# takes: all before the first that does not fit. */
  function FitCount(pieces: seq<Bytes>, from: nat): (n: nat)
    requires from <= |pieces|
    ensures from <= n <= |pieces| && (n < |pieces| ==> !Fits(pieces, n))
    ensures forall i :: from <= i < n ==> Fits(pieces, i)
    decreases |pieces| - from
  {
    if from == |pieces| || !Fits(pieces, from) then from else FitCount(pieces, from + 1)
  }

  /** Whether each piece can be an array at all. */
  predicate AreArrays(pieces: seq<Bytes>) {
    forall i :: 0 <= i < |pieces| ==> |pieces[i]| <= MAX_ARRAY_LENGTH
  }

  method WritePiece(w: CsWriter, piece: Bytes) returns (err: Option<WriteError>)
    requires w.Valid() && !w.completed && |piece| <= MAX_ARRAY_LENGTH
    modifies w, w.enc, w.inner, w.buffer, w.record
    ensures var fits := |CutUp(old(w.written)).last| + |piece| <= INT32_MAX;
            && (err == Some(BadArgument) <==> !fits)
            && (err.None? <==> fits && |CutUp(old(w.written) + piece).full| <= MAX_RECORDS)
            && (err.None? ==> w.Valid() && !w.completed && w.written == old(w.written) + piece)
            && (!fits ==> w.inner.data == old(w.inner.data))
            && (fits && err.Some? ==> Exhausted(w.enc.cipher, w.origin, old(w.written) + piece, w.inner.data))
  {
    var data := new byte[|piece|];
    CopyInto(data, 0, piece);
    assert data[0..0 + |piece|] == piece;
    err := w.Write(data, 0, |piece|);
  }

  /** Writes the pieces up to the first refusal. */
  method WritePieces(w: CsWriter, pieces: seq<Bytes>) returns (ok: bool)
    requires w.Valid() && !w.completed && w.written == [] && AreArrays(pieces)
    modifies w, w.enc, w.inner, w.buffer, w.record
    ensures ok <==> |CutUp(Flatten(pieces)).full| <= MAX_RECORDS && AllFit(pieces)
    ensures ok ==> w.Valid() && !w.completed && w.written == Flatten(pieces)
    ensures !ok ==> w.inner.data == Output(w.enc.cipher, w.origin, Flatten(pieces[..FitCount(pieces, 0)]), false)
  {
    assert pieces[..|pieces|] == pieces;
    ghost var k := FitCount(pieces, 0);
    for i := 0 to |pieces|
      invariant w.Valid() && !w.completed && w.written == Flatten(pieces[..i]) && i <= k
    {
      FlattenStep(pieces, i);
      HoldingIsOutput(w.enc.cipher, w.origin, w.written, w.buffer[..w.bufferLen], w.enc.session, w.inner.data);
      ghost var fits := Fits(pieces, i);
      assert fits <==> i < k;
      var err := WritePiece(w, pieces[i]);
      if err.Some? {
        if fits {
          StoppedEarly(w.enc.cipher, w.origin, pieces, i + 1, k, w.inner.data);
          StoppedEarly(w.enc.cipher, w.origin, pieces, i + 1, |pieces|, w.inner.data);
        }
        return false;
      }
    }
    HoldingIsOutput(w.enc.cipher, w.origin, w.written, w.buffer[..w.bufferLen], w.enc.session, w.inner.data);
    ok := true;
  }

  method WriteWithCs(c: Cipher, o: Origin, pieces: seq<Bytes>, complete: bool) returns (file: Bytes, finished: bool)
    requires AreArrays(pieces)
    ensures finished <==> complete && RecordCount(Flatten(pieces)) <= MAX_RECORDS && AllFit(pieces)
    ensures file == Output(c, o, Flatten(pieces[..FitCount(pieces, 0)]), finished)
  {
    var inner := new Sink();
    var enc := new FileEncryptor(c, o.key, o.header);
    var w := new CsWriter(inner, enc, o.Prefix(), o);
    var ok := WritePieces(w, pieces);
    if !ok {
      return inner.data, false;
    }
    assert pieces[..FitCount(pieces, 0)] == pieces;
    finished := false;
    if complete {
      var err := w.Complete();
      finished := err.None?;
    }
    file := inner.data;
  }

  method WriteWithJs(c: Cipher, o: Origin, pieces: seq<Bytes>, complete: bool) returns (file: Bytes, finished: bool)
    ensures finished <==> complete && RecordCount(Flatten(pieces)) <= MAX_RECORDS
    ensures file == Output(c, o, Flatten(pieces), finished)
  {
    var pushed := new Sink();
    var enc := new FileEncryptor(c, o.key, o.header);
    var w := new JsWriter(enc, pushed, o.Prefix(), o);
    assert pieces[..|pieces|] == pieces;
    for i := 0 to |pieces|
      invariant w.Valid() && !w.flushed && w.written == Flatten(pieces[..i])
      invariant w.origin == o && w.enc == enc && w.pushed == pushed
    {
      FlattenStep(pieces, i);
      var err := w.Transform(pieces[i]);
      if err.Some? {
        StoppedEarly(c, o, pieces, i + 1, |pieces|, pushed.data);
        return pushed.data, false;
      }
    }
    finished := false;
    if complete {
      var err := w.Flush();
      finished := err.None?;
    }
    file := pushed.data;
  }

  method WriteWithPhp(c: Cipher, o: Origin, pieces: seq<Bytes>, complete: bool) returns (file: Bytes, finished: bool)
    ensures finished <==> complete && RecordCount(Flatten(pieces)) <= MAX_RECORDS
    ensures file == Output(c, o, Flatten(pieces), finished)
  {
    var out := new Sink();
    var enc := new FileEncryptor(c, o.key, o.header);
    var w := new PhpWriter(enc, out, o.Prefix(), o);
    assert pieces[..|pieces|] == pieces;
    for i := 0 to |pieces|
      invariant w.Valid() && !w.closed && w.written == Flatten(pieces[..i])
      invariant w.origin == o && w.enc == enc && w.out == out
    {
      FlattenStep(pieces, i);
      var n, err := w.Write(pieces[i]);
      if err.Some? {
        StoppedEarly(c, o, pieces, i + 1, |pieces|, out.data);
        return out.data, false;
      }
    }
    finished := false;
    if complete {
      var err := w.Close();
      finished := err.None?;
    }
    file := out.data;
  }

  // ----- any reader, any schedule

  /** The pull readers of Go and C#, over any input, with buffers of any non-zero sizes. */
  method PullAll(c: Cipher, size: nat, open: Bytes -> Option<Bytes>, input: Bytes, sizes: nat -> nat)
    returns (bytes: Bytes, error: Option<FileError>)
    requires forall i :: sizes(i) > 0
    ensures Delivery(bytes, error) == Deliver(RunPrefixed(c, size, open, input))
  {
    var inner := new Source(input);
    var r := OpenReader(c, inner, size, open);
    match r
    case Err(e) =>
      return [], Some(e);
    case Ok(reader) =>
      bytes, error := ReadToEnd(reader, sizes);
  }

  /** The PHP reader, over any input. */
  method IterateAll(c: Cipher, size: nat, open: Bytes -> Option<Bytes>, input: Bytes)
    returns (bytes: Bytes, error: Option<FileError>)
    ensures Delivery(bytes, error) == Deliver(RunPrefixed(c, size, open, input))
  {
    var inner := new Source(input);
    var prefix := ReadPrefix(inner, size);
    if prefix.None? {
      return [], Some(PrefixTooShort);
    }
    var key := open(prefix.value);
    if key.None? {
      return [], Some(PrefixRefused);
    }
    var dec := new FileDecryptor(c, key.value);
    var r := StartPhpReader(dec, inner);
    match r
    case Err(e) =>
      return [], Some(e);
    case Ok(reader) =>
      var _, b, e := reader.ReadAll();
      return b, e;
  }

  /** Hands `pieces` to a push reader and then ends its input. */
  method Drive(js: JsReader, pieces: seq<Bytes>) returns (pushed: seq<Bytes>, error: Option<FileError>)
    requires js.Valid()
    modifies js, js.dec
    ensures Delivery(Flatten(pushed), error) == old(Deliver(js.Whole(Flatten(pieces))))
  {
    assert pieces[0..] == pieces;
    for i := 0 to |pieces|
      invariant js.Valid() && (js.dec == old(js.dec) || fresh(js.dec))
      invariant js.Whole(Flatten(pieces[i..])) == old(js.Whole(Flatten(pieces)))
    {
      var future := Flatten(pieces[i + 1..]);
      assert Flatten(pieces[i..]) == pieces[i] + future by {
        assert pieces[i..][0] == pieces[i] && pieces[i..][1..] == pieces[i + 1..];
      }
      error := js.Transform(pieces[i]);
      if error.Some? {
        var fed := js.pushed;
        assert Flatten(fed) + [] == Flatten(fed);
        return fed, error;
      }
    }
    ghost var before := js.pushed;
    error := js.Flush();
    pushed := js.pushed;
    if error.None? && pushed != before {
      FlattenSnoc(before, pushed[|before|]);
    }
    assert before + [] == before && Flatten(before) + [] == Flatten(before);
  }

  /** The push reader behind a prefix, over any input in any pieces, the prefix included. */
  method PushAll(c: Cipher, size: nat, open: Bytes -> Option<Bytes>, pieces: seq<Bytes>)
    returns (pushed: seq<Bytes>, error: Option<FileError>)
    requires size > 0
    ensures Delivery(Flatten(pushed), error) == Deliver(RunPrefixed(c, size, open, Flatten(pieces)))
  {
    var js := new JsReader.WithPrefix(c, size, open);
    assert [] + Flatten(pieces) == Flatten(pieces);
    pushed, error := Drive(js, pieces);
  }

  /** The push reader started with the stream key itself. */
  method PushAllWithKey(c: Cipher, key: Bytes, pieces: seq<Bytes>)
    returns (pushed: seq<Bytes>, error: Option<FileError>)
    ensures Delivery(Flatten(pushed), error) == Deliver(Run(c, NewDecoder(key), Flatten(pieces)))
  {
    var js := new JsReader.WithKey(c, key);
    assert [] + Flatten(pieces) == Flatten(pieces);
    assert Joined([], Run(c, NewDecoder(key), Flatten(pieces))) == Run(c, NewDecoder(key), Flatten(pieces));
    pushed, error := Drive(js, pieces);
  }

  // ----- across the wire

  /** Reading a finished file back gives the message and a clean end. */
  lemma FinishedIsDelivered(c: Cipher, o: Origin, open: Bytes -> Option<Bytes>, m: Bytes)
    requires |o.header| == HEADER_BYTES && RecordCount(m) <= MAX_RECORDS && open(o.lead) == Some(o.key)
    ensures Deliver(RunPrefixed(c, |o.lead|, open, o.Finished(c, m))) == Delivery(m, None)
  {
    var file := o.Finished(c, m);
    assert file[..|o.lead|] == o.lead && file[|o.lead|..] == FileOf(c, o.key, o.header, m);
    RoundTrip(c, o.key, o.header, m);
  }

  datatype Binding = Go | CSharp | JavaScript | Php

  /** The pieces a writer takes: all, except that C# stops at the first that wraps its sum. */
  function Taken(writer: Binding, pieces: seq<Bytes>): seq<Bytes> {
    if writer.CSharp? then pieces[..FitCount(pieces, 0)] else pieces
  }

  /** Gives a writer the pieces and, if `complete`, completes it; stops at the first refusal. */
  method WriteWith(writer: Binding, c: Cipher, o: Origin, pieces: seq<Bytes>, complete: bool)
    returns (file: Bytes, finished: bool)
    requires writer.CSharp? ==> AreArrays(pieces)
    ensures finished <==> complete && RecordCount(Flatten(pieces)) <= MAX_RECORDS && (writer.CSharp? ==> AllFit(pieces))
    ensures file == Output(c, o, Flatten(Taken(writer, pieces)), finished)
  {
    match writer
    case Go => file, finished := WriteWithGo(c, o, pieces, complete);
    case CSharp => file, finished := WriteWithCs(c, o, pieces, complete);
    case JavaScript => file, finished := WriteWithJs(c, o, pieces, complete);
    case Php => file, finished := WriteWithPhp(c, o, pieces, complete);
  }

  /** `sizes` are the read buffers of the pull readers, `arrive` how the input reaches the push one.
      Without bytes in front of the stream file, `open` just gives the key. */
  method ReadWith(reader: Binding, c: Cipher, size: nat, open: Bytes -> Option<Bytes>, input: Bytes,
                  sizes: nat -> nat, arrive: Bytes -> seq<Bytes>)
    returns (bytes: Bytes, error: Option<FileError>)
    requires (forall i :: sizes(i) > 0) && forall x :: Flatten(arrive(x)) == x
    ensures Delivery(bytes, error) == Deliver(RunPrefixed(c, size, open, input))
  {
    match reader
    case Go => bytes, error := PullAll(c, size, open, input, sizes);
    case CSharp => bytes, error := PullAll(c, size, open, input, sizes);
    case JavaScript =>
      var pushed, key := [], open(input[..0]);
      if size > 0 {
        pushed, error := PushAll(c, size, open, arrive(input));
      } else if key.None? {
        error := Some(PrefixRefused);
      } else {
        pushed, error := PushAllWithKey(c, key.value, arrive(input));
      }
      bytes := Flatten(pushed);
    case Php => bytes, error := IterateAll(c, size, open, input);
  }

  /** Reading an unfinished file back gives the sealed chunks and then the truncation error. */
  lemma UnfinishedIsRefused(c: Cipher, o: Origin, open: Bytes -> Option<Bytes>, m: Bytes)
    requires |o.header| == HEADER_BYTES && open(o.lead) == Some(o.key)
    ensures Deliver(RunPrefixed(c, |o.lead|, open, Output(c, o, m, false)))
         == Delivery(Flatten(SealedChunks(m)), Some(Truncated))
  {
    var file, chunks := Output(c, o, m, false), SealedChunks(m);
    assert file[..|o.lead|] == o.lead && file[|o.lead|..] == PartialFileOf(c, o.key, o.header, chunks);
    CutIsUnique(CutUp(m).full, CutUp(m).last, m);
    UnfinishedFailsClosed(c, o.key, o.header, chunks);
    assert Flatten(chunks) + [] == Flatten(chunks);
  }

  lemma SealedIsPrefix(m: Bytes)
    ensures Flatten(SealedChunks(m)) <= m
  {
    var full, last := CutUp(m).full, CutUp(m).last;
    CutIsUnique(full, last, m);
    FlattenSplit(full, |SealedChunks(m)|, |full|);
    assert full[..|full|] == full && full[..|SealedChunks(m)|] == SealedChunks(m);
  }

  /** What was sealed is the front of what was written. */
  lemma SealedIsFront(writer: Binding, pieces: seq<Bytes>)
    ensures Flatten(SealedChunks(Flatten(Taken(writer, pieces)))) <= Flatten(pieces)
  {
    var k := |Taken(writer, pieces)|;
    SealedIsPrefix(Flatten(pieces[..k]));
    FlattenSplit(pieces, k, |pieces|);
    assert pieces[..|pieces|] == pieces && Taken(writer, pieces) == pieces[..k];
  }

  /** From any binding to any other, for any split into writes, any short reads, any read sizes and
      any arriving pieces: a completed message arrives, and whatever was left unfinished, because it
      was never completed or because the writer refused to go on, is refused after the chunks sealed. */
  method SendAndReceive(writer: Binding, reader: Binding, c: Cipher, o: Origin, pieces: seq<Bytes>, complete: bool,
                        open: Bytes -> Option<Bytes>, sizes: nat -> nat, arrive: Bytes -> seq<Bytes>)
    returns (finished: bool, bytes: Bytes, error: Option<FileError>)
    requires |o.header| == HEADER_BYTES && open(o.lead) == Some(o.key) && (writer.CSharp? ==> AreArrays(pieces))
    requires (forall i :: sizes(i) > 0) && forall x :: Flatten(arrive(x)) == x
    ensures finished <==> complete && RecordCount(Flatten(pieces)) <= MAX_RECORDS && (writer.CSharp? ==> AllFit(pieces))
    ensures finished ==> bytes == Flatten(pieces) && error.None?
    ensures !finished ==> error == Some(Truncated) && bytes <= Flatten(pieces)
    ensures !finished ==> bytes == Flatten(SealedChunks(Flatten(Taken(writer, pieces))))
  {
    var file;
    file, finished := WriteWith(writer, c, o, pieces, complete);
    ghost var m := Flatten(Taken(writer, pieces));
    if finished {
      assert Taken(writer, pieces) == pieces;
      FinishedIsDelivered(c, o, open, m);
    } else {
      UnfinishedIsRefused(c, o, open, m);
      SealedIsFront(writer, pieces);
    }
    bytes, error := ReadWith(reader, c, |o.lead|, open, file, sizes, arrive);
  }

  /** The two errors of the bytes in front, and when they come. The stream file never gives them. */
  lemma PrefixVerdicts(c: Cipher, size: nat, open: Bytes -> Option<Bytes>, input: Bytes)
    ensures var verdict := RunPrefixed(c, size, open, input).verdict;
            && (verdict == Err(PrefixTooShort) <==> |input| < size)
            && (verdict == Err(PrefixRefused) <==> size <= |input| && open(input[..size]) == None)
  {
    if size <= |input| && open(input[..size]).Some? {
      var key, file := open(input[..size]).value, input[size..];
      VerdictIsExact(c, key, file, Run(c, NewDecoder(key), file));
    }
  }

  /** Whatever a reader accepts, it refuses cut short anywhere; what comes out before the error are
      whole chunks, and only chunks in front of the `Final` one. */
  lemma EveryTruncationIsRefused(c: Cipher, size: nat, open: Bytes -> Option<Bytes>, input: Bytes, n: nat)
    requires RunPrefixed(c, size, open, input).verdict.Ok? && n < |input|
    ensures var cut := RunPrefixed(c, size, open, input[..n]);
            && cut.verdict == Err(if n < size then PrefixTooShort else Truncated)
            && cut.fed <= RunPrefixed(c, size, open, input).fed
            && AllFull(cut.fed)
  {
    if size <= n {
      var key := open(input[..size]).value;
      assert input[..n][..size] == input[..size];
      assert input[..n][size..] == input[size..][..n - size];
      TruncationFailsClosed(c, NewDecoder(key), input[size..], n - size);
      FedChunksAreFull(c, NewDecoder(key), input[size..][..n - size]);
    }
  }

  /** Whatever a reader accepts, with anything appended it releases the chunks in front of the
      `Final` one and fails: no byte of the `Final` chunk comes out. */
  lemma TrailingBytesHoldTheFinalChunkBack(c: Cipher, size: nat, open: Bytes -> Option<Bytes>, input: Bytes,
                                           tail: Bytes)
    requires RunPrefixed(c, size, open, input).verdict.Ok? && tail != []
    ensures RunPrefixed(c, size, open, input + tail)
            == Outcome(RunPrefixed(c, size, open, input).fed, Err(TrailingData))
  {
    var key := open(input[..size]).value;
    assert (input + tail)[..size] == input[..size];
    assert (input + tail)[size..] == input[size..] + tail;
    var whole := Run(c, NewDecoder(key), input[size..]);
    var plain := Cut(whole.fed, whole.verdict.value);
    var t := AcceptedTranscript(c, key, input[size..], plain);
    StreamFileThenTail(c, key, input[size..], t, plain, tail);
  }
}
