/** The stream readers: the pull machine of Go, C# and PHP, which asks its input for `NextLen` bytes
    at a time, and the push machine of JavaScript, which is handed its input in pieces. Both deliver
    what `Codec.Run` says of the whole input, however the input arrives and however it is read. */
module Readers {
  import opened Bytes
  import opened Secretstream
  import opened Codec

  /** The underlying input; a read returns any non-empty part of what was asked for, and nothing
      only at the end. */
  class Source {
    var rest: Bytes

    constructor (data: Bytes)
      ensures rest == data
    {
      rest := data;
    }

    method Read(n: nat) returns (piece: Bytes)
      requires n > 0
      modifies this
      ensures |piece| <= n && piece + rest == old(rest)
      ensures piece == [] <==> old(rest) == []
    {
      if rest == [] {
        return [];
      }
      var k :| 1 <= k <= n && k <= |rest|;
      piece, rest := rest[..k], rest[k..];
    }
  }

  /** Reads until `want` bytes are there or the input ends. */
  method ReadUpTo(inner: Source, want: nat) returns (data: Bytes)
    modifies inner
    ensures data + inner.rest == old(inner.rest)
    ensures |data| == Min(want, |old(inner.rest)|)
  {
    data := [];
    while |data| < want
      invariant |data| <= want && data + inner.rest == old(inner.rest)
      decreases want - |data|
    {
      var piece := inner.Read(want - |data|);
      if piece == [] {
        break;
      }
      data := data + piece;
    }
  }

  // ----- what is still to be delivered

  /** Plaintext bytes, and then either a clean end or an error. */
  datatype Delivery = Delivery(bytes: Bytes, error: Option<FileError>)

  function Deliver(o: Outcome): Delivery {
    Delivery(o.Released(), if o.verdict.Ok? then None else Some(o.verdict.error))
  }

  const EndOfStream: Delivery := Delivery([], None)

  function After(p: Bytes, d: Delivery): Delivery {
    Delivery(p + d.bytes, d.error)
  }

  lemma AfterAfter(p: Bytes, q: Bytes, d: Delivery)
    ensures After(p, After(q, d)) == After(p + q, d)
  {
    assert p + (q + d.bytes) == p + q + d.bytes;
  }

  /** One codec step of a run, seen from what it delivers. */
  lemma DeliverStep(c: Cipher, d: Decoder, input: Bytes)
    requires !d.state.Done?
    ensures |input| < NextLen(d) ==>
              var r := FinishResult(d);
              Deliver(Run(c, d, input)) == if r.Ok? then After(r.value, EndOfStream) else Delivery([], Some(r.error))
    ensures NextLen(d) <= |input| ==>
              var r := Step(c, d, input[..NextLen(d)]);
              Deliver(Run(c, d, input)) ==
              if r.Ok? then After(r.value.1, Deliver(Run(c, r.value.0, input[NextLen(d)..])))
              else Delivery([], Some(r.error))
  {
    if NextLen(d) <= |input| && Step(c, d, input[..NextLen(d)]).Ok? {
      var stepped := Step(c, d, input[..NextLen(d)]).value;
      DeliverPrepend(stepped.1, Run(c, stepped.0, input[NextLen(d)..]));
    }
  }

  lemma DeliverPrepend(p: Bytes, rest: Outcome)
    ensures Deliver(Prepend(p, rest)) == After(p, Deliver(rest))
  {
    if p != [] {
      assert ([p] + rest.fed)[1..] == rest.fed;
    }
    assert Prepend(p, rest).Released() == p + rest.Released();
  }

  /** `step` of Go, C# and PHP: feeds one `NextLen` read, or finishes when the input ends first. */
  method StepCodec(dec: FileDecryptor, inner: Source, plaintext: array<byte>)
    returns (r: Result<nat, FileError>, done: bool)
    requires Coherent(dec.View()) && !dec.state.Done? && plaintext.Length == CHUNK_BYTES
    modifies dec, inner, plaintext
    ensures Coherent(dec.View())
    ensures done <==> |old(inner.rest)| < NextLen(old(dec.View()))
    ensures r.Ok? ==> r.value <= CHUNK_BYTES && (done || (!dec.state.Done? && |inner.rest| < |old(inner.rest)|))
    ensures var ahead := old(Deliver(Run(dec.cipher, dec.View(), inner.rest)));
            match r
            case Err(e) => ahead == Delivery([], Some(e))
            case Ok(n) =>
              var rest := if done then EndOfStream else Deliver(Run(dec.cipher, dec.View(), inner.rest));
              ahead == After(plaintext[..n], rest)
    ensures r.Ok? && (old(dec.state).AtVersion? || old(dec.state).AtHeader?) ==> r.value == 0 && !done
    ensures r.Ok? && old(dec.state).AtVersion? ==> dec.state.AtHeader?
  {
    DeliverStep(dec.cipher, dec.View(), inner.rest);
    ghost var before := inner.rest;
    var want := dec.NextLength();
    var data := ReadUpTo(inner, want);
    if |data| < want {
      done := true;
      r := dec.Finish(plaintext);
    } else {
      done := false;
      assert data == before[..want] && inner.rest == before[want..];
      r := dec.Feed(data, plaintext);
    }
  }

  /** `readPrefix`: the bytes in front of the stream file, or nothing if the input is too short. */
  method ReadPrefix(inner: Source, size: nat) returns (prefix: Option<Bytes>)
    modifies inner
    ensures prefix.None? <==> |old(inner.rest)| < size
    ensures prefix.Some? ==> prefix.value == old(inner.rest)[..size] && inner.rest == old(inner.rest)[size..]
  {
    ghost var before := inner.rest;
    var data := ReadUpTo(inner, size);
    if |data| < size {
      return None;
    }
    assert data == before[..size] && inner.rest == before[size..];
    return Some(data);
  }

  // ----- Go and C#: a chunk of pending plaintext, copied out as it is asked for

  datatype ReadResult = Got(n: nat) | AtEnd | BadRange | Failed(error: FileError)

  class BufferedReader {
    const dec: FileDecryptor
    const inner: Source
    const plaintext: array<byte>
    var pendingPos: nat
    var pendingLen: nat
    var done: bool

    ghost predicate Valid()
      reads this, dec
    {
      && plaintext.Length == CHUNK_BYTES && pendingPos <= pendingLen <= CHUNK_BYTES
      && Coherent(dec.View()) && (!done ==> !dec.state.Done?)
    }

    /** Everything this reader has still to deliver. */
    ghost function Ahead(): Delivery
      requires Valid()
      reads this, dec, inner, plaintext
    {
      var rest := if done then EndOfStream else Deliver(Run(dec.cipher, dec.View(), inner.rest));
      After(plaintext[pendingPos..pendingLen], rest)
    }

    constructor (dec: FileDecryptor, inner: Source)
      requires Coherent(dec.View()) && !dec.state.Done?
      ensures Valid() && this.dec == dec && this.inner == inner && fresh(plaintext)
      ensures pendingPos == pendingLen && !done
    {
      this.dec, this.inner := dec, inner;
      plaintext := new byte[CHUNK_BYTES];
      pendingPos, pendingLen, done := 0, 0, false;
    }

    /** Steps the codec until plaintext is pending; otherwise the result `Read` ends with. */
    method Refill() returns (stop: Option<ReadResult>)
      requires Valid()
      modifies this, dec, inner, plaintext
      ensures stop.None? ==> Valid() && pendingPos < pendingLen && Ahead() == old(Ahead())
      ensures stop.Some? ==> match stop.value
                             case AtEnd => Valid() && old(Ahead()) == Ahead() == EndOfStream
                             case Failed(e) => old(Ahead()) == Delivery([], Some(e))
                             case _ => false
    {
      while pendingPos == pendingLen
        invariant Valid() && Ahead() == old(Ahead())
        decreases !done, |inner.rest|
      {
        if done {
          return Some(AtEnd);
        }
        var n, finished := StepCodec(dec, inner, plaintext);
        done := finished;
        if n.Err? {
          return Some(Failed(n.error));
        }
        pendingLen := n.value;
        pendingPos := 0;
      }
      stop := None;
    }

    method CopyOut(buffer: array<byte>, offset: nat, n: nat)
      requires Valid() && buffer != plaintext && pendingPos + n <= pendingLen && offset + n <= buffer.Length
      modifies this`pendingPos, buffer
      ensures Valid() && old(Ahead()) == After(buffer[offset..offset + n], Ahead())
      ensures buffer[..offset] == old(buffer[..offset]) && buffer[offset + n..] == old(buffer[offset + n..])
    {
      ghost var pending := plaintext[pendingPos..pendingLen];
      ghost var rest := pending[n..];
      assert rest == plaintext[pendingPos + n..pendingLen] && pending[..n] == plaintext[pendingPos..pendingPos + n];
      CopyInto(buffer, offset, plaintext[pendingPos..pendingPos + n]);
      assert pending == buffer[offset..offset + n] + rest;
      ghost var later := if done then EndOfStream else Deliver(Run(dec.cipher, dec.View(), inner.rest));
      AfterAfter(buffer[offset..offset + n], rest, later);
      pendingPos := pendingPos + n;
    }

    /** As much of the pending plaintext as was asked for, if the range has room for it. */
    method CopyPending(buffer: array<byte>, offset: int, count: int) returns (r: ReadResult)
      requires Valid() && buffer != plaintext && pendingPos < pendingLen
      modifies this`pendingPos, buffer
      ensures Valid()
      ensures match r
              case Got(n) =>
                && 0 <= offset && n <= count && offset + n <= buffer.Length && (n == 0 ==> count == 0)
                && old(Ahead()) == After(buffer[offset..offset + n], Ahead())
                && buffer[..offset] == old(buffer[..offset]) && buffer[offset + n..] == old(buffer[offset + n..])
              case BadRange =>
                && (offset < 0 || count < 0 || offset + count > buffer.Length)
                && Ahead() == old(Ahead()) && buffer[..] == old(buffer[..])
              case _ => false
    {
      var toCopy := Min(pendingLen - pendingPos, count);
      if toCopy < 0 || offset < 0 || offset + toCopy > buffer.Length {
        return BadRange;
      }
      CopyOut(buffer, offset, toCopy);
      return Got(toCopy);
    }

    /** Copies the next plaintext into `buffer[offset..offset + count]`: at least one byte unless
        none was asked for, the end only when nothing is left, and an error only when the bytes in
        front of it are gone. A range the copy does not fit in loses nothing. */
    method Read(buffer: array<byte>, offset: int, count: int) returns (r: ReadResult)
      requires Valid() && buffer != plaintext
      modifies this, dec, inner, plaintext, buffer
      ensures match r
              case Got(n) =>
                && 0 <= offset && n <= count && offset + n <= buffer.Length && (n == 0 ==> count == 0)
                && Valid() && old(Ahead()) == After(buffer[offset..offset + n], Ahead())
                && buffer[..offset] == old(buffer[..offset]) && buffer[offset + n..] == old(buffer[offset + n..])
              case AtEnd => Valid() && old(Ahead()) == Ahead() == EndOfStream
              case BadRange =>
                && (offset < 0 || count < 0 || offset + count > buffer.Length)
                && Valid() && Ahead() == old(Ahead())
              case Failed(e) => old(Ahead()) == Delivery([], Some(e))
      ensures !r.Got? ==> buffer[..] == old(buffer[..])
    {
      var stop := Refill();
      if stop.Some? {
        return stop.value;
      }
      r := CopyPending(buffer, offset, count);
    }
  }

  /** `startDecryptReader`: the version byte and the header are read now, by two steps whose results
      are dropped; no plaintext is lost that way. */
  method StartReader(dec: FileDecryptor, inner: Source) returns (r: Result<BufferedReader, FileError>)
    requires Coherent(dec.View()) && dec.state.AtVersion?
    modifies dec, inner
    ensures var ahead := old(Deliver(Run(dec.cipher, dec.View(), inner.rest)));
            match r
            case Err(e) => ahead == Delivery([], Some(e))
            case Ok(reader) =>
              && fresh(reader) && fresh(reader.plaintext) && reader.dec == dec
              && reader.inner == inner && reader.Valid() && reader.Ahead() == ahead
  {
    var reader := new BufferedReader(dec, inner);
    var n, finished := StepCodec(dec, inner, reader.plaintext);
    if n.Err? {
      return Err(n.error);
    }
    n, finished := StepCodec(dec, inner, reader.plaintext);
    if n.Err? {
      return Err(n.error);
    }
    return Ok(reader);
  }

  /** The box and passphrase readers: read the prefix, turn it into the stream key, then start. */
  method OpenReader(cipher: Cipher, inner: Source, size: nat, open: Bytes -> Option<Bytes>)
    returns (r: Result<BufferedReader, FileError>)
    modifies inner
    ensures var ahead := old(Deliver(RunPrefixed(cipher, size, open, inner.rest)));
            match r
            case Err(e) => ahead == Delivery([], Some(e))
            case Ok(reader) =>
              && fresh(reader) && fresh(reader.plaintext) && fresh(reader.dec)
              && reader.inner == inner && reader.Valid() && reader.Ahead() == ahead
  {
    var prefix := ReadPrefix(inner, size);
    if prefix.None? {
      return Err(PrefixTooShort);
    }
    var key := open(prefix.value);
    if key.None? {
      return Err(PrefixRefused);
    }
    var dec := new FileDecryptor(cipher, key.value);
    r := StartReader(dec, inner);
  }

  /** Reads to the end with buffers of any non-zero sizes. */
  method ReadToEnd(reader: BufferedReader, sizes: nat -> nat) returns (bytes: Bytes, error: Option<FileError>)
    requires reader.Valid() && forall i :: sizes(i) > 0
    modifies reader, reader.dec, reader.inner, reader.plaintext
    ensures Delivery(bytes, error) == old(reader.Ahead())
  {
    bytes, error := [], None;
    var i: nat := 0;
    ghost var total, ahead := reader.Ahead(), reader.Ahead();
    while true
      invariant reader.Valid() && reader.Ahead() == ahead && After(bytes, ahead) == total
      decreases |ahead.bytes|
    {
      var buffer := new byte[sizes(i)];
      var r := reader.Read(buffer, 0, buffer.Length);
      match r
      case Got(n) =>
        AfterAfter(bytes, buffer[0..n], reader.Ahead());
        bytes := bytes + buffer[0..n];
        ahead := reader.Ahead();
        i := i + 1;
      case AtEnd =>
        return;
      case Failed(e) =>
        error := Some(e);
        return;
    }
  }

  // ----- PHP: an iterator over released chunks

  class PhpReader {
    const dec: FileDecryptor
    const inner: Source
    var done: bool
    var started: bool
    var hasCurrent: bool
    var current: Option<Bytes>
    var index: int

    ghost predicate Valid()
      reads this, dec
    {
      Coherent(dec.View()) && (!done ==> !dec.state.Done?) && (hasCurrent ==> current.Some?)
    }

    ghost function Ahead(): Delivery
      reads this, dec, inner
    {
      if done then EndOfStream else Deliver(Run(dec.cipher, dec.View(), inner.rest))
    }

    constructor (dec: FileDecryptor, inner: Source)
      requires Coherent(dec.View()) && !dec.state.Done?
      ensures Valid() && this.dec == dec && this.inner == inner && !done && !started && !hasCurrent && index == -1
    {
      this.dec, this.inner := dec, inner;
      done, started, hasCurrent, current, index := false, false, false, None, -1;
    }

    method Rewind() returns (rewound: bool, err: Option<FileError>)
      requires Valid()
      modifies this, dec, inner
      ensures rewound == !old(started)
      ensures !rewound ==>
              Valid() && err.None? && Ahead() == old(Ahead()) && hasCurrent == old(hasCurrent)
                && current == old(current) && index == old(index)
      ensures rewound && err.None? ==> Valid() && started && Advanced(old(Ahead()), old(index))
      ensures rewound && err.Some? ==> old(Ahead()) == Delivery([], err)
    {
      if started {
        return false, None;
      }
      started := true;
      err := Advance();
      rewound := true;
    }

    /** After an advance: the next chunk is current, or there was none left. */
    ghost predicate Advanced(before: Delivery, oldIndex: int)
      reads this, dec, inner
    {
      if hasCurrent then current.Some? && current.value != [] && index == oldIndex + 1
         && before == After(current.value, Ahead())
      else current.None? && index == oldIndex && before == Ahead() == EndOfStream
    }

    /** Steps the codec until a read releases plaintext or the stream ends. */
    method Advance() returns (err: Option<FileError>)
      requires Valid()
      modifies this, dec, inner
      ensures started == old(started)
      ensures err.None? ==> Valid() && Advanced(old(Ahead()), old(index))
      ensures err.Some? ==> old(Ahead()) == Delivery([], err)
    {
      while !done
        invariant Valid() && Ahead() == old(Ahead()) && index == old(index) && started == old(started)
        decreases !done, |inner.rest|
      {
        var plaintext := new byte[CHUNK_BYTES];
        var n, finished := StepCodec(dec, inner, plaintext);
        done := finished;
        if n.Err? {
          return Some(n.error);
        }
        if n.value > 0 {
          index := index + 1;
          current := Some(plaintext[..n.value]);
          hasCurrent := true;
          return None;
        }
      }
      hasCurrent := false;
      current := None;
      err := None;
    }

    /** Joins every chunk, as `foreach` meets them; refused once iteration has started. */
    method ReadAll() returns (rewound: bool, bytes: Bytes, err: Option<FileError>)
      requires Valid()
      modifies this, dec, inner
      ensures rewound == !old(started)
      ensures !rewound ==> bytes == [] && err.None? && Valid() && Ahead() == old(Ahead())
      ensures !rewound ==> hasCurrent == old(hasCurrent) && current == old(current) && index == old(index)
      ensures rewound ==> Delivery(bytes, err) == old(Ahead())
    {
      bytes := [];
      rewound, err := Rewind();
      if !rewound {
        return;
      }
      while err.None? && hasCurrent
        invariant err.None? ==> Valid()
        invariant err.None? && hasCurrent ==>
                  After(bytes + current.value, Ahead()) == old(Ahead()) && current.value != []
        invariant err.None? && !hasCurrent ==> Delivery(bytes, None) == old(Ahead())
        invariant err.Some? ==> Delivery(bytes, err) == old(Ahead())
        decreases err.None?, hasCurrent, |Ahead().bytes|
      {
        bytes := bytes + current.value;
        ghost var ahead := Ahead();
        err := Advance();
        if err.None? && hasCurrent {
          AfterAfter(bytes, current.value, Ahead());
        }
      }
    }
  }

  /** The constructor's two steps. */
  method StartPhpReader(dec: FileDecryptor, inner: Source) returns (r: Result<PhpReader, FileError>)
    requires Coherent(dec.View()) && dec.state.AtVersion?
    modifies dec, inner
    ensures var ahead := old(Deliver(Run(dec.cipher, dec.View(), inner.rest)));
            match r
            case Err(e) => ahead == Delivery([], Some(e))
            case Ok(reader) =>
              && fresh(reader) && reader.dec == dec && reader.inner == inner && reader.Valid()
              && !reader.started && reader.Ahead() == ahead
  {
    var reader := new PhpReader(dec, inner);
    var plaintext := new byte[CHUNK_BYTES];
    var n, finished := StepCodec(dec, inner, plaintext);
    if n.Err? {
      return Err(n.error);
    }
    n, finished := StepCodec(dec, inner, plaintext);
    if n.Err? {
      return Err(n.error);
    }
    return Ok(reader);
  }

  // ----- JavaScript: the input arrives in pieces

  /** One step of a run does not depend on bytes that arrive later. */
  lemma RunStep(c: Cipher, d: Decoder, input: Bytes, future: Bytes)
    requires !d.state.Done? && NextLen(d) <= |input|
    ensures var r := Step(c, d, input[..NextLen(d)]);
            Run(c, d, input + future) ==
            if r.Ok? then Prepend(r.value.1, Run(c, r.value.0, input[NextLen(d)..] + future))
            else Outcome([], Err(r.error))
  {
    var want := NextLen(d);
    assert (input + future)[..want] == input[..want];
    assert (input + future)[want..] == input[want..] + future;
  }

  lemma JoinedPrepend(pushed: seq<Bytes>, p: Bytes, rest: Outcome)
    ensures Joined(pushed, Prepend(p, rest)) == Joined(if p == [] then pushed else pushed + [p], rest)
  {
    assert pushed + ([p] + rest.fed) == pushed + [p] + rest.fed;
  }

  /** The same, seen from everything pushed so far. */
  lemma JoinedStep(c: Cipher, pushed: seq<Bytes>, d: Decoder, input: Bytes, future: Bytes)
    requires !d.state.Done? && NextLen(d) <= |input|
    ensures var r, whole := Step(c, d, input[..NextLen(d)]), Joined(pushed, Run(c, d, input + future));
            if r.Err? then whole == Outcome(pushed, Err(r.error))
            else whole == Joined(if r.value.1 == [] then pushed else pushed + [r.value.1],
                                 Run(c, r.value.0, input[NextLen(d)..] + future))
  {
    RunStep(c, d, input, future);
    var r := Step(c, d, input[..NextLen(d)]);
    if r.Ok? {
      JoinedPrepend(pushed, r.value.1, Run(c, r.value.0, input[NextLen(d)..] + future));
    } else {
      assert pushed + [] == pushed;
    }
  }

  /** Once the prefix has arrived, what follows does not change how it opens. */
  lemma RunPrefixedSplit(c: Cipher, size: nat, open: Bytes -> Option<Bytes>, input: Bytes, future: Bytes)
    requires size <= |input|
    ensures var key, whole := open(input[..size]), RunPrefixed(c, size, open, input + future);
            if key.None? then whole == Outcome([], Err(PrefixRefused))
            else whole == Joined([], Run(c, NewDecoder(key.value), input[size..] + future))
  {
    assert (input + future)[..size] == input[..size];
    assert (input + future)[size..] == input[size..] + future;
  }

  /** With `pushed` out, `rest` buffered and the codec at `d`, the stream comes to `whole` of whatever
      is still to arrive. */
  ghost predicate ComesTo(c: Cipher, pushed: seq<Bytes>, d: Decoder, rest: Bytes, whole: Bytes -> Outcome) {
    forall future :: Joined(pushed, Run(c, d, rest + future)) == whole(future)
  }

  class JsReader {
    const cipher: Cipher
    const prefixBytes: nat
    const open: Bytes -> Option<Bytes>
    var dec: FileDecryptor?
    var buf: Bytes
    var pushed: seq<Bytes>

    ghost predicate Consistent()
      reads this, dec
    {
      && (dec != null ==> dec.cipher == cipher && Coherent(dec.View()) && !dec.state.Done?)
      && (dec == null ==> pushed == [])
    }

    /** Between calls, what is buffered is not yet enough for the next step. */
    ghost predicate Valid()
      reads this, dec
    {
      Consistent() && |buf| < if dec == null then prefixBytes else NextLen(dec.View())
    }

    /** What the whole stream comes to if exactly the bytes `future` are still to arrive. */
    ghost function Whole(future: Bytes): Outcome
      reads this, dec
    {
      if dec == null then RunPrefixed(cipher, prefixBytes, open, buf + future)
      else Joined(pushed, Run(cipher, dec.View(), buf + future))
    }

    constructor WithKey(cipher: Cipher, key: Bytes)
      ensures Valid() && fresh(dec) && this.cipher == cipher && dec.View() == NewDecoder(key) && buf == []
              && pushed == []
    {
      this.cipher, prefixBytes, open := cipher, 0, _ => None;
      dec := new FileDecryptor(cipher, key);
      buf, pushed := [], [];
    }

    constructor WithPrefix(cipher: Cipher, prefixBytes: nat, open: Bytes -> Option<Bytes>)
      requires prefixBytes > 0
      ensures Valid() && dec == null && buf == [] && pushed == []
      ensures this.cipher == cipher && this.prefixBytes == prefixBytes && this.open == open
    {
      this.cipher, this.prefixBytes, this.open := cipher, prefixBytes, open;
      dec, buf, pushed := null, [], [];
    }

    /** `_transform`: collects the prefix, opens the codec, and feeds whatever is complete. */
    method Transform(chunk: Bytes) returns (err: Option<FileError>)
      requires Valid()
      modifies this, dec
      ensures dec == old(dec) || (old(dec) == null && fresh(dec))
      ensures err.None? ==> Valid() && forall future :: Whole(future) == old(Whole(chunk + future))
      ensures err.Some? ==> forall future :: old(Whole(chunk + future)) == Outcome(pushed, Err(err.value))
    {
      forall future
        ensures old(buf) + (chunk + future) == buf + chunk + future
      {
      }
      buf := buf + chunk;
      ghost var before := buf;
      if dec == null {
        if |buf| < prefixBytes {
          return None;
        }
        var key := open(buf[..prefixBytes]);
        if key.None? {
          forall future
            ensures old(Whole(chunk + future)) == Outcome(pushed, Err(PrefixRefused))
          {
            RunPrefixedSplit(cipher, prefixBytes, open, before, future);
          }
          return Some(PrefixRefused);
        }
        dec := new FileDecryptor(cipher, key.value);
        buf := buf[prefixBytes..];
        forall future
          ensures Whole(future) == old(Whole(chunk + future))
        {
          RunPrefixedSplit(cipher, prefixBytes, open, before, future);
        }
      }
      ghost var c, d, rest, fed := cipher, dec.View(), buf, pushed;
      ghost var whole := future => Joined(fed, Run(c, d, rest + future));
      assert forall future :: whole(future) == old(Whole(chunk + future));
      err := FeedComplete(whole);
    }

    /** Feeds the next step, which is complete, and pushes what it releases. */
    method FeedNext(pos: nat, want: nat, plaintext: array<byte>, ghost whole: Bytes -> Outcome)
      returns (err: Option<FileError>)
      requires Consistent() && dec != null && want == NextLen(dec.View()) && pos + want <= |buf|
      requires ComesTo(cipher, pushed, dec.View(), buf[pos..], whole) && plaintext.Length == CHUNK_BYTES
      modifies this`pushed, dec, plaintext
      ensures err.None? ==> Consistent() && ComesTo(cipher, pushed, dec.View(), buf[pos + want..], whole)
      ensures err.Some? ==> forall future :: whole(future) == Outcome(pushed, Err(err.value))
    {
      ghost var d, rest, before := dec.View(), buf[pos..], pushed;
      assert rest[..want] == buf[pos..pos + want] && rest[want..] == buf[pos + want..];
      var n := dec.Feed(buf[pos..pos + want], plaintext);
      forall future
        ensures Joined(before, Run(cipher, d, rest + future)) == whole(future)
        ensures n.Err? ==> whole(future) == Outcome(before, Err(n.error))
      {
        JoinedStep(cipher, before, d, rest, future);
      }
      if n.Err? {
        return Some(n.error);
      }
      if n.value > 0 {
        pushed := pushed + [plaintext[..n.value]];
      }
      forall future
        ensures Joined(pushed, Run(cipher, dec.View(), rest[want..] + future)) == whole(future)
      {
        JoinedStep(cipher, before, d, rest, future);
      }
      return None;
    }

    /** The loop of `_transform`. */
    method FeedComplete(ghost whole: Bytes -> Outcome) returns (err: Option<FileError>)
      requires Consistent() && dec != null && ComesTo(cipher, pushed, dec.View(), buf, whole)
      modifies this, dec
      ensures dec == old(dec)
      ensures err.None? ==> Valid() && ComesTo(cipher, pushed, dec.View(), buf, whole)
      ensures err.Some? ==> forall future :: whole(future) == Outcome(pushed, Err(err.value))
    {
      var pos: nat := 0;
      var want := dec.NextLength();
      var plaintext := new byte[CHUNK_BYTES];
      ghost var rest := buf;
      assert buf[0..] == buf;
      while |buf| - pos >= want
        invariant pos <= |buf| && buf == old(buf) && dec == old(dec) && Consistent() && want == NextLen(dec.View())
        invariant rest == buf[pos..] && ComesTo(cipher, pushed, dec.View(), rest, whole)
        decreases |buf| - pos
      {
        err := FeedNext(pos, want, plaintext, whole);
        if err.Some? {
          return;
        }
        rest := buf[pos + want..];
        pos := pos + want;
        want := dec.NextLength();
      }
      buf := buf[pos..];
      err := None;
    }

    /** `_flush`: the input has ended. */
    method Flush() returns (err: Option<FileError>)
      requires Valid()
      modifies this, dec
      ensures err.Some? ==> old(Whole([])) == Outcome(pushed, Err(err.value)) && pushed == old(pushed)
      ensures err.None? ==> var last := old(Whole([])).verdict;
                            && last.Ok? && old(Whole([])).fed == old(pushed)
                            && pushed == old(pushed) + if last.value == [] then [] else [last.value]
    {
      assert buf + [] == buf;
      if dec == null {
        return Some(PrefixTooShort);
      }
      var plaintext := new byte[CHUNK_BYTES];
      var n := dec.Finish(plaintext);
      if n.Err? {
        return Some(n.error);
      }
      if n.value > 0 {
        pushed := pushed + [plaintext[..n.value]];
      }
      err := None;
    }
  }
}
