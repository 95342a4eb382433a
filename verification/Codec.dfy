/** The stream-file codec: `FORMAT_VERSION || header (32) || records`, one record being
    `tag (1) || len (u32 LE) || ciphertext (len) || auth tag (16)`. The reading half is a state
    machine that the caller drives with `NextLen`, `Feed` and `Finish`. */
module Codec {
  import opened Bytes
  import opened Secretstream

  const FORMAT_VERSION: byte := 2
  const CHUNK_BYTES: nat := 8192
  const HEADER_BYTES: nat := 32
  const FILE_PREFIX_BYTES: nat := 1 + HEADER_BYTES
  const RECORD_HEAD_BYTES: nat := 1 + 4
  const RECORD_OVERHEAD_BYTES: nat := RECORD_HEAD_BYTES + AUTH_TAG_BYTES
  const MAX_RECORD_BYTES: nat := CHUNK_BYTES + RECORD_OVERHEAD_BYTES

  // ----- the wire

  datatype Record = Record(tagByte: byte, ciphertext: Bytes, authTag: Bytes)

  function RecordBytes(r: Record): (b: Bytes)
    ensures |b| == RECORD_HEAD_BYTES + |r.ciphertext| + |r.authTag|
  {
    [r.tagByte] + ToU32Le(|r.ciphertext|) + r.ciphertext + r.authTag
  }

  function FilePrefix(header: Bytes): Bytes {
    [FORMAT_VERSION] + header
  }

  function SealRecord(c: Cipher, s: Session, tag: Tag, plaintext: Bytes): Record {
    var x := c.encrypt(s.subkey, s.counter, tag.ToByte(), plaintext);
    Record(tag.ToByte(), x.ciphertext, x.authTag)
  }

  // ----- the writing half

  method CopyInto(out: array<byte>, at: nat, src: Bytes)
    requires at + |src| <= out.Length
    modifies out
    ensures out[..] == old(out[..])[..at] + src + old(out[..])[at + |src|..]
    ensures out[at..at + |src|] == src && out[..at] == old(out[..at]) && out[at + |src|..] == old(out[at + |src|..])
  {
    forall i | 0 <= i < |src| {
      out[at + i] := src[i];
    }
  }

  class FileEncryptor {
    const cipher: Cipher
    var session: Session

    constructor (cipher: Cipher, key: Bytes, header: Bytes)
      ensures this.cipher == cipher && session == StartSession(cipher, key, header)
    {
      this.cipher := cipher;
      session := StartSession(cipher, key, header);
    }

    /** Lays one record out in `out`. A refused call changes neither the session nor `out`. */
    method Seal(tag: Tag, plaintext: Bytes, out: array<byte>) returns (r: Result<nat, FileError>)
      modifies this, out
      ensures r.Ok? <==> && !old(session).finalized
                         && |plaintext| <= CHUNK_BYTES
                         && |plaintext| + RECORD_OVERHEAD_BYTES <= out.Length
                         && old(session).counter < MAX_RECORDS
      ensures r.Ok? ==> && r.value == |plaintext| + RECORD_OVERHEAD_BYTES
                        && out[..r.value] == RecordBytes(SealRecord(cipher, old(session), tag, plaintext))
                        && out[r.value..] == old(out[..])[r.value..]
                        && session == AfterChunk(cipher, old(session), tag)
      ensures r.Err? ==> session == old(session) && out[..] == old(out[..])
      ensures r.Err? ==> r.error == if old(session).finalized then Finished
                                    else if |plaintext| > CHUNK_BYTES
                                         || out.Length < |plaintext| + RECORD_OVERHEAD_BYTES then InvalidLength
                                    else CounterExhausted
    {
      if session.finalized {
        return Err(Finished);
      }
      var recordLen := |plaintext| + RECORD_OVERHEAD_BYTES;
      if |plaintext| > CHUNK_BYTES || out.Length < recordLen {
        return Err(InvalidLength);
      }
      match PushChunk(cipher, session, tag, plaintext)
      case Err(e) => return Err(e);
      case Ok((after, x)) =>
        CopyInto(out, 0, [tag.ToByte()] + ToU32Le(|plaintext|) + x.ciphertext + x.authTag);
        session := after;
        return Ok(recordLen);
    }
  }

  // ----- the reading half, as a value

  datatype State =
    | AtVersion
    | AtHeader
    | AtRecordHead
    | AtRecordBody(tagByte: byte, len: nat)
    | AfterFinal
    | Done

  /** `held` is the plaintext of a verified `Final` record, waiting for `Finish`. */
  datatype Decoder = Decoder(key: Bytes, session: Option<Session>, state: State, held: Bytes)

  function NewDecoder(key: Bytes): Decoder {
    Decoder(key, None, AtVersion, [])
  }

  function FailedDecoder(d: Decoder): Decoder {
    Decoder(Zeros(|d.key|), None, Done, [])
  }

  /** What every state reached from `NewDecoder` satisfies. */
  predicate Coherent(d: Decoder) {
    && |d.held| <= CHUNK_BYTES
    && (d.state.AtRecordHead? || d.state.AtRecordBody? ==> d.session.Some?)
    && (d.state.AtRecordBody? ==>
        d.state.len <= CHUNK_BYTES && (d.state.tagByte != Final.ToByte() ==> d.state.len == CHUNK_BYTES))
  }

  function NextLen(d: Decoder): nat {
    match d.state
    case AtVersion => 1
    case AtHeader => HEADER_BYTES
    case AtRecordHead => RECORD_HEAD_BYTES
    case AtRecordBody(_, len) => len + AUTH_TAG_BYTES
    case AfterFinal => 1
    case Done => 0
  }

  /** One accepted input of exactly `NextLen` bytes: the next state and the plaintext it releases. */
  function Step(c: Cipher, d: Decoder, input: Bytes): (r: Result<(Decoder, Bytes), FileError>)
    requires |input| == NextLen(d)
    ensures r.Ok? && Coherent(d) ==> Coherent(r.value.0)
    ensures r.Ok? ==> !r.value.0.state.Done?
    ensures r.Ok? && Coherent(d) && r.value.1 != [] ==> |r.value.1| == CHUNK_BYTES
    ensures r.Ok? && !d.state.AtRecordBody? ==> r.value.1 == []
    ensures r.Ok? && d.state.AtHeader? ==> forall i :: 0 <= i < |r.value.0.key| ==> r.value.0.key[i] == 0
  {
    match d.state
    case AtVersion =>
      if input[0] != FORMAT_VERSION then Err(UnsupportedVersion(input[0]))
      else Ok((d.(state := AtHeader), []))
    case AtHeader =>
      Ok((Decoder(Zeros(|d.key|), Some(StartSession(c, d.key, input)), AtRecordHead, d.held), []))
    case AtRecordHead =>
      var tagByte, len := input[0], FromU32Le(input[1..5]);
      if len > CHUNK_BYTES then Err(ChunkTooLarge(len))
      else if TagOf(tagByte).None? then Err(UnknownTag)
      else if !TagOf(tagByte).value.Final? && len != CHUNK_BYTES then Err(BadChunkLength(len))
      else Ok((d.(state := AtRecordBody(tagByte, len)), []))
    case AtRecordBody(tagByte, len) =>
      if d.session.None? then Err(Finished)
      else (match PullChunk(c, d.session.value, tagByte, input[..len], input[len..])
            case Err(e) => Err(e)
            case Ok((s, plaintext)) =>
              if tagByte == Final.ToByte() then Ok((Decoder(d.key, Some(s), AfterFinal, plaintext), []))
              else Ok((d.(session := Some(s), state := AtRecordHead), plaintext)))
    case AfterFinal => Err(TrailingData)
    case Done => Err(Finished)
  }

  /** The plaintext released at end of input, or why there is none. */
  function FinishResult(d: Decoder): Result<Bytes, FileError> {
    match d.state
    case Done => Err(Finished)
    case AfterFinal => Ok(d.held)
    case _ => Err(Truncated)
  }

  /** What a whole read comes to: the chunks `Feed` released, in order, and then either the `Final`
      chunk (released by `Finish`) or the error that ended it. */
  datatype Outcome = Outcome(fed: seq<Bytes>, verdict: Result<Bytes, FileError>) {
    function Released(): Bytes {
      Flatten(fed) + if verdict.Ok? then verdict.value else []
    }
  }

  function Prepend(p: Bytes, o: Outcome): Outcome {
    if p == [] then o else Outcome([p] + o.fed, o.verdict)
  }

  /** A run that releases `fed` and then goes on as `rest`. */
  function Joined(fed: seq<Bytes>, rest: Outcome): Outcome {
    Outcome(fed + rest.fed, rest.verdict)
  }

  /** The reading contract: feed `NextLen` bytes as long as they are there, then finish. */
  function Run(c: Cipher, d: Decoder, input: Bytes): Outcome
    decreases |input|
  {
    var want := NextLen(d);
    if d.state.Done? then Outcome([], Err(Finished))
    else if |input| < want then Outcome([], FinishResult(d))
    else match Step(c, d, input[..want])
      case Err(e) => Outcome([], Err(e))
      case Ok((d', p)) => Prepend(p, Run(c, d', input[want..]))
  }

  /** A read whose stream file follows `size` other bytes; `open` turns those into the stream key. */
  function RunPrefixed(c: Cipher, size: nat, open: Bytes -> Option<Bytes>, input: Bytes): Outcome {
    if |input| < size then Outcome([], Err(PrefixTooShort))
    else match open(input[..size])
      case None => Outcome([], Err(PrefixRefused))
      case Some(key) => Run(c, NewDecoder(key), input[size..])
  }

  // ----- the reading half, as the object the bindings hold

  class FileDecryptor {
    const cipher: Cipher
    var key: Bytes
    var session: Option<Session>
    var state: State
    var finalPlaintext: Bytes

    ghost function View(): Decoder
      reads this
    {
      Decoder(key, session, state, finalPlaintext)
    }

    constructor (cipher: Cipher, key: Bytes)
      ensures this.cipher == cipher && View() == NewDecoder(key) && Coherent(View())
    {
      this.cipher := cipher;
      this.key, session, state, finalPlaintext := key, None, AtVersion, [];
    }

    function NextLength(): (n: nat)
      reads this
      ensures n == NextLen(View())
      ensures n == 0 <==> state.Done?
      ensures Coherent(View()) ==> n <= CHUNK_BYTES + AUTH_TAG_BYTES
    {
      match state
      case AtVersion => 1
      case AtHeader => HEADER_BYTES
      case AtRecordHead => RECORD_HEAD_BYTES
      case AtRecordBody(_, len) => len + AUTH_TAG_BYTES
      case AfterFinal => 1
      case Done => 0
    }

    /** Consumes exactly `NextLen` bytes and writes the released plaintext to the start of `out`.
        A refused call is ignored; any other error fails the decryptor for good, and then no byte
        of `out` holds unverified plaintext. */
    method Feed(input: Bytes, out: array<byte>) returns (r: Result<nat, FileError>)
      requires Coherent(View())
      modifies this, out
      ensures Coherent(View())
      ensures old(state).Done? ==> r == Err(Finished) && View() == old(View()) && out[..] == old(out[..])
      ensures !old(state).Done? && (|input| != NextLen(old(View())) || out.Length < CHUNK_BYTES) ==>
                r == Err(InvalidLength) && View() == old(View()) && out[..] == old(out[..])
      ensures !old(state).Done? && |input| == NextLen(old(View())) && CHUNK_BYTES <= out.Length ==>
                match Step(cipher, old(View()), input)
                case Ok((d, p)) =>
                  && r == Ok(|p|) && |p| <= out.Length && View() == d && out[..|p|] == p
                  && out[|p|..] == old(out[..])[|p|..]
                case Err(e) =>
                  && r == Err(e) && View() == FailedDecoder(old(View()))
                  && forall i :: 0 <= i < out.Length ==> out[i] == old(out[i]) || out[i] == 0
    {
      if state.Done? {
        return Err(Finished);
      }
      var want := NextLength();
      if |input| != want || out.Length < CHUNK_BYTES {
        return Err(InvalidLength);
      }
      r := Advance(input, out);
      if r.Err? {
        Fail();
      }
    }

    method Advance(input: Bytes, out: array<byte>) returns (r: Result<nat, FileError>)
      requires Coherent(View()) && !state.Done? && |input| == NextLen(View()) && CHUNK_BYTES <= out.Length
      modifies this, out
      ensures |key| == |old(key)|
      ensures match Step(cipher, old(View()), input)
              case Ok((d, p)) =>
                && r == Ok(|p|) && |p| <= out.Length && View() == d && out[..|p|] == p
                && out[|p|..] == old(out[..])[|p|..]
              case Err(e) =>
                && r == Err(e) && View() == old(View())
                && forall i :: 0 <= i < out.Length ==> out[i] == old(out[i]) || out[i] == 0
    {
      match state
      case AtVersion =>
        if input[0] != FORMAT_VERSION {
          return Err(UnsupportedVersion(input[0]));
        }
        state := AtHeader;
        return Ok(0);
      case AtHeader =>
        session := Some(StartSession(cipher, key, input));
        key := Zeros(|key|);
        state := AtRecordHead;
        return Ok(0);
      case AtRecordHead =>
        var tagByte, declared := input[0], FromU32Le(input[1..5]);
        if declared > CHUNK_BYTES {
          return Err(ChunkTooLarge(declared));
        }
        var tag := TagOf(tagByte);
        if tag.None? {
          return Err(UnknownTag);
        }
        if !tag.value.Final? && declared != CHUNK_BYTES {
          return Err(BadChunkLength(declared));
        }
        state := AtRecordBody(tagByte, declared);
        return Ok(0);
      case AtRecordBody(tagByte, len) =>
        var ciphertext, authTag := input[..len], input[len..];
        match PullChunk(cipher, session.value, tagByte, ciphertext, authTag) {
          case Err(e) =>
            if e.Auth? && tagByte != Final.ToByte() {
              CopyInto(out, 0, Zeros(len));
            }
            return Err(e);
          case Ok((s, plaintext)) =>
            session := Some(s);
            if tagByte == Final.ToByte() {
              finalPlaintext := plaintext;
              state := AfterFinal;
              return Ok(0);
            }
            CopyInto(out, 0, plaintext);
            state := AtRecordHead;
            return Ok(len);
        }
      case AfterFinal =>
        return Err(TrailingData);
    }

    /** End of input: releases the held `Final` chunk, or reports that there is none. */
    method Finish(out: array<byte>) returns (r: Result<nat, FileError>)
      requires Coherent(View())
      modifies this, out
      ensures Coherent(View())
      ensures !old(state).Done? && out.Length < CHUNK_BYTES ==>
              r == Err(InvalidLength) && View() == old(View()) && out[..] == old(out[..])
      ensures old(state).Done? || CHUNK_BYTES <= out.Length ==>
                match FinishResult(old(View()))
                case Ok(p) => r == Ok(|p|) && |p| <= out.Length && out[..|p|] == p && out[|p|..] == old(out[..])[|p|..]
                case Err(e) => r == Err(e) && out[..] == old(out[..])
      ensures old(state).Done? || CHUNK_BYTES <= out.Length ==> state.Done?
    {
      if state.Done? {
        return Err(Finished);
      }
      if out.Length < CHUNK_BYTES {
        return Err(InvalidLength);
      }
      if state.AfterFinal? {
        var len := |finalPlaintext|;
        CopyInto(out, 0, finalPlaintext);
        Fail();
        return Ok(len);
      }
      Fail();
      return Err(Truncated);
    }

    /** Nothing of the key, the session or the held plaintext stays. */
    method Fail()
      modifies this
      ensures View() == FailedDecoder(old(View()))
      ensures state.Done? && session.None? && finalPlaintext == []
      ensures |key| == |old(key)| && forall i :: 0 <= i < |key| ==> key[i] == 0
    {
      state, session := Done, None;
      key := Zeros(|key|);
      finalPlaintext := [];
    }
  }
}
