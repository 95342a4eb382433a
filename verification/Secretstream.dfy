/** One `crypto_secretstream` session: the chunk counter, the finalized flag, rekeying, and the
    push/pull pair. The block cipher and the key derivations stay abstract: they are a record of
    functions, constrained only by the laws of `Lawful`. */
module Secretstream {
  import opened Bytes

  const AUTH_TAG_BYTES: nat := 16
  /** The chunk counter is a u64 that may never wrap, so a session carries this many chunks. */
  const MAX_RECORDS: nat := 0xFFFF_FFFF_FFFF_FFFF

  /** Why a stream was rejected, or a call refused. The last two are the readers' own: the input
      ended inside the bytes in front of the stream file, or those bytes did not open. */
  datatype FileError =
    | UnsupportedVersion(version: byte)
    | Truncated
    | ChunkTooLarge(declared: nat)
    | BadChunkLength(declared: nat)
    | UnknownTag
    | TrailingData
    | Auth
    | Finished
    | InvalidLength
    | CounterExhausted
    | PrefixTooShort
    | PrefixRefused

  datatype Tag = Message | Push | Rekey | Final {
    function ToByte(): (b: byte)
      ensures TagOf(b) == Some(this)
    {
      match this
      case Message => 0
      case Push => 1
      case Rekey => 2
      case Final => 3
    }
  }

  function TagOf(b: byte): (tag: Option<Tag>)
    ensures tag.Some? <==> b < 4
  {
    if b == 0 then Some(Message)
    else if b == 1 then Some(Push)
    else if b == 2 then Some(Rekey)
    else if b == 3 then Some(Final)
    else None
  }

  datatype Sealed = Sealed(ciphertext: Bytes, authTag: Bytes)

  /** `subkey(key, header)` and `rekey(subkey)` are the two derivations. `encrypt` takes the subkey,
      the counter, the tag byte and the plaintext; `decrypt` the same with ciphertext and auth tag. */
  datatype Primitives = Primitives(
    subkey: (Bytes, Bytes) -> Bytes,
    rekey: Bytes -> Bytes,
    encrypt: (Bytes, nat, byte, Bytes) -> Sealed,
    decrypt: (Bytes, nat, byte, Bytes, Bytes) -> Option<Bytes>)

  /** Encryption keeps the length and appends a 16-byte tag, decryption undoes it, and whatever
      decryption accepts it returns at the ciphertext's length. Nothing is said about forgeries. */
  ghost predicate Lawful(p: Primitives) {
    && (forall k, i, t, m ::
          var s := p.encrypt(k, i, t, m);
          |s.ciphertext| == |m| && |s.authTag| == AUTH_TAG_BYTES
            && p.decrypt(k, i, t, s.ciphertext, s.authTag) == Some(m))
    && (forall k, i, t, x, a :: p.decrypt(k, i, t, x, a).Some? ==> |p.decrypt(k, i, t, x, a).value| == |x|)
  }

  function NullCipher(): (p: Primitives)
    ensures Lawful(p)
  {
    Primitives((k, _) => k, k => k, (_, _, _, m) => Sealed(m, Zeros(AUTH_TAG_BYTES)),
               (_, _, _, x, a) => if a == Zeros(AUTH_TAG_BYTES) then Some(x) else None)
  }

  type Cipher = p: Primitives | Lawful(p) witness NullCipher()

  /** The state of either end of a stream; `PushState` and `PullState` have the same fields. */
  datatype Session = Session(subkey: Bytes, counter: nat, finalized: bool)

  function StartSession(c: Cipher, key: Bytes, header: Bytes): Session {
    Session(c.subkey(key, header), 0, false)
  }

  function AfterChunk(c: Cipher, s: Session, tag: Tag): Session {
    Session(if tag.Rekey? then c.rekey(s.subkey) else s.subkey, s.counter + 1, tag.Final?)
  }

  function PushChunk(c: Cipher, s: Session, tag: Tag, plaintext: Bytes): Result<(Session, Sealed), FileError> {
    if s.finalized then Err(Finished)
    else if s.counter >= MAX_RECORDS then Err(CounterExhausted)
    else Ok((AfterChunk(c, s, tag), c.encrypt(s.subkey, s.counter, tag.ToByte(), plaintext)))
  }

  function PullChunk(c: Cipher, s: Session, tagByte: byte, ciphertext: Bytes,
                     authTag: Bytes): (r: Result<(Session, Bytes), FileError>)
    ensures r.Ok? ==> TagOf(tagByte).Some? && |authTag| == AUTH_TAG_BYTES && |r.value.1| == |ciphertext|
    ensures r.Ok? ==> !s.finalized && r.value.0 == AfterChunk(c, s, TagOf(tagByte).value)
  {
    if s.finalized then Err(Finished)
    else if TagOf(tagByte).None? then Err(UnknownTag)
    else if |authTag| != AUTH_TAG_BYTES then Err(InvalidLength)
    else if s.counter >= MAX_RECORDS then Err(CounterExhausted)
    else match c.decrypt(s.subkey, s.counter, tagByte, ciphertext, authTag)
      case None => Err(Auth)
      case Some(plaintext) => Ok((AfterChunk(c, s, TagOf(tagByte).value), plaintext))
  }

  /** A reader in the writer's state recovers each chunk and stays in the writer's state. */
  lemma PullUndoesPush(c: Cipher, s: Session, tag: Tag, plaintext: Bytes)
    requires PushChunk(c, s, tag, plaintext).Ok?
    ensures var (s', x) := PushChunk(c, s, tag, plaintext).value;
            && |x.ciphertext| == |plaintext| && |x.authTag| == AUTH_TAG_BYTES
            && PullChunk(c, s, tag.ToByte(), x.ciphertext, x.authTag) == Ok((s', plaintext))
  {
  }

  // ----- two calls in a row

  /** The tags on the wire. */
  lemma TagBytes()
    ensures Message.ToByte() == 0 && Push.ToByte() == 1 && Rekey.ToByte() == 2 && Final.ToByte() == 3
  {
  }

  /** After `Final` a push is refused. After any other tag it takes the next counter, under the
      rekeyed subkey if the tag was `Rekey` and under the same one if not. */
  lemma PushAfterPush(c: Cipher, s: Session, tag: Tag, p: Bytes, tag': Tag, p': Bytes)
    requires PushChunk(c, s, tag, p).Ok?
    ensures var next := PushChunk(c, PushChunk(c, s, tag, p).value.0, tag', p');
            if tag == Final then next == Err(Finished)
            else if s.counter + 1 >= 0xFFFF_FFFF_FFFF_FFFF then next == Err(CounterExhausted)
            else
              var subkey := if tag == Rekey then c.rekey(s.subkey) else s.subkey;
              next.Ok? && next.value.1 == c.encrypt(subkey, s.counter + 1, tag'.ToByte(), p')
  {
  }

  /** The same for pulls, on the tag bytes. */
  lemma PullAfterPull(c: Cipher, s: Session, tag: byte, x: Bytes, a: Bytes, tag': byte, x': Bytes, a': Bytes)
    requires PullChunk(c, s, tag, x, a).Ok? && tag' <= 3 && |a'| == 16
    ensures var next := PullChunk(c, PullChunk(c, s, tag, x, a).value.0, tag', x', a');
            if tag == 3 then next == Err(Finished)
            else if s.counter + 1 >= 0xFFFF_FFFF_FFFF_FFFF then next == Err(CounterExhausted)
            else
              var plain := c.decrypt(if tag == 2 then c.rekey(s.subkey) else s.subkey, s.counter + 1, tag', x', a');
              if plain.None? then next == Err(Auth) else next.Ok? && next.value.1 == plain.value
  {
  }
}
