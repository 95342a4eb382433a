/** `crypto_box` at its three widths: the exact sealed length under `usize` arithmetic, the one-call
    `seal` and `open`, and the C ABI around them, which checks capacities before any other work. */
module Box {
  import opened Bytes
  import opened Secretstream
  import opened Codec
  import opened Framing
  import opened Writers
  import opened Readers
  import opened Verdicts

  const BOX_VERSION: byte := 3

  datatype Width = Box256 | Box384 | Box512 {
    function KemBytes(): nat {
      match this
      case Box256 => 128
      case Box384 => 176
      case Box512 => 256
    }

    function OpenPrefixBytes(): nat {
      1 + KemBytes()
    }

    function SealPrefixBytes(): nat {
      OpenPrefixBytes() + FILE_PREFIX_BYTES
    }

    function MinOverhead(): nat {
      SealPrefixBytes() + RECORD_OVERHEAD_BYTES
    }
  }

  /** The literals of the C ABI. */
  lemma AbiConstants()
    ensures Box256.OpenPrefixBytes() == 129 && Box256.SealPrefixBytes() == 162 && Box256.MinOverhead() == 183
    ensures Box384.OpenPrefixBytes() == 177 && Box384.SealPrefixBytes() == 210 && Box384.MinOverhead() == 231
    ensures Box512.OpenPrefixBytes() == 257 && Box512.SealPrefixBytes() == 290 && Box512.MinOverhead() == 311
  {
  }

  // ----- lengths

  function CheckedAdd(a: Option<nat>, b: nat, usizeMax: nat): Option<nat> {
    if a.None? || a.value + b > usizeMax then None else Some(a.value + b)
  }

  function CheckedMul(a: nat, b: nat, usizeMax: nat): Option<nat> {
    if a * b > usizeMax then None else Some(a * b)
  }

  /** `sealed_len`: one record overhead per started chunk, at least one, in checked arithmetic. */
  function SealedLen(w: Width, messageLen: nat, usizeMax: nat): Option<nat> {
    var started := (messageLen + CHUNK_BYTES - 1) / CHUNK_BYTES;
    var records := if started < 1 then 1 else started;
    var overhead := CheckedMul(records, RECORD_OVERHEAD_BYTES, usizeMax);
    CheckedAdd(CheckedAdd(overhead, messageLen, usizeMax), w.SealPrefixBytes(), usizeMax)
  }

  lemma {:induction false} RecordCountIsCeiling(m: Bytes)
    ensures RecordCount(m) == if |m| == 0 then 1 else (|m| + CHUNK_BYTES - 1) / CHUNK_BYTES
    decreases |m|
  {
    if |m| > CHUNK_BYTES {
      RecordCountIsCeiling(m[CHUNK_BYTES..]);
    }
  }

  lemma {:induction false} RecordsLength(rs: seq<Record>, ps: seq<Bytes>)
    requires |rs| == |ps|
    requires forall i :: 0 <= i < |rs| ==> |rs[i].ciphertext| == |ps[i]| && |rs[i].authTag| == AUTH_TAG_BYTES
    ensures |RecordsBytes(rs)| == |Flatten(ps)| + RECORD_OVERHEAD_BYTES * |rs|
    decreases |rs|
  {
    if rs != [] {
      RecordsLength(rs[1..], ps[1..]);
    }
  }

  lemma FileLength(c: Cipher, key: Bytes, header: Bytes, m: Bytes)
    requires |header| == HEADER_BYTES
    ensures |FileOf(c, key, header, m)| == FILE_PREFIX_BYTES + |m| + RECORD_OVERHEAD_BYTES * RecordCount(m)
  {
    var cut := CutUp(m);
    CutIsUnique(cut.full, cut.last, m);
    RecordsLength(ChunkRecords(c, StartSession(c, key, header), cut.full), cut.full);
  }

  /** `SealedLen` is what a writer emits, or `None` exactly when that does not fit a `usize`. */
  lemma SealedLenIsExact(c: Cipher, w: Width, o: Origin, m: Bytes, usizeMax: nat)
    requires |o.lead| == w.OpenPrefixBytes() && |o.header| == HEADER_BYTES
    ensures var n := |o.Finished(c, m)|;
            SealedLen(w, |m|, usizeMax) == if n <= usizeMax then Some(n) else None
  {
    FileLength(c, o.key, o.header, m);
    RecordCountIsCeiling(m);
    SealedLenSum(w, |m|, RecordCount(m), usizeMax);
  }

  lemma SealedLenSum(w: Width, messageLen: nat, records: nat, usizeMax: nat)
    requires records == if messageLen == 0 then 1 else (messageLen + CHUNK_BYTES - 1) / CHUNK_BYTES
    ensures var n := w.SealPrefixBytes() + messageLen + RECORD_OVERHEAD_BYTES * records;
            SealedLen(w, messageLen, usizeMax) == if n <= usizeMax then Some(n) else None
  {
  }

  /** The sealed length determines the message length. */
  lemma SealedLenIncreases(w: Width, a: nat, b: nat, usizeMax: nat)
    requires a < b && SealedLen(w, b, usizeMax).Some?
    ensures SealedLen(w, a, usizeMax).Some? && SealedLen(w, a, usizeMax).value < SealedLen(w, b, usizeMax).value
  {
    assert (a + CHUNK_BYTES - 1) / CHUNK_BYTES <= (b + CHUNK_BYTES - 1) / CHUNK_BYTES;
  }

  // ----- opening

  datatype OpenError = SealedTruncated | SealedVersion | InvalidCiphertext

  /** `open_stream`'s reading of a prefix: the stream key, if the version and the KEM part are good. */
  function OpenPrefix(decapsulate: Bytes -> Option<Bytes>, prefix: Bytes): Option<Bytes> {
    if prefix == [] || prefix[0] != BOX_VERSION then None else decapsulate(prefix[1..])
  }

  function Collapse(o: Outcome): Result<Bytes, OpenError> {
    match o.verdict
    case Ok(_) => Ok(o.Released())
    case Err(e) => Err(if e.Truncated? then SealedTruncated else InvalidCiphertext)
  }

  function Open(c: Cipher, w: Width, decapsulate: Bytes -> Option<Bytes>, sealed: Bytes): Result<Bytes, OpenError> {
    if sealed == [] then Err(SealedTruncated)
    else if sealed[0] != BOX_VERSION then Err(SealedVersion)
    else if |sealed| < w.MinOverhead() then Err(SealedTruncated)
    else match OpenPrefix(decapsulate, sealed[..w.OpenPrefixBytes()])
      case None => Err(InvalidCiphertext)
      case Some(key) => Collapse(Run(c, NewDecoder(key), sealed[w.OpenPrefixBytes()..]))
  }

  // ----- the verdict of `open`, on the bytes of the blob

  /** The blob starts with version 3 and a KEM ciphertext that holds `key`. */
  predicate Carries(w: Width, decapsulate: Bytes -> Option<Bytes>, sealed: Bytes, key: Bytes) {
    |sealed| >= 1 + w.KemBytes() && sealed[0] == 3 && decapsulate(sealed[1..1 + w.KemBytes()]) == Some(key)
  }

  /** What follows the KEM ciphertext comes to `o` under the key it holds. */
  ghost predicate HoldsStream(c: Cipher, w: Width, decapsulate: Bytes -> Option<Bytes>, sealed: Bytes, o: Outcome) {
    && |sealed| >= 55 + w.KemBytes()
    && exists key :: Carries(w, decapsulate, sealed, key) && Comes(c, key, sealed[1 + w.KemBytes()..], o)
  }

  /** Nothing there, too short for version 3, or a stream that ends before its last record does. */
  ghost predicate IsCutOff(c: Cipher, w: Width, decapsulate: Bytes -> Option<Bytes>, sealed: Bytes) {
    || sealed == []
    || (sealed[0] == 3 && |sealed| < 55 + w.KemBytes())
    || exists fed :: HoldsStream(c, w, decapsulate, sealed, Outcome(fed, Err(Truncated)))
  }

  /** Long enough and of version 3, but the KEM ciphertext does not open, or the stream is refused for
      anything but its end. */
  ghost predicate IsTampered(c: Cipher, w: Width, decapsulate: Bytes -> Option<Bytes>, sealed: Bytes) {
    && |sealed| >= 55 + w.KemBytes() && sealed[0] == 3
    && (|| decapsulate(sealed[1..1 + w.KemBytes()]) == None
        || exists fed, e :: e != Truncated && HoldsStream(c, w, decapsulate, sealed, Outcome(fed, Err(e))))
  }

  lemma StreamOf(c: Cipher, w: Width, decapsulate: Bytes -> Option<Bytes>, sealed: Bytes, o: Outcome)
    requires |sealed| >= 55 + w.KemBytes() && sealed[0] == 3
    ensures var key := decapsulate(sealed[1..1 + w.KemBytes()]);
            HoldsStream(c, w, decapsulate, sealed, o)
            <==> key.Some? && o == Run(c, NewDecoder(key.value), sealed[1 + w.KemBytes()..])
  {
    var key := decapsulate(sealed[1..1 + w.KemBytes()]);
    if key.Some? {
      assert Carries(w, decapsulate, sealed, key.value);
      VerdictIsExact(c, key.value, sealed[1 + w.KemBytes()..], o);
    }
  }

  lemma OpenPastChecks(c: Cipher, w: Width, decapsulate: Bytes -> Option<Bytes>, sealed: Bytes)
    requires |sealed| >= 55 + w.KemBytes() && sealed[0] == 3
    ensures var key := decapsulate(sealed[1..1 + w.KemBytes()]);
            Open(c, w, decapsulate, sealed)
            == if key.None? then Err(InvalidCiphertext)
               else Collapse(Run(c, NewDecoder(key.value), sealed[1 + w.KemBytes()..]))
  {
    assert sealed[..1 + w.KemBytes()][1..] == sealed[1..1 + w.KemBytes()];
  }

  /** What the only outcome of a stream says of its blob. */
  lemma OneOutcome(c: Cipher, w: Width, decapsulate: Bytes -> Option<Bytes>, sealed: Bytes, o: Outcome)
    requires |sealed| >= 55 + w.KemBytes() && sealed[0] == 3
    requires forall o' :: HoldsStream(c, w, decapsulate, sealed, o') <==> o' == o
    ensures IsCutOff(c, w, decapsulate, sealed) <==> o.verdict == Err(Truncated)
    ensures IsTampered(c, w, decapsulate, sealed) <==>
            (o.verdict.Err? && o.verdict != Err(Truncated)) || decapsulate(sealed[1..1 + w.KemBytes()]) == None
  {
    assert HoldsStream(c, w, decapsulate, sealed, o);
    assert o == Outcome(o.fed, o.verdict);
    if o.verdict.Err? {
      assert o == Outcome(o.fed, Err(o.verdict.error));
    }
  }

  lemma NoOutcome(c: Cipher, w: Width, decapsulate: Bytes -> Option<Bytes>, sealed: Bytes)
    requires |sealed| >= 55 + w.KemBytes() && sealed[0] == 3
    requires forall o :: !HoldsStream(c, w, decapsulate, sealed, o)
    ensures !IsCutOff(c, w, decapsulate, sealed)
    ensures IsTampered(c, w, decapsulate, sealed) <==> decapsulate(sealed[1..1 + w.KemBytes()]) == None
  {
  }

  /** What a blob gives that `open` accepts. */
  ghost predicate HoldsMessage(c: Cipher, w: Width, decapsulate: Bytes -> Option<Bytes>, sealed: Bytes, m: Bytes) {
    exists fed, last :: HoldsStream(c, w, decapsulate, sealed, Outcome(fed, Ok(last))) && m == Flatten(fed) + last
  }

  lemma MessageHeld(c: Cipher, w: Width, decapsulate: Bytes -> Option<Bytes>, sealed: Bytes, o: Outcome)
    requires HoldsStream(c, w, decapsulate, sealed, o) && o.verdict.Ok?
    ensures HoldsMessage(c, w, decapsulate, sealed, o.Released())
  {
    assert o == Outcome(o.fed, Ok(o.verdict.value));
  }

  lemma OpenStreamIsExact(c: Cipher, w: Width, decapsulate: Bytes -> Option<Bytes>, sealed: Bytes)
    requires |sealed| >= 55 + w.KemBytes() && sealed[0] == 3
    ensures var r := Open(c, w, decapsulate, sealed);
            && r != Err(SealedVersion)
            && (r == Err(SealedTruncated) <==> IsCutOff(c, w, decapsulate, sealed))
            && (r == Err(InvalidCiphertext) <==> IsTampered(c, w, decapsulate, sealed))
            && (r.Ok? ==> HoldsMessage(c, w, decapsulate, sealed, r.value))
  {
    OpenPastChecks(c, w, decapsulate, sealed);
    var key := decapsulate(sealed[1..1 + w.KemBytes()]);
    forall o: Outcome {
      StreamOf(c, w, decapsulate, sealed, o);
    }
    if key.Some? {
      var o := Run(c, NewDecoder(key.value), sealed[1 + w.KemBytes()..]);
      OneOutcome(c, w, decapsulate, sealed, o);
      if o.verdict.Ok? {
        MessageHeld(c, w, decapsulate, sealed, o);
      }
    } else {
      NoOutcome(c, w, decapsulate, sealed);
    }
  }

  /** Which blobs `open` refuses with which error, and what it gives for the others. */
  lemma OpenIsExact(c: Cipher, w: Width, decapsulate: Bytes -> Option<Bytes>, sealed: Bytes)
    ensures var r := Open(c, w, decapsulate, sealed);
            && (r == Err(SealedVersion) <==> sealed != [] && sealed[0] != 3)
            && (r == Err(SealedTruncated) <==> IsCutOff(c, w, decapsulate, sealed))
            && (r == Err(InvalidCiphertext) <==> IsTampered(c, w, decapsulate, sealed))
            && (r.Ok? ==> HoldsMessage(c, w, decapsulate, sealed, r.value))
  {
    if |sealed| >= 55 + w.KemBytes() && sealed[0] == 3 {
      OpenStreamIsExact(c, w, decapsulate, sealed);
    }
  }

  /** Every accepted stream file, honest or not, spends exactly one overhead per record. */
  lemma AcceptedLength(c: Cipher, key: Bytes, file: Bytes)
    requires Run(c, NewDecoder(key), file).verdict.Ok?
    ensures var o := Run(c, NewDecoder(key), file);
            |file| == FILE_PREFIX_BYTES + |o.Released()| + RECORD_OVERHEAD_BYTES * (|o.fed| + 1)
  {
    var o := Run(c, NewDecoder(key), file);
    var t := AcceptedTranscript(c, key, file, Cut(o.fed, o.verdict.value));
    OpenedShapes(c, StartSession(c, key, t.header), t.chunks);
    RecordsLength(t.chunks, o.fed);
  }

  /** The buffer contract of `open`: whatever opens gives at most `|sealed| - MinOverhead` bytes,
      and that many exactly when it is a single record. */
  lemma OpenedLength(c: Cipher, w: Width, decapsulate: Bytes -> Option<Bytes>, sealed: Bytes)
    requires Open(c, w, decapsulate, sealed).Ok?
    ensures var n := |Open(c, w, decapsulate, sealed).value|;
            var key := OpenPrefix(decapsulate, sealed[..w.OpenPrefixBytes()]).value;
            var before := Run(c, NewDecoder(key), sealed[w.OpenPrefixBytes()..]).fed;
            && n + w.MinOverhead() + RECORD_OVERHEAD_BYTES * |before| == |sealed|
            && (n == |sealed| - w.MinOverhead() <==> before == [])
  {
    var key := OpenPrefix(decapsulate, sealed[..w.OpenPrefixBytes()]).value;
    AcceptedLength(c, key, sealed[w.OpenPrefixBytes()..]);
  }

  /** The one-call form accepts what the streaming form accepts, with the same plaintext. */
  lemma OpenAgreesWithStream(c: Cipher, w: Width, decapsulate: Bytes -> Option<Bytes>, sealed: Bytes, m: Bytes)
    ensures var o := RunPrefixed(c, w.OpenPrefixBytes(), p => OpenPrefix(decapsulate, p), sealed);
            Open(c, w, decapsulate, sealed) == Ok(m) <==> o.verdict.Ok? && o.Released() == m
  {
    var o := RunPrefixed(c, w.OpenPrefixBytes(), p => OpenPrefix(decapsulate, p), sealed);
    if o.verdict.Ok? {
      var prefix := sealed[..w.OpenPrefixBytes()];
      AcceptedLength(c, OpenPrefix(decapsulate, prefix).value, sealed[w.OpenPrefixBytes()..]);
      assert prefix[0] == sealed[0];
    }
  }

  /** What is sealed to a key opens under it. */
  lemma OpenUndoesSeal(c: Cipher, w: Width, decapsulate: Bytes -> Option<Bytes>, kem: Bytes, key: Bytes,
                       header: Bytes, m: Bytes)
    requires |kem| == w.KemBytes() && |header| == HEADER_BYTES && decapsulate(kem) == Some(key)
             && RecordCount(m) <= MAX_RECORDS
    ensures Open(c, w, decapsulate, Origin([BOX_VERSION] + kem, key, header).Finished(c, m)) == Ok(m)
  {
    var o := Origin([BOX_VERSION] + kem, key, header);
    var sealed := o.Finished(c, m);
    FileLength(c, key, header, m);
    assert sealed[..w.OpenPrefixBytes()] == o.lead && o.lead[1..] == kem;
    assert sealed[w.OpenPrefixBytes()..] == FileOf(c, key, header, m);
    RoundTrip(c, key, header, m);
  }

  /** With `plaintext` out and the codec at `d`, the rest of the file comes to `whole`. */
  ghost predicate OpensTo(c: Cipher, d: Decoder, rest: Bytes, plaintext: Bytes, whole: Delivery) {
    After(plaintext, Deliver(Run(c, d, rest))) == whole
  }

  /** A step that the rest of the file has the bytes for. */
  lemma OpenStep(c: Cipher, d: Decoder, rest: Bytes, plaintext: Bytes, whole: Delivery)
    requires !d.state.Done? && NextLen(d) <= |rest| && OpensTo(c, d, rest, plaintext, whole)
    ensures var r := Step(c, d, rest[..NextLen(d)]);
            if r.Err? then whole.error == Some(r.error)
            else OpensTo(c, r.value.0, rest[NextLen(d)..], plaintext + r.value.1, whole)
  {
    DeliverStep(c, d, rest);
    var r := Step(c, d, rest[..NextLen(d)]);
    if r.Ok? {
      AfterAfter(plaintext, r.value.1, Deliver(Run(c, r.value.0, rest[NextLen(d)..])));
    }
  }

  /** And one that would run past the end finishes instead. */
  lemma OpenEnd(c: Cipher, d: Decoder, rest: Bytes, plaintext: Bytes, whole: Delivery)
    requires !d.state.Done? && |rest| < NextLen(d) && OpensTo(c, d, rest, plaintext, whole)
    ensures var r := FinishResult(d);
            if r.Err? then whole.error == Some(r.error) else whole == Delivery(plaintext + r.value, None)
  {
    DeliverStep(c, d, rest);
    if FinishResult(d).Ok? {
      AfterAfter(plaintext, FinishResult(d).value, EndOfStream);
      assert plaintext + FinishResult(d).value + [] == plaintext + FinishResult(d).value;
    }
  }

  /** `open_all`: the reading contract over a file in memory. */
  method OpenAll(dec: FileDecryptor, file: Bytes) returns (r: Result<Bytes, FileError>)
    requires Coherent(dec.View()) && !dec.state.Done?
    modifies dec
    ensures var whole := old(Deliver(Run(dec.cipher, dec.View(), file)));
            if r.Ok? then whole == Delivery(r.value, None) else whole.error == Some(r.error)
  {
    ghost var whole := Deliver(Run(dec.cipher, dec.View(), file));
    assert [] + whole.bytes == whole.bytes;
    r := OpenLoop(dec, file, whole);
  }

  method OpenLoop(dec: FileDecryptor, file: Bytes, ghost whole: Delivery) returns (r: Result<Bytes, FileError>)
    requires Coherent(dec.View()) && !dec.state.Done? && OpensTo(dec.cipher, dec.View(), file, [], whole)
    modifies dec
    ensures if r.Ok? then whole == Delivery(r.value, None) else whole.error == Some(r.error)
  {
    var chunk := new byte[CHUNK_BYTES];
    var plaintext: Bytes := [];
    var pos: nat := 0;
    ghost var rest := file;
    while true
      invariant pos <= |file| && rest == file[pos..] && Coherent(dec.View()) && !dec.state.Done?
      invariant OpensTo(dec.cipher, dec.View(), rest, plaintext, whole)
      decreases |file| - pos
    {
      ghost var d := dec.View();
      var want := dec.NextLength();
      if pos + want > |file| {
        OpenEnd(dec.cipher, d, rest, plaintext, whole);
        var n := dec.Finish(chunk);
        if n.Err? {
          return Err(n.error);
        }
        assert chunk[..n.value] == FinishResult(d).value;
        return Ok(plaintext + chunk[..n.value]);
      }
      OpenStep(dec.cipher, d, rest, plaintext, whole);
      ghost var stepped := Step(dec.cipher, d, rest[..want]);
      assert rest[..want] == file[pos..pos + want];
      var n := dec.Feed(file[pos..pos + want], chunk);
      if n.Err? {
        return Err(n.error);
      }
      assert chunk[..n.value] == stepped.value.1;
      plaintext := plaintext + chunk[..n.value];
      pos, rest := pos + want, rest[want..];
    }
  }

  method OpenInMemory(c: Cipher, w: Width, decapsulate: Bytes -> Option<Bytes>, sealed: Bytes)
    returns (r: Result<Bytes, OpenError>)
    ensures r == Open(c, w, decapsulate, sealed)
  {
    if sealed == [] {
      return Err(SealedTruncated);
    }
    if sealed[0] != BOX_VERSION {
      return Err(SealedVersion);
    }
    if |sealed| < w.MinOverhead() {
      return Err(SealedTruncated);
    }
    var prefix, file := sealed[..w.OpenPrefixBytes()], sealed[w.OpenPrefixBytes()..];
    var key := OpenPrefix(decapsulate, prefix);
    if key.None? {
      return Err(InvalidCiphertext);
    }
    var dec := new FileDecryptor(c, key.value);
    var outcome := OpenAll(dec, file);
    match outcome
    case Ok(m) => r := Ok(m);
    case Err(e) => r := Err(if e.Truncated? then SealedTruncated else InvalidCiphertext);
  }

  // ----- the C ABI

  datatype Status = StatusOk | RandomFailed | TagMismatch | TooShort | BufferTooSmall | UnsupportedBoxVersion

  /** `dstu_box*_open`, its status stated on the bytes of `sealed` and its effect through `Open`. The
      copy is in bounds for every input, because the capacity check came first; a buffer of
      `|sealed| - MinOverhead` bytes (0 if negative) is never too small. */
  method AbiOpen(c: Cipher, w: Width, decapsulate: Bytes -> Option<Bytes>, sealed: Bytes, out: array<byte>)
    returns (status: Status, len: nat)
    modifies out
    ensures var fits := |sealed| <= out.Length + 55 + w.KemBytes();
            && (status == BufferTooSmall <==> !fits)
            && (status == TagMismatch <==> fits && IsTampered(c, w, decapsulate, sealed))
            && (status == TooShort <==> fits && IsCutOff(c, w, decapsulate, sealed))
            && (status == UnsupportedBoxVersion <==> fits && sealed != [] && sealed[0] != 3)
            && status != RandomFailed
    ensures status == StatusOk ==>
              var r := Open(c, w, decapsulate, sealed);
              && r.Ok? && HoldsMessage(c, w, decapsulate, sealed, r.value)
              && len == |r.value| <= out.Length && out[..] == r.value + old(out[..])[len..]
    ensures status == TagMismatch ==> out[..] == Zeros(out.Length)
    ensures status != StatusOk && status != TagMismatch ==> out[..] == old(out[..])
  {
    OpenIsExact(c, w, decapsulate, sealed);
    status, len := OpenInto(c, w, decapsulate, sealed, out);
  }

  /** The body of `dstu_box*_open`. */
  method OpenInto(c: Cipher, w: Width, decapsulate: Bytes -> Option<Bytes>, sealed: Bytes, out: array<byte>)
    returns (status: Status, len: nat)
    modifies out
    ensures status == BufferTooSmall <==> out.Length + w.MinOverhead() < |sealed|
    ensures status == BufferTooSmall ==> out[..] == old(out[..])
    ensures status != BufferTooSmall ==>
              match Open(c, w, decapsulate, sealed)
              case Ok(m) => status == StatusOk && len == |m| <= out.Length && out[..] == m + old(out[..])[|m|..]
              case Err(InvalidCiphertext) => status == TagMismatch && out[..] == Zeros(out.Length)
              case Err(SealedVersion) => status == UnsupportedBoxVersion && out[..] == old(out[..])
              case Err(SealedTruncated) => status == TooShort && out[..] == old(out[..])
  {
    len := 0;
    var required := if |sealed| < w.MinOverhead() then 0 else |sealed| - w.MinOverhead();
    if out.Length < required {
      return BufferTooSmall, 0;
    }
    var outcome := OpenInMemory(c, w, decapsulate, sealed);
    match outcome
    case Ok(m) =>
      OpenedLength(c, w, decapsulate, sealed);
      CopyInto(out, 0, m);
      return StatusOk, |m|;
    case Err(InvalidCiphertext) =>
      CopyInto(out, 0, Zeros(out.Length));
      return TagMismatch, 0;
    case Err(SealedVersion) =>
      return UnsupportedBoxVersion, 0;
    case Err(SealedTruncated) =>
      return TooShort, 0;
  }

  /** The random draws of a seal: the KEM ciphertext, the stream key it wraps, and the header. */
  datatype Draw = Draw(kem: Bytes, key: Bytes, header: Bytes) {
    function Start(): Origin {
      Origin([BOX_VERSION] + kem, key, header)
    }
  }

  /** `seal`: the prefix, then `seal_all`'s loop. */
  method SealInMemory(c: Cipher, o: Origin, message: Bytes) returns (sealed: Bytes)
    requires RecordCount(message) <= MAX_RECORDS
    ensures sealed == o.Finished(c, message)
  {
    var enc := new FileEncryptor(c, o.key, o.header);
    var out := new Sink();
    out.Append(o.Prefix());
    var record := new byte[MAX_RECORD_BYTES];
    assert [] + message[0..] == message;
    var pos, err := SealWhileLonger(enc, message, 0, record, out, o, [], [], message);
    assert [] + message[pos..] == message[pos..];
    err := SealFinal(enc, message[pos..], record, out, o, message);
    sealed := out.data;
  }

  /** `dstu_box*_seal`. The output is written only if all of it fits, and fills exactly `SealedLen`. */
  method AbiSeal(c: Cipher, w: Width, draw: Option<Draw>, message: Bytes, usizeMax: nat, out: array<byte>)
    returns (status: Status, len: nat)
    requires |message| <= usizeMax <= 0xFFFF_FFFF_FFFF_FFFF && out.Length <= usizeMax
    requires draw.Some? ==> |draw.value.kem| == w.KemBytes() && |draw.value.header| == HEADER_BYTES
    modifies out
    ensures var required := SealedLen(w, |message|, usizeMax);
            && (status == BufferTooSmall <==> required.None? || out.Length < required.value)
            && (status == RandomFailed <==> required.Some? && required.value <= out.Length && draw.None?)
            && (status == StatusOk <==> required.Some? && required.value <= out.Length && draw.Some?)
            && (status == StatusOk ==>
                len == required.value && out[..] == draw.value.Start().Finished(c, message) + old(out[..])[len..])
            && (status != StatusOk ==> out[..] == old(out[..]))
  {
    len := 0;
    var required := SealedLen(w, |message|, usizeMax);
    if required.None? {
      return BufferTooSmall, 0;
    }
    if out.Length < required.value {
      return BufferTooSmall, 0;
    }
    if draw.None? {
      return RandomFailed, 0;
    }
    RecordCountIsCeiling(message);
    SealedLenIsExact(c, w, draw.value.Start(), message, usizeMax);
    var sealed := SealInMemory(c, draw.value.Start(), message);
    CopyInto(out, 0, sealed);
    return StatusOk, |sealed|;
  }
}
