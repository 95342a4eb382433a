# dstu-core stream files and the assembly gate, verified

A Dafny model, with proofs, of three parts of the repository.

**Stream files.** A stream file is a version byte, a 32-byte header, and records
`tag (1) || len (u32 LE) || ciphertext (len) || auth tag (16)`. Every record but the `Final` one carries
exactly 8192 plaintext bytes; the `Final` one ends the file. `Secretstream` is one push/pull session with
its counter and rekeying, `Codec` the encryptor and the decryptor state machine of dstu-core, `Framing`
what a stream file *is* (a parse tree, its bytes, its meaning) together with what the codec does on every
input. `Writers` holds the four writers of the bindings (Go and C# over an array buffer, JavaScript by
concatenating and slicing, PHP by topping up and cutting by offset), `Readers` the pull readers (Go, C#,
PHP) and the push reader (JavaScript). `EndToEnd` composes them: any writer, completed or not, any split of the
message into writes, any reader, any short reads, read sizes and arriving pieces.

**crypto_box.** `Box` has the sealed-length arithmetic under `usize` overflow at the three curve widths, the
one-call `seal` and `open`, and the C ABI around them with its capacity checks.

**The assembly gate.** `AsmText` is the string library, `AsmSymbols` the matcher of mangled symbols,
`AsmParse` and `AsmPrint` the listing parser and a printer it inverts, `AsmClassify` the branch classifier,
jump counts and the carry shape, `AsmGate` the gate over one build.

**What it all means.** Five modules say what the operations compute in other terms than theirs, with literal
bytes, spellings and names, and prove that the operations do that and nothing else: `Layout` (the bytes of a
written file), `Verdicts` (what every input comes to), `AsmDesignation` (what a spec says about a symbol),
`AsmLines` and `AsmMnemonics` (what every line and every instruction is). `AsmRules` has the rules of the gate.

Stateful parts are classes and methods, as in the source; each is tied to a specification function
(`Codec.Run`, `Framing.CutUp`, `AsmParse.ParseLines`, ...), and the laws are proved about those.

Cryptography stays abstract. `Secretstream.Cipher` is any record of functions in which encryption keeps the
length, adds a 16-byte tag and is undone by decryption; every theorem holds for all of them. Nothing is
claimed about forgeries or secrecy. The random header, the KEM and the passphrase derivation are parameters
(`Origin`, `Draw`, `open`, `decapsulate`).

## What came out of the proofs

- **C# `Write` refuses some legal writes.** `_bufferLen + count` is an unchecked 32-bit sum
  (bindings/dotnet/DstuCore/SecretStream.cs:187). When it exceeds 2^31 - 1 it wraps to a negative number, the
  branch for small writes is taken, and its copy throws. `Writers.CsWriter.Write` states the exact condition
  (held + count > 2^31 - 1) and that nothing is lost; `Writers.WriteWrapsExactlyBeyondInt32` shows that the
  longest array reaches it as soon as 57 bytes are held, and `Writers.WriteTheLongestArray` is that run.
- **The last-occurrence symbol search can miss.** `symbol_matches` looks for a generic instantiation from the
  right only. It agrees with what the spec says of a symbol, on every symbol, if and only if the text searched for has a
  character that is not a letter or digit (`AsmDesignation.SearchFindsDesignated`;
  `InexactSearchMisses` builds a missed symbol for every other spec). Every table row with arguments has an
  underscore in them, so no row is affected (`UnderscoreArgsAreExact`).
- **An AArch64 comment can swallow a character.** Appending a `//` comment leaves the code in front of it alone
  unless that code ends in a lone `/` and holds no `//` (`AsmPrint.TrailingCommentIsStripped`, an
  if-and-only-if). With a blank in front, the comment is always invisible.
- **`next_len` is 0 after an error or `finish`**, and at least 1 before, so every step of a read that is still going on
  consumes input or ends it: that is why the readers terminate.
- **Writers stop after 2^64 - 1 records** with the counter error and without a `Final` record. Each writer's
  contract says exactly when, and what has been written by then.

## Model

| member | source | states |
|---|---|---|
| `Bytes.U32LeBijection` | crates/dstu-core/src/crypto_secretstream/file.rs:300-302 | The length field is a bijection between four bytes and the u32 values: reading inverts `to_le_bytes` and conversely. |
| `Secretstream.PullUndoesPush` | crates/dstu-core/src/crypto_secretstream.rs:358-391 | A reader in the writer's session recovers every pushed chunk, whatever its tag, and both ends stay in the same session (counter, rekeyed subkey, finalized flag). |
| `Secretstream.TagBytes` | crates/dstu-core/src/crypto_secretstream.rs:381-386 | The four tags are the bytes 0 to 3. |
| `Secretstream.PushAfterPush` | crates/dstu-core/src/crypto_secretstream.rs:358-391 | Over two pushes: refused after `Final`; otherwise the next counter, under the rekeyed subkey exactly after `Rekey`, or the counter error. |
| `Secretstream.PullAfterPull` | crates/dstu-core/src/crypto_secretstream.rs:440-484 | The same over two pulls, on the tag bytes and on the cipher's decryption, with every error. |
| `Secretstream.PullChunk` | crates/dstu-core/src/crypto_secretstream.rs:440-484 | An accepted chunk has a known tag, a 16-byte auth tag and a plaintext of the ciphertext's length, and came before the end of the session. |
| `Codec.FileEncryptor.Seal` | crates/dstu-core/src/crypto_secretstream/file.rs:166-183 | Exactly when a record is sealed, with which error otherwise; the record bytes at the start of `out`, the rest of `out` untouched, and no change at all on refusal. |
| `Codec.FileDecryptor.NextLength` | crates/dstu-core/src/crypto_secretstream/file.rs:225-233 | 0 exactly when finished or failed, never more than a chunk and its tag otherwise. |
| `Codec.FileDecryptor.Feed` | crates/dstu-core/src/crypto_secretstream/file.rs:244-256 | A wrong length or small buffer is ignored without effect; any other error fails the decryptor for good and leaves every output byte as it was or zero; success releases exactly the step's plaintext. |
| `Codec.FileDecryptor.Advance` | crates/dstu-core/src/crypto_secretstream/file.rs:283-342 | The in-place step refines the pure `Step`: same next state, same error, same plaintext, nothing else in the output buffer changed. |
| `Codec.Step` | crates/dstu-core/src/crypto_secretstream/file.rs:283-342 | Every step keeps the decoder coherent, never ends in the done state on success, releases either nothing or one whole chunk, only from a record body, and leaves only zeros of the key once the header was read. |
| `Codec.FileDecryptor.Finish` | crates/dstu-core/src/crypto_secretstream/file.rs:266-281 | Releases the held `Final` chunk only after one was verified, reports truncation otherwise, and leaves the decryptor done. |
| `Codec.FileDecryptor.Fail` | crates/dstu-core/src/crypto_secretstream/file.rs:344-350 | A failed decryptor is done and keeps neither session nor plaintext; every byte of its key is zero. |
| `Framing.CutIsUnique` | crates/dstu-core/src/crypto_secretstream/file.rs:10-13 | Full chunks, nothing lost or reordered, a rest of at most one chunk that is not empty once anything was cut: these conditions determine the cut, and it is the canonical one. |
| `Framing.AcceptsExactlyStreamFiles` | crates/dstu-core/src/crypto_secretstream/file.rs:5-21 | For every byte string: the reading loop accepts it with a given plaintext if and only if it is the wire form of a well-shaped transcript whose records open in order to that plaintext. |
| `Framing.AcceptedTranscript` | crates/dstu-core/src/crypto_secretstream/file.rs:244-342 | Every accepted input has such a parse tree, constructed. |
| `Framing.TranscriptIsUnique` | crates/dstu-core/src/crypto_secretstream/file.rs:5-8 | The format is unambiguous: a file has one transcript and one plaintext. |
| `Framing.StreamFileThenTail` | crates/dstu-core/src/crypto_secretstream/file.rs:18-21 | A stream file followed by any bytes: accepted if there are none, otherwise the chunks before the `Final` one and then the trailing-data error. |
| `Framing.TruncationFailsClosed` | crates/dstu-core/src/crypto_secretstream/file.rs:266-281 | From any decoder state, every strict prefix of an accepted input is refused as truncated, having released a prefix of the chunks before the `Final` one. |
| `Framing.FedChunksAreFull` | crates/dstu-core/src/crypto_secretstream/file.rs:300-338 | On any input at all, what `feed` releases are whole 8192-byte chunks, and the `Final` chunk is at most one. |
| `Verdicts.VerdictIsExact` | crates/dstu-core/src/crypto_secretstream/file.rs:266-342 | For every input and every outcome, if and only if: what the bytes say, on literal positions and on the cipher's decryption. First byte not 2; too short; after records that decrypt in turn, a declared length over 8192, a tag over 3, a short chunk that is not the last, a record cut off, an exhausted counter, a record that does not decrypt, bytes after the last; or acceptance. |
| `Framing.WrittenIsStreamFile` | crates/dstu-core/src/crypto_secretstream/file.rs:356-375 | What a writer emits is a stream file whose plaintext is the canonical cut of the message. |
| `Layout.FileEnds` | crates/dstu-core/src/crypto_secretstream/file.rs:5-8 | The literal first 33 bytes of a written file, its length, and its last record: tag 3, the length low byte first, what is left of the message under the right counter, to the last byte. |
| `Layout.FileMiddle` | crates/dstu-core/src/crypto_secretstream/file.rs:361-371 | The literal bytes of record `k` at its literal place: tag 0, the length bytes, and bytes 8192 k to 8192 (k + 1) of the message under the stream's subkey and counter k. |
| `Layout.ChunksInPlace` | crates/dstu-core/src/crypto_secretstream/file.rs:10-13 | Which bytes of the message each chunk is, and how many chunks come before the last. |
| `Framing.RoundTrip` | crates/dstu-core/src/crypto_secretstream/file.rs:356-407 | Reading back the file of any message gives that message, chunk by chunk. |
| `Framing.UnfinishedFailsClosed` | bindings/go/dstu/secretstream.go:66-71 | Whatever kept a writer from its `Final` record, completion that never came or an exhausted counter: for any full chunks sealed so far, a reader of the file gets exactly those and then the truncation error. |
| `Framing.UnfinishedIsPrefix` | bindings/php/lib/DstuCoreSecretStream.php:99-116 | What such a writer leaves is a strict prefix of the finished file, for every message and wherever it stopped. |
| `Writers.CutResume` | bindings/go/dstu/secretstream.go:182-209 | Cutting may be resumed: chunks already sealed plus the cut of the rest is the cut of the whole. |
| `Writers.SealChunk` | bindings/go/dstu/secretstream.go:232-240 | One more chunk is on the wire and in the session, or the counter is exhausted and neither changed. |
| `Writers.SealWhileLonger` | crates/dstu-core/src/crypto_secretstream/file.rs:361-371 | The loop seals full chunks while more than one is left; what it leaves is the canonical rest, unless the counter runs out. |
| `Writers.SealOverflow` | bindings/go/dstu/secretstream.go:193-208 | Filling the buffer, sealing straight from the argument and keeping the rest ends with the canonical rest of everything written in the buffer; on counter exhaustion the buffer is empty unless it was the filled chunk that could not be sealed. |
| `Writers.SealFinal` | bindings/go/dstu/secretstream.go:218-226 | The output is then the complete file of the message. |
| `Writers.GoWriter.constructor` | bindings/go/dstu/secretstream.go:170-180 | The prefix is written and the writer holds the empty message. |
| `Writers.GoWriter.Write` | bindings/go/dstu/secretstream.go:184-209 | Output, session and buffer are those of the canonical cut of all bytes so far; refused without effect after completion; on counter exhaustion a short count and a file without `Final`. |
| `Writers.GoWriter.Complete` | bindings/go/dstu/secretstream.go:214-230 | The output is the finished file; idempotent; on failure the writer is as before. |
| `Writers.CsWriter.constructor` | bindings/dotnet/DstuCore/SecretStream.cs:78-93 | The prefix is written and the writer holds the empty message. |
| `Writers.CsWriter.Write` | bindings/dotnet/DstuCore/SecretStream.cs:176-213 | The same over a range of an array, with each refusal characterized exactly: range outside the array, completed stream, and 32-bit overflow of held plus count. |
| `Writers.CsWriter.WriteRange` | bindings/dotnet/DstuCore/SecretStream.cs:187-212 | After the argument checks: refused without effect exactly when the 32-bit sum wraps, otherwise the canonical cut of everything written. |
| `Writers.CsWriter.Complete` | bindings/dotnet/DstuCore/SecretStream.cs:219-232 | The output is the finished file; idempotent. |
| `Writers.WriteWrapsExactlyBeyondInt32` | bindings/dotnet/DstuCore/SecretStream.cs:187 | The wrapped sum takes the small-write branch wrongly if and only if the true sum exceeds 2^31 - 1; the longest array reaches that with 57 bytes held. |
| `Writers.WriteTheLongestArray` | bindings/dotnet/DstuCore/SecretStream.cs:187-192 | The run itself: a new writer, 57 bytes, then the longest array, is refused as a bad argument. |
| `Writers.JsWriter.constructor` | bindings/nodejs/js/secretstream.js:43-48 | The prefix is pushed and the writer holds the empty message. |
| `Writers.JsWriter.Transform` | bindings/nodejs/js/secretstream.js:55-76 | Concatenate and slice keeps the canonical cut of everything written. |
| `Writers.JsWriter.Flush` | bindings/nodejs/js/secretstream.js:78-87 | The pushed bytes are the finished file. |
| `Writers.PhpWriter.constructor` | bindings/php/lib/DstuCoreSecretStream.php:55-62 | The prefix is written and the writer holds the empty message. |
| `Writers.PhpWriter.Write` | bindings/php/lib/DstuCoreSecretStream.php:130-145 | Top up and cut by offset keeps the canonical cut; refused without effect once closed. |
| `Writers.PhpWriter.TopUpBuffer` | bindings/php/lib/DstuCoreSecretStream.php:166-181 | Afterwards the held chunk is empty or all data is held, and sealed chunks, held bytes and unread data still make up everything written. |
| `Writers.PhpWriter.Close` | bindings/php/lib/DstuCoreSecretStream.php:151-160 | The output is the finished file; idempotent. |
| `Readers.ReadUpTo` | bindings/php/lib/DstuCoreSecretStream.php:388-395 | Whatever short reads the input makes, the loop gathers exactly the wanted bytes, or all that is left, and loses none. |
| `Readers.DeliverStep` | bindings/go/dstu/secretstream.go:391-415 | What a run delivers is what one codec step releases followed by what the rest delivers. |
| `Readers.StepCodec` | bindings/dotnet/DstuCore/SecretStream.cs:406-448 | One step delivers the front of what is ahead and leaves the rest ahead; it consumes input or finishes; the version and header steps release nothing. |
| `Readers.ReadPrefix` | bindings/go/dstu/secretstream.go:282-291 | Fails exactly on an input shorter than the prefix; otherwise takes exactly the prefix. |
| `Readers.BufferedReader.Refill` | bindings/go/dstu/secretstream.go:373-383 | Terminates on every finite input, through any number of steps that release nothing, with plaintext pending, at the end, or with the error that is next. |
| `Readers.BufferedReader.CopyOut` | bindings/go/dstu/secretstream.go:384-386 | The copied bytes are the next ones, the rest stays ahead, and no other byte of the buffer changes. |
| `Readers.BufferedReader.CopyPending` | bindings/dotnet/DstuCore/SecretStream.cs:398-401 | As much of the pending plaintext as was asked for; a range without room for it is refused and loses nothing. |
| `Readers.BufferedReader.Read` | bindings/dotnet/DstuCore/SecretStream.cs:384-402 | At least one next byte unless none was asked for; the end only when nothing is left; an error only once the bytes in front of it are gone; a bad range loses nothing. |
| `Readers.StartReader` | bindings/go/dstu/secretstream.go:355-367 | The two dropped steps of the constructor drop no plaintext: the reader has ahead of it everything the stream delivers. |
| `Readers.OpenReader` | bindings/go/dstu/secretstream.go:295-306 | The same behind a prefix, with the too-short and the refused prefix as errors. |
| `Readers.ReadToEnd` | bindings/go/dstu/secretstream.go:372-387 | Reads of any non-zero sizes, joined, are exactly what was ahead, with its verdict. |
| `Readers.PhpReader.Rewind` | bindings/php/lib/DstuCoreSecretStream.php:333-340 | Works once, as an advance; later calls change nothing. |
| `Readers.PhpReader.Advance` | bindings/php/lib/DstuCoreSecretStream.php:365-379 | The next chunk becomes current with the next index, or the stream had nothing left, or its error is reported; terminates on every input. |
| `Readers.PhpReader.ReadAll` | bindings/php/lib/DstuCoreSecretStream.php:321-329 | The joined chunks are exactly what was ahead, with its verdict; refused without effect on a reader already started. |
| `Readers.StartPhpReader` | bindings/php/lib/DstuCoreSecretStream.php:228-237 | The constructor's two dropped steps lose nothing. |
| `Readers.RunStep` | bindings/nodejs/js/secretstream.js:125-131 | A step on the bytes at hand does not depend on the bytes that arrive later. |
| `Readers.JsReader.WithKey` | bindings/nodejs/js/secretstream.js:102-111 | Starts at the version byte with nothing buffered. |
| `Readers.JsReader.WithPrefix` | bindings/nodejs/js/secretstream.js:196-200 | Starts without a codec, collecting the prefix. |
| `Readers.JsReader.Transform` | bindings/nodejs/js/secretstream.js:113-137 | Handing over a piece changes nothing about what the whole stream comes to, for all futures at once; an error is the whole stream's verdict whatever follows, with exactly its chunks pushed. |
| `Readers.JsReader.FeedNext` | bindings/nodejs/js/secretstream.js:127-129 | One complete step keeps what the stream comes to for every future input. |
| `Readers.JsReader.FeedComplete` | bindings/nodejs/js/secretstream.js:125-131 | Feeds every complete step and stops with less than one step buffered. |
| `Readers.JsReader.Flush` | bindings/nodejs/js/secretstream.js:139-149 | The verdict is the whole stream's; the `Final` chunk is pushed only here, and only on acceptance. |
| `EndToEnd.WriteWithGo` | bindings/go/dstu/secretstream.go:184-230 | For every split into writes, completed or not: when the file is finished, and what is on the wire, which depends only on the joined message. |
| `EndToEnd.WritePieces` | bindings/dotnet/DstuCore/SecretStream.cs:176-213 | All pieces are taken exactly when none wraps the 32-bit sum and the counter suffices; otherwise the output is that of the pieces before the first that does not fit. |
| `EndToEnd.WriteWithCs` | bindings/dotnet/DstuCore/SecretStream.cs:176-232 | The same file as the other writers, for all pieces up to the first that wraps the 32-bit sum; finished exactly if there is none. |
| `EndToEnd.WriteWithJs` | bindings/nodejs/js/secretstream.js:55-87 | The same as for Go. |
| `EndToEnd.WriteWithPhp` | bindings/php/lib/DstuCoreSecretStream.php:130-181 | The same as for Go. |
| `EndToEnd.WriteWith` | bindings/go/dstu/secretstream.go:60-71 | All four writers leave one and the same output for the bytes they take, finished or not. |
| `EndToEnd.PullAll` | bindings/go/dstu/secretstream.go:295-415 | For every input, well-formed or not, every short-read behaviour and all read sizes: the plaintext and the verdict of the codec run. |
| `EndToEnd.IterateAll` | bindings/php/lib/DstuCoreSecretStream.php:244-403 | The PHP iterator gives the same plaintext and verdict. |
| `EndToEnd.Drive` | bindings/nodejs/js/secretstream.js:113-149 | Any pieces, then the end of input: the push reader's chunks and verdict are those of the joined input. |
| `EndToEnd.PushAll` | bindings/nodejs/js/secretstream.js:113-207 | The push reader refines the pull reader on every input and every split, inside the prefix too. |
| `EndToEnd.PushAllWithKey` | bindings/nodejs/js/secretstream.js:101-149 | The same for a reader started with the stream key. |
| `EndToEnd.ReadWith` | bindings/php/lib/DstuCoreSecretStream.php:365-403 | All readers give one and the same plaintext and verdict on every input. |
| `EndToEnd.FinishedIsDelivered` | crates/dstu-core/src/crypto_secretstream/file.rs:15-21 | A finished file behind its prefix delivers the message and a clean end. |
| `EndToEnd.UnfinishedIsRefused` | bindings/go/dstu/secretstream.go:244-255 | An unfinished output behind its prefix delivers the sealed chunks and then the truncation error. |
| `EndToEnd.SendAndReceive` | bindings/go/dstu/secretstream.go:184-415 | From any of the four bindings to any of the four, for any split, short reads, read sizes and arriving pieces, and no bound on the message: a finished message arrives whole; everything unfinished is refused after the front of the message that was sealed; and exactly when it is finished. |
| `EndToEnd.EveryTruncationIsRefused` | bindings/nodejs/js/secretstream.js:90-95 | Whatever a reader accepts, it refuses cut short anywhere, in the prefix or after it; what came out before are whole chunks in front of the `Final` one. |
| `EndToEnd.PrefixVerdicts` | bindings/go/dstu/secretstream.go:282-291 | The two errors of the bytes in front come out exactly when they are too few, or do not open; a stream file never gives them. |
| `EndToEnd.TrailingBytesHoldTheFinalChunkBack` | bindings/dotnet/DstuCore/SecretStream.cs:256-263 | Whatever a reader accepts, with anything appended it releases exactly the non-final chunks and fails: no byte of the `Final` chunk. |
| `Box.AbiConstants` | crates/dstu-core-capi/src/crypto_box.rs:31-35 | The literals of the three ABIs follow from the layout: the open prefix, the seal prefix 33 bytes longer, and the minimal overhead. |
| `Box.RecordCountIsCeiling` | crates/dstu-core/src/crypto_box.rs:411-416 | The writer's record count is one per started chunk, at least one. |
| `Box.FileLength` | crates/dstu-core/src/crypto_secretstream/file.rs:356-375 | The length of the file of a message. |
| `Box.SealedLenIsExact` | crates/dstu-core/src/crypto_box.rs:415-421 | The checked arithmetic gives the length the writer emits, and none exactly when that does not fit a `usize`. |
| `Box.SealedLenIncreases` | crates/dstu-core/src/crypto_box.rs:415-421 | Strictly increasing, so the sealed length determines the message length. |
| `Box.AcceptedLength` | crates/dstu-core/src/crypto_secretstream/file.rs:382-407 | Every accepted file, honest or not, spends exactly one overhead per record. |
| `Box.OpenedLength` | crates/dstu-core-capi/src/crypto_box.rs:27-31 | Whatever opens has at most `sealed_len` minus the minimal overhead bytes, and that many exactly for a single record. |
| `Box.OpenIsExact` | crates/dstu-core/src/crypto_box.rs:443-472 | Which blobs are refused as of another version, as cut off and as tampered with, each if and only if, on the bytes of the blob, the KEM part and the exact verdict of the stream in it; and what the accepted ones hold. |
| `Box.OpenAgreesWithStream` | crates/dstu-core/src/crypto_box.rs:398-409 | The one-call open accepts exactly what the streaming open accepts, with the same plaintext. |
| `Box.OpenUndoesSeal` | crates/dstu-core/src/crypto_box.rs:430-472 | What is sealed to a key opens under it, for every message. |
| `Box.OpenAll` | crates/dstu-core/src/crypto_secretstream/file.rs:382-407 | The in-memory loop refines the reading contract: its plaintext on acceptance, its error otherwise. |
| `Box.OpenInMemory` | crates/dstu-core/src/crypto_box.rs:453-472 | The order of the version, length and stream checks, and the collapsing of errors. |
| `Box.AbiOpen` | crates/dstu-core-capi/src/crypto_box.rs:291-337 | Every status if and only if, on the bytes of the blob and the room in the buffer; on success the message in front of what was there, on a tag mismatch only zeros, and otherwise the buffer untouched. |
| `Box.OpenInto` | crates/dstu-core-capi/src/crypto_box.rs:314-335 | The copy is in bounds for every input, because the capacity was checked first. |
| `Box.SealInMemory` | crates/dstu-core/src/crypto_box.rs:430-441 | The sealed message is the finished file behind the box prefix. |
| `Box.AbiSeal` | crates/dstu-core-capi/src/crypto_box.rs:230-272 | Each status exactly; on success the reported length is the announced one and the bytes are the sealed message; otherwise the buffer is untouched. |
| `AsmText.FindIsLeftmost` | xtask/src/asm_check.rs:781 | The search finds an occurrence if there is one, and none starts earlier. |
| `AsmText.FindLastIsRightmost` | xtask/src/asm_check.rs:784 | The search from the right finds the last one. |
| `AsmText.LinesUndoUnlines` | xtask/src/asm_check.rs:577 | Splitting joined lines gives the lines back. |
| `AsmText.LinesMean` | xtask/src/asm_check.rs:577 | Either line ending ends a line and is no part of it, and the last line needs none. |
| `AsmText.DecimalIsNumeral` | xtask/src/asm_check.rs:779 | The decimal form of a number is digits without a leading zero that, read from left to right, spell the number. |
| `AsmText.NumeralIsDecimal` | xtask/src/asm_check.rs:779 | And it is the only such text. |
| `AsmText.SplitUndoesJoin` | xtask/src/asm_check.rs:769 | Parts joined by a separator whose first character they do not hold are split back. |
| `AsmText.SplitIsExact` | xtask/src/asm_check.rs:729-730 | Splitting at a character gives the only list of parts without it that join to the text. |
| `AsmText.TrimMeans` | xtask/src/asm_check.rs:578 | Trimming takes white space off both ends, nothing else, and leaves none there. |
| `AsmText.AsciiSpace` | xtask/src/asm_check.rs:601 | The six ASCII characters that are white space. |
| `AsmSymbols.GreedyFindsAPlacement` | xtask/src/asm_check.rs:771-781 | Where the greedy search succeeds, the tokens are placed in order without overlap. |
| `AsmSymbols.GreedyIsLeast` | xtask/src/asm_check.rs:771-781 | If any placement exists, the greedy search succeeds and ends no later than it. |
| `AsmSymbols.NoLaterOccurrence` | xtask/src/asm_check.rs:782-791 | No occurrence of a closing text with a non-alphanumeric character starts after one that a back-reference follows to the end. |
| `AsmSymbols.MatchIsSound` | xtask/src/asm_check.rs:768-803 | A match implies a placement of all tokens, the last of which closes the symbol, for every spec. |
| `AsmSymbols.MatchIsComplete` | xtask/src/asm_check.rs:768-803 | Every symbol with such a placement matches, unless the closing text is all alphanumeric. |
| `AsmSymbols.InexactSearchMisses` | xtask/src/asm_check.rs:782-791 | For every such spec, a symbol that has a placement and does not match. |
| `AsmSymbols.SearchIsExactIff` | xtask/src/asm_check.rs:768-803 | Matching agrees with placements on every symbol if and only if the condition holds. |
| `AsmSymbols.UnderscoreArgsAreExact` | xtask/src/asm_check.rs:232-284 | Argument texts with an underscore, as in all rows that have arguments, meet the condition. |
| `AsmDesignation.TokenSpells` | xtask/src/asm_check.rs:779 | What is searched for is exactly the identifier behind a numeral of its length. |
| `AsmDesignation.DesignatesIsPlaced` | xtask/src/asm_check.rs:762-767 | The reading of a spec without tokens (identifiers in spans, in order, each behind its length, the last one closed by its arguments, `E` and a back-reference) is the placement the search is compared with. |
| `AsmDesignation.MatchIsDesignated` | xtask/src/asm_check.rs:768-803 | A match is never wrong about that reading. |
| `AsmDesignation.SearchFindsDesignated` | xtask/src/asm_check.rs:768-803 | Matching agrees with that reading on every symbol, if and only if the condition holds. |
| `AsmDesignation.SegmentMeans` | xtask/src/asm_check.rs:772-778 | When a segment is an identifier, and when, only at the end, one with arguments. |
| `AsmDesignation.SpecIsRead` | xtask/src/asm_check.rs:769-778 | A spec written from identifiers and arguments is read as those. |
| `AsmSymbols.FindInner` | xtask/src/asm_check.rs:771-781 | The loop over the inner segments ends where the greedy search does, and gives up on a malformed one. |
| `AsmSymbols.SymbolMatches` | xtask/src/asm_check.rs:768-803 | The whole loop computes `Matches`. |
| `AsmParse.ParseLoop` | xtask/src/asm_check.rs:574-612 | The loop computes the fold over lines, with its two errors. |
| `AsmParse.Parse` | xtask/src/asm_check.rs:573-613 | The same from the text. |
| `AsmParse.ScanByPosition` | xtask/src/asm_check.rs:571-613 | After any number of lines, the parser's state is what the positions of labels and ends say; an overrun body has no end of its own. |
| `AsmParse.ParseMeaning` | xtask/src/asm_check.rs:571-613 | Succeeds exactly when every declared label's body ends before the next opens; then returns each such label in order with the instructions up to that end. |
| `AsmParse.ParseOverrunMeaning` | xtask/src/asm_check.rs:585-592 | The error at a label comes out exactly when the first body without an end of its own runs into that label, and names both. |
| `AsmParse.ParseOpenMeaning` | xtask/src/asm_check.rs:609-611 | The error at the end of the input comes out exactly when that body is still open there, and names it. |
| `AsmParse.DeclaredMeansTypeLine` | xtask/src/asm_check.rs:579-582 | A name counts as declared exactly when a `.type` line above names it. |
| `AsmParse.ParseConserves` | xtask/src/asm_check.rs:600-607 | The returned instructions, joined, are exactly the instruction lines inside bodies, each once and in order. |
| `AsmParse.NoiseIsIgnored` | xtask/src/asm_check.rs:571-613 | Blank lines, other directives, undeclared labels, repeated declarations, and instructions or ends outside a body may be added anywhere. |
| `AsmLines.CommentStarts` | xtask/src/asm_check.rs:562-569 | The literal comment characters of the four architectures: the code is what is in front of the first one. |
| `AsmLines.ImmediatesStay` | xtask/src/asm_check.rs:561-569 | A `#` stays on Thumb and AArch64 and starts a comment on x86-64 and riscv32. |
| `AsmLines.LineMeans` | xtask/src/asm_check.rs:579-606 | When a trimmed line is a declaration and of which name, an end, a label and which, an instruction with which mnemonic and operands; all if and only if, on literal directives. |
| `AsmPrint.ParseUndoesPrint` | xtask/src/asm_check.rs:573-613 | Printing any list of well-formed functions, each with an end label of its own, and parsing the text returns the list. |
| `AsmPrint.NumberedMark` | xtask/src/asm_check.rs:583-584 | The compiler's numbered end labels are among those that can be printed. |
| `AsmPrint.TrailingCommentIsStripped` | xtask/src/asm_check.rs:562-569 | A comment leaves the code before it alone if and only if it is not an AArch64 comment after a lone `/`. |
| `AsmPrint.SpacedCommentIsInvisible` | xtask/src/asm_check.rs:562-578 | With a blank in front, a trailing comment never changes how a line is read. |
| `AsmPrint.ListingNoiseIsIgnored` | xtask/src/asm_check.rs:573-613 | Harmless raw lines may be added anywhere in a listing. |
| `AsmClassify.ClassificationFailsClosed` | xtask/src/asm_check.rs:625-677 | Over all strings and four architectures: an instruction that looks like a branch or writes `pc` is a non-branch exactly if it is a listed bit operation. |
| `AsmClassify.ThumbFailsClosed` | xtask/src/asm_check.rs:681-710 | The same for Thumb after the width suffixes are gone. |
| `AsmClassify.OutlinedMattersOnlyForT0` | xtask/src/asm_check.rs:661-665 | Being outlined changes the class of `jr t0` on riscv32 and of nothing else. |
| `AsmClassify.X86ConditionsCount` | xtask/src/asm_check.rs:635-640 | `j` with any condition is conditional, whatever its operands. |
| `AsmClassify.Aarch64ConditionsCount` | xtask/src/asm_check.rs:650-655 | `b.` with any condition is conditional. |
| `AsmClassify.ThumbBaseDropsWidth` | xtask/src/asm_check.rs:660 | An encoding-width suffix is dropped, and nothing else. |
| `AsmClassify.ThumbConditionsCount` | xtask/src/asm_check.rs:660-710 | With or without a width suffix, `b`, `bl`, `blx`, `bx` under any condition, and `pop`, `ldm`, `ldr`, `mov`, `add` under any condition when they write `pc`, are conditional: no earlier arm captures one. |
| `AsmClassify.CountJumps` | xtask/src/asm_check.rs:714-724 | Fails exactly on an instruction that does not classify; otherwise the size of the set of places that are conditional or indirect jumps. |
| `AsmMnemonics.X86IsExact` | xtask/src/asm_check.rs:629-643 | Which spellings and operands are conditional, indirect and plain jumps and which are none, each if and only if; the rest is refused. |
| `AsmMnemonics.Aarch64IsExact` | xtask/src/asm_check.rs:644-659 | The same for AArch64. |
| `AsmMnemonics.ThumbIsExact` | xtask/src/asm_check.rs:681-710 | The same for Thumb, writes to `pc` included. |
| `AsmMnemonics.RiscvIsExact` | xtask/src/asm_check.rs:661-675 | The same for riscv32, returns through `ra` and outlined `t0` included. |
| `AsmMnemonics.WritesPcIsExact` | xtask/src/asm_check.rs:686-690 | Operands write `pc` exactly if they are it, start with it and a comma, or hold it in a register list between separators and white space. |
| `AsmMnemonics.ThumbBaseIsExact` | xtask/src/asm_check.rs:660 | For every mnemonic, the base is what is left of the `.w`s and then the `.n`s at its end. |
| `AsmMnemonics.ClassifyIsExact` | xtask/src/asm_check.rs:625-677 | The classifier follows the four tables on every instruction. |
| `AsmMnemonics.CountIsExact` | xtask/src/asm_check.rs:714-724 | The count of a body is some number exactly when all its instructions are in the tables and that many of them are conditional or indirect jumps. |
| `AsmClassify.JumpsAdd` | xtask/src/asm_check.rs:714-724 | Counting is a homomorphism over joined bodies of the same outlined kind, failures included. |
| `AsmClassify.CarryShapes` | xtask/src/asm_check.rs:728-751 | The window loop counts the adjacent pairs with the shape. |
| `AsmClassify.ShapesAreCounted` | xtask/src/asm_check.rs:728-751 | The count is the size of the set of places where a pair starts. |
| `AsmClassify.ShapesMeanPair` | xtask/src/asm_check.rs:728-751 | The count is positive exactly when some adjacent pair has the shape. |
| `AsmMnemonics.CarryPairIsExact` | xtask/src/asm_check.rs:734-746 | A pair is one of ten branches on two registers and `sltu` on the same two, on the operands as they stand between the commas. |
| `AsmClassify.ShapesAdd` | xtask/src/asm_check.rs:732-749 | Joining bodies adds the counts, plus one exactly when the seam is a pair. |
| `AsmClassify.CarryPairIsUnordered` | xtask/src/asm_check.rs:744-746 | The shape compares the two register pairs as sets, so either may be swapped. |
| `AsmClassify.RegistersOfThree` | xtask/src/asm_check.rs:729-730 | Three operands written with commas and blanks are read back as those three. |
| `AsmClassify.MulCallsMeanMention` | xtask/src/asm_check.rs:753-760 | The count is positive exactly when some instruction mentions a multiply helper. |
| `AsmGate.FindOneMeansUnique` | xtask/src/asm_check.rs:805-814 | Succeeds with a function exactly when it is the only one whose symbol matches. |
| `AsmGate.FindOnly` | xtask/src/asm_check.rs:805-814 | The search over all functions with the matcher computes the sole match. |
| `AsmGate.SumIsJoined` | xtask/src/asm_check.rs:321-325 | The outlined row counts all outlined bodies as if they were one, failing if any instruction of them does. |
| `AsmGate.OutlinedSum` | xtask/src/asm_check.rs:321-325 | And that is the number of all jumps of all outlined bodies, when all their instructions are in the tables. |
| `AsmGate.CountRow` | xtask/src/asm_check.rs:317-326 | The count of a row: of the sole match, or over the outlined bodies; none if there is no such function or it does not classify. |
| `AsmGate.CheckRow` | xtask/src/asm_check.rs:303-326 | A row passes exactly when one function matches, all its instructions are in the tables and the expected number of them are jumps; or, for the outlined row, when some outlined body exists and all of them together have that number. |
| `AsmGate.CheckZeroRows` | xtask/src/asm_check.rs:485-494 | No failure exactly when every zero row with this target and this level holds with no jump. |
| `AsmGate.CheckRows` | xtask/src/asm_check.rs:495-502 | No failure exactly when every row with this target and this level holds with its count. |
| `AsmGate.CheckClassified` | xtask/src/asm_check.rs:475-480 | No failure exactly when every instruction of every function classifies. |
| `AsmGate.ShapeMeans` | xtask/src/asm_check.rs:504 | A function has the carry shape exactly when two adjacent instructions compare the same two registers. |
| `AsmGate.CheckFunctions` | xtask/src/asm_check.rs:503-512 | No failure exactly when no riscv32 function in scope has the carry shape and no function mentions the multiply helpers. |
| `AsmGate.CarryScopeMeans` | xtask/src/asm_check.rs:520-525 | In scope are exactly the outlined bodies and the functions in whose symbol a limb-arithmetic module occurs. |
| `AsmGate.MultiplyMeans` | xtask/src/asm_check.rs:753-760 | The call count is positive exactly when a helper's name occurs in some operand text. |
| `AsmGate.CheckCell` | xtask/src/asm_check.rs:469-514 | The gate means its rules, for all tables: it reports nothing if and only if every body that opens has its end, every instruction of every function is in the mnemonic tables, the hard rules hold, and every zero, exact and (in the small-tables profile) small-tables row of this target and level holds. |
| `AsmRules.SmallTablesIsStricter` | xtask/src/asm_check.rs:481-484 | A text that passes the small-tables profile passes the default one. |
| `AsmGate.RowMeansDesignation` | xtask/src/asm_check.rs:303-326 | For specs with exact search, a row holds exactly when its spec designates one function in the sense of placements, and that one has the count. |

## Left out

- The cryptography itself (Kalyna, Kupyna, Strumok, DSTU 4145, DSTU 9041, Argon2) and any claim about tampering or secrecy: sealing is abstract.
- Errors of the underlying reads and writes, and retrying a writer or reading on after an error: runs that succeed or stop at the first refusal are modelled.
- The texts of error messages: errors are datatype values. Per-language exception and status types are collapsed into them.
- Pointers: NULL and overlap checks, panics, frees, and when secrets are zeroized in memory that is dropped.
- Closing, disposing and `leaveOpen`, Node's callback scheduling, and asynchronous variants.
- Writers.CsWriter.constructor: covers the prefix write and the empty buffer, not argument checks or the ownership of the inner stream.
- Readers.BufferedReader.Read: Go and C# share one class; Go passes its whole slice as the range, and C#'s null check is not modelled.
- Codec.FileDecryptor.Finish: the held `Final` chunk is a byte sequence of its length rather than a fixed array with a length field.
- Chunk sizes other than 8192: the number is part of the format, and the C# and `crypto_box` arithmetic is about it.
- EndToEnd.WriteWithCs: a piece is an array, so at most 0x7FFFFFC7 bytes, the runtime's limit.
- AsmGate.CheckCell: the rows of the tables are a parameter, so the result holds for all tables; failures are values, and only whether there is one is stated.
- AsmSymbols.SymbolMatches: lengths are in characters, which agrees with the source's byte lengths for ASCII names.
- Jump counts are natural numbers rather than u32.
- Building the crate, finding the listing, and the skip and fail summary of the gate: process plumbing.
- The C ABI around the codec, its separate status codes and buffer-size checks: a thin layer over `Codec`.
- The one-call wrappers (auth, kdf, generichash, secretbox, sign, stream, pwhash, randombytes), the command line, the Python, Ruby, Java and C++ bindings, and the raw framing example: they would add easy members or repeat the ones here.
