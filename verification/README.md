# pico_rfid in Dafny

A model of the two MicroPython scripts of pico_rfid, which drive an MFRC522
contactless reader attached to a Raspberry Pi Pico:

- `write.py` encodes a fixed text as UTF-8 and shapes it into a 16-byte
  block payload, zero-padded or truncated. It then polls for MIFARE Classic
  1K tags. For every tag it finds, it selects the tag, authenticates the
  sector trailer of the target sector with Key A, writes the data block and
  reads the block back.
- `main.py` polls the same way. For every tag it selects the tag,
  authenticates the sector trailer with Key A and reads the data block.

Both scripts format the tag's UID as eight hex digits. Both compute absolute
block addresses as `sector * 4 + block`, and they authenticate against
`sector * 4 + 3`.

The reader driver (`mfrc522`) is external code. Here it is the class
`Mfrc522.Reader`. It answers each operation from its current `Script` of
replies. A reply is either a status with data, or `Raises`, which stands for
an exception reaching the loop's `except` clause. The script stays fixed
within one loop iteration. Between iterations it may change (`Present`),
because a card arrives, leaves or starts failing. The reader appends every
call, with its arguments, to `trace`. A session or a loop iteration is then
specified by the calls it adds to `trace` and the outcome it reports:

- `Issued` is the number of calls a fail-fast chain makes. The first call is
  always made, and each later call only when the previous one answered `OK`.
- `ChainOutcome` is what the chain reports. It is `Completed` with the last
  block read, or `Failed`/`DriverRaised` naming the step where the chain
  stopped.

Modules: `Bytes` (bytes, hex rendering), `Utf8` (text encoding),
`BlockCodec` (card layout, payload shaping, UID text), `Mfrc522` (the driver
model and fail-fast sequencing), `WriteCard` (`write.py`) and `ReadCard`
(`main.py`).

Some things the scripts do, or do not do, that the model keeps as they are:

- The write path never compares the block it reads back with the block it
  wrote. It only prints it, so there is no verify-mismatch outcome.
  `WriteCard.ReadBackNotCompared` states this.
- Neither script rejects block 3, and `main.py`'s docstring explicitly
  allows it. `BlockCodec.DataAddressIsTrailerIff` says when the data address
  falls on the trailer.
- The comment at `write.py:41` speaks of padding with spaces, but the code
  pads with `0x00` bytes.
- A session has no outcome of its own for a missing tag. When `request`
  does not answer `OK`, the iteration ends there (`Iteration.Idle`).
- `write.py` builds its payload once, before the loop, and every iteration
  writes that same payload (`WriteCard.RunLoop`).

## Model

| member | source | states |
|---|---|---|
| `Bytes.Hexlify` | main.py:100 | the hex rendering has two characters per byte, all of them lowercase hex digits |
| `Bytes.UnhexlifyHexlify` | main.py:100 | reading the hex digits back gives the original bytes, so the rendering is lossless |
| `Bytes.HexlifyInjective` | main.py:100 | different byte strings never render to the same hex text |
| `BlockCodec.UidString` | main.py:100 | the UID text is exactly 8 lowercase hex digits and reads back as the first four UID bytes |
| `BlockCodec.UidStringIff` | write.py:121 | two UIDs print the same exactly when their first four bytes agree |
| `BlockCodec.BlockAddress` | write.py:76 | for block 0..3, `sector*4+block` divided by 4 gives the sector and the remainder gives the block |
| `BlockCodec.TrailerAddress` | write.py:81 | `sector*4+3` lies in the same sector and is its block 3 |
| `BlockCodec.DataAddressIsTrailerIff` | main.py:58-62 | for any sector and block index, the data address equals the authenticated trailer address exactly when the block is 3 |
| `BlockCodec.BlockAddressInjective` | main.py:58 | different (sector, block 0..3) pairs address different blocks |
| `BlockCodec.Shaped` | write.py:42-46 | the shaped payload always has length 16 |
| `BlockCodec.ShapedPads` | write.py:43-44 | input shorter than 16 bytes becomes the input followed by `16 - len` zero bytes |
| `BlockCodec.ShapedTruncates` | write.py:45-46 | input of 16 bytes or more becomes its first 16 bytes |
| `BlockCodec.ShapedKeepsExact` | write.py:40-46 | input of exactly 16 bytes is unchanged |
| `BlockCodec.ShapedIdempotent` | write.py:42-46 | shaping an already shaped payload changes nothing |
| `BlockCodec.ShapedKeepsContent` | write.py:43-44 | content of at most 16 bytes is the payload's prefix, so padding loses none of it |
| `Utf8.LeadLength` | write.py:42 | a byte cannot start an encoded character exactly when it is a continuation byte, 0xC0, 0xC1, or 0xF5 and above; it starts a one-byte character exactly when it is below 0x80 |
| `Utf8.EncodeChar` | write.py:42 | a character encodes to 1..4 bytes whose lead byte announces the length, followed by continuation bytes; it takes one byte exactly when it is ASCII, and that byte is its code |
| `Utf8.Encode` | write.py:42 | `str.encode('utf-8')` yields between 1 and 4 bytes per character |
| `Utf8.DecodeEncodeChar` | write.py:42 | decoding the bytes of one character gives its code point back |
| `Utf8.DecodeEncode` | write.py:42 | strict decoding of the encoded text gives back every character, in order |
| `Utf8.EncodeAscii` | write.py:42 | ASCII text encodes to its character codes, one byte each |
| `Utf8.EncodeLengthAscii` | write.py:42 | text encodes to one byte per character exactly when it is ASCII |
| `WriteCard.ShapePayload` | write.py:42-46 | the in-place extend-or-truncate step produces exactly the shaped payload |
| `WriteCard.PreparePayload` | write.py:40-46 | the start-up payload is the configured text, UTF-8 encoded and shaped |
| `WriteCard.DefaultPayloadUnchanged` | write.py:40-46 | "Hello Pico RFID!" encodes to 16 bytes, its character codes, and shaping leaves them unchanged |
| `WriteCard.ShortTextPadded` | write.py:43-44 | "Hi" becomes 0x48 0x69 followed by fourteen zero bytes |
| `Mfrc522.Reader.Request` | write.py:115 | `request` is recorded with its mode and answers the scripted reply |
| `Mfrc522.Reader.Anticoll` | write.py:118 | `anticoll` is recorded and answers the scripted reply |
| `Mfrc522.Reader.SelectTag` | write.py:84 | `select_tag` is recorded with its UID and answers the scripted reply |
| `Mfrc522.Reader.Authenticate` | write.py:86 | `authenticate` is recorded with mode, address, key and UID, and answers the scripted reply |
| `Mfrc522.Reader.Write` | write.py:92 | `write` is recorded with address and data, and answers the scripted reply |
| `Mfrc522.Reader.Read` | write.py:98 | `read` is recorded with its address and answers the scripted reply |
| `Mfrc522.Issued` | write.py:84-98 | a non-empty fail-fast chain makes at least one call and never more calls than it has |
| `Mfrc522.IssuedIff` | main.py:65-73 | call k of a chain is made exactly when every earlier call answered `OK` |
| `Mfrc522.StopsAtFailure` | main.py:65-89 | a chain that stops early stops at a call that did not answer `OK` |
| `Mfrc522.RunsToEndIff` | main.py:65-73 | a chain makes all its calls exactly when all but the last answered `OK` |
| `Mfrc522.ChainCompletedIff` | main.py:73-77 | a chain reports completion exactly when every call answered `OK`, and then with the last call's data |
| `Mfrc522.ChainStopsAtIff` | main.py:83-89 | a chain stops at call k exactly when all earlier calls answered `OK` and call k did not, and then it reports call k's step |
| `Mfrc522.SessionOnlyAfterDetection` | write.py:115-127 | an iteration starts with `request(REQIDL)`; `anticoll` follows exactly when `request` answered `OK`; the session's calls follow exactly when both answered `OK` with a UID of at least four bytes |
| `Mfrc522.SessionReportedIff` | main.py:94-106 | an iteration reports a session exactly when one was started, and then with the UID text of the card |
| `WriteCard.WriteDataToCard` | write.py:59-110 | the session's calls are exactly the fail-fast prefix of select, authenticate, write, read-back, and the outcome is that chain's outcome |
| `WriteCard.WriteSessionOrder` | write.py:76-98 | select comes first; authenticate (Key A, trailer address, key, UID) is called exactly when select answered `OK`; write (data address, payload) exactly when authentication did too; read-back at the same address exactly when the write did too |
| `WriteCard.WriteSessionNoRetry` | write.py:84-110 | no driver operation is called twice in one write session |
| `WriteCard.WriteOutcomeCases` | write.py:84-110 | the outcome names the first step that did not answer `OK` and whether it raised, and it is completion exactly when all four calls answered `OK`, with the block read back |
| `WriteCard.ReadBackNotCompared` | write.py:98-103 | a read-back that differs from the written data is still reported as completion |
| `WriteCard.PollOnce` | write.py:113-127 | one loop iteration makes the detection calls and then, only for a detected card, the write session with sector 1, block 0, the default key and the given payload, and reports accordingly |
| `WriteCard.PollSessionGated` | write.py:115-127 | `select_tag` is called in an iteration exactly when `request` and `anticoll` answered `OK` with a UID of at least four bytes; otherwise only those two calls are made |
| `WriteCard.PollWritesToDataBlock` | write.py:76-92 | every block write in an iteration goes to address 4 (sector 1, block 0), never to the sector's trailer, and carries the payload unchanged |
| `WriteCard.PollWritesStartupPayload` | write.py:40-46 | with the start-up payload, every block write in an iteration goes to address 4 and carries 16 bytes, exactly the UTF-8 bytes of "Hello Pico RFID!" |
| `WriteCard.PollRounds` | write.py:113-127 | a run of iterations, each meeting its own field (no card, a card, a failing card), makes the calls of each iteration in order, and iteration `k` reports what one iteration against field `k` reports |
| `WriteCard.RunLoop` | write.py:40-127 | the payload is built once before the loop, and every iteration of the run, whatever field it meets, uses that start-up payload |
| `WriteCard.RunWritesToDataBlock` | write.py:76-92 | over a whole run, whatever the field does between iterations, every block write goes to address 4 and carries the payload |
| `WriteCard.RunWritesStartupPayload` | write.py:40-46 | over a whole run of the script, every block write carries the 16 UTF-8 bytes of "Hello Pico RFID!" to address 4 |
| `Mfrc522.ConcatSplit` | main.py:92 | in a run, iteration `k`'s calls come after those of every earlier iteration and before those of every later one |
| `ReadCard.ReadDataFromCard` | main.py:47-89 | the session's calls are exactly the fail-fast prefix of select, authenticate, read, and the outcome is that chain's outcome |
| `ReadCard.ReadSessionOrder` | main.py:58-73 | select comes first; authenticate (Key A, trailer address, key, UID) is called exactly when select answered `OK`; the read of the data address exactly when authentication did too |
| `ReadCard.ReadStopsEarly` | main.py:65-89 | a failed select leaves only the select call; a failed authentication means no read |
| `ReadCard.ReadSessionNoRetry` | main.py:65-73 | no driver operation is called twice in one read session, and nothing is written |
| `ReadCard.ReadOutcomeCases` | main.py:65-89 | the outcome names the first step that did not answer `OK` and whether it raised, and it is completion exactly when all three calls answered `OK`, with the block read |
| `ReadCard.PollOnce` | main.py:92-106 | one loop iteration makes the detection calls and then, only for a detected card, the read session with sector 1, block 0 and the default key, and reports accordingly |
| `ReadCard.PollSessionGated` | main.py:94-106 | `select_tag` is called in an iteration exactly when `request` and `anticoll` answered `OK` with a UID of at least four bytes; otherwise only those two calls are made |
| `ReadCard.PollRounds` | main.py:92-106 | a run of iterations, each meeting its own field (no card, a card, a failing card), makes the calls of each iteration in order, and iteration `k` reports what one iteration against field `k` reports |
| `ReadCard.PollNeverWrites` | main.py:92-106 | an iteration of the reader never writes a block |
| `ReadCard.RunNeverWrites` | main.py:92-106 | over a whole run, whatever the field does between iterations, the reader never writes a block |

## Left out

- SPI bus and pin set-up, and construction of the driver (`write.py:1-31`, `main.py:1-31`): hardware I/O. The reader handle is a parameter; its constructor only fixes the scripted replies and starts an empty call record.
- The internals of the `mfrc522` driver, meaning register framing and the card cipher used by `authenticate`. The driver is not part of this model. It is replaced by scripted replies.
- Within one iteration the scripted driver gives one fixed reply per operation. A second call of the same operation in that iteration would get the same answer, but no iteration calls any operation twice. Between iterations the replies may change.
- `utime.sleep_ms` pacing (2000 ms after a session, 100 ms after an exception, 50 ms every round): timing only.
- Every `print`, including the tag type (`"0x%02x" % tag_type`) and the hex and text renderings of blocks: console output only.
- The lossy `decode('utf-8', 'ignore')` and its `UnicodeDecodeError` handler (`main.py:78-82`): it depends on library Unicode behaviour and only feeds a print.
- The `except Exception` handler: modelled only as the outcome `Raised` or `DriverRaised(step)`, which ends the iteration. Python exception semantics are not modelled.
- The `while True` loop itself: one iteration is modelled (`PollOnce`), and any finite run of iterations, each against its own driver replies (`PollRounds`, `RunLoop`). The loop never ends, so termination and liveness are not modelled.
- The card's capacity of 16 sectors: neither script checks it, so the address functions accept any integers.
- Utf8.Decode: it checks lead and continuation bytes only. It does not reject overlong forms or surrogates. It serves as the inverse for the round trip, and no decoder of the source is modelled with it.
