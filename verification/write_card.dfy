/** The writer script: shapes its text into a 16-byte block once at start-up,
    then on every detected tag selects it, authenticates the target sector
    with Key A, writes the block and reads it back. */
module WriteCard {
  import opened Bytes
  import opened Utf8
  import opened BlockCodec
  import opened Mfrc522

  /** The factory Key A of a MIFARE Classic card: six 0xFF bytes. */
  const DefaultKey: seq<byte> := [0xFF, 0xFF, 0xFF, 0xFF, 0xFF, 0xFF]

  /** The text written to every tag. */
  const DataToWrite: string := "Hello Pico RFID!"

  const SectorToWrite: int := 1
  const BlockToWrite: int := 0

  /** Payload shaping: the encoded text, extended in place with zero bytes
      when shorter than a block, or replaced by its first 16 bytes when
      longer. */
  method ShapePayload(encoded: seq<byte>) returns (data: seq<byte>)
    ensures data == Shaped(encoded)
  {
    data := encoded;
    if |data| < PayloadSize {
      data := data + Zeros(PayloadSize - |data|);
    } else if |data| > PayloadSize {
      data := data[..PayloadSize];
    }
  }

  /** The start-up step: the configured text, encoded as UTF-8 and shaped. */
  method PreparePayload() returns (data: seq<byte>)
    ensures data == Shaped(Encode(DataToWrite))
  {
    data := ShapePayload(Encode(DataToWrite));
  }

  /** The configured 16-character ASCII text is written byte for byte:
      shaping changes nothing. */
  lemma DefaultPayloadUnchanged()
    ensures |Encode(DataToWrite)| == PayloadSize
    ensures Shaped(Encode(DataToWrite)) == Encode(DataToWrite)
    ensures Encode(DataToWrite) == CodePoints(DataToWrite)
  {
    assert |DataToWrite| == PayloadSize;
    assert forall i :: 0 <= i < |DataToWrite| ==> DataToWrite[i] as int < 0x80;
    EncodeAscii(DataToWrite);
    ShapedKeepsExact(Encode(DataToWrite));
  }

  /** A two-character text is padded: the bytes of "Hi" and fourteen zeros. */
  lemma ShortTextPadded()
    ensures Shaped(Encode("Hi")) == [0x48, 0x69] + Zeros(14)
  {
    EncodeAscii("Hi");
    ShapedPads(Encode("Hi"));
  }

  /** The calls of a full write session, in order: select the tag,
      authenticate the sector trailer with Key A, write the data block, read
      it back. */
  function WriteChain(uid: seq<byte>, sector: int, block: int, data: seq<byte>, key: seq<byte>): seq<Call> {
    [Call.SelectTag(uid),
     Call.Authenticate(Authent1A, TrailerAddress(sector), key, uid),
     Call.Write(BlockAddress(sector, block), data),
     Call.Read(BlockAddress(sector, block))]
  }

  function WriteReplies(s: Script): seq<Reply> {
    [s.select, s.auth, s.write, s.read]
  }

  /** The calls a write session makes against a driver answering from `s`. */
  function WriteTrace(s: Script, uid: seq<byte>, sector: int, block: int, data: seq<byte>, key: seq<byte>): seq<Call> {
    WriteChain(uid, sector, block, data, key)[..Issued(WriteReplies(s))]
  }

  /** The outcome a write session reports against a driver answering from `s`. */
  function WriteOutcome(s: Script, uid: seq<byte>, sector: int, block: int, data: seq<byte>, key: seq<byte>): Outcome {
    ChainOutcome(WriteChain(uid, sector, block, data, key), WriteReplies(s))
  }

  /** `write_data_to_card`: each call is made only when the previous one
      answered `OK`; an exception from the driver ends the session. */
  method WriteDataToCard(rdr: Reader, uid: seq<byte>, sector: int, block: int, data: seq<byte>, key: seq<byte>)
      returns (outcome: Outcome)
    modifies rdr
    ensures rdr.trace == old(rdr.trace) + WriteTrace(rdr.script, uid, sector, block, data, key)
    ensures outcome == WriteOutcome(rdr.script, uid, sector, block, data, key)
    ensures rdr.script == old(rdr.script)
  {
    ghost var s := rdr.script;
    ghost var rs := WriteReplies(s);
    ghost var chain := WriteChain(uid, sector, block, data, key);
    assert rs[1..] == [s.auth, s.write, s.read];
    assert rs[2..] == [s.write, s.read];
    assert rs[3..] == [s.read];

    var absoluteBlockAddress := BlockAddress(sector, block);
    var sectorTrailerBlockAddress := TrailerAddress(sector);

    var status := rdr.SelectTag(uid);
    if !status.Ok() {
      assert Issued(rs) == 1;
      return Stopped(status, SelectStep);
    }
    status := rdr.Authenticate(Authent1A, sectorTrailerBlockAddress, key, uid);
    if !status.Ok() {
      assert Issued(rs[1..]) == 1;
      return Stopped(status, AuthStep);
    }
    status := rdr.Write(absoluteBlockAddress, data);
    if !status.Ok() {
      assert Issued(rs[2..]) == 1;
      assert Issued(rs[1..]) == 2;
      return Stopped(status, WriteStep);
    }
    var stat := rdr.Read(absoluteBlockAddress);
    assert Issued(rs[3..]) == 1;
    assert Issued(rs[2..]) == 2;
    assert Issued(rs[1..]) == 3;
    if !stat.Ok() {
      return Stopped(stat, ReadStep);
    }
    // The block read back is shown, never compared with `data`.
    outcome := Completed(stat.data);
  }

  /** Order and gating of a write session: select always comes first;
      authentication, with Key A against the trailer of the target sector,
      is made exactly when select answered `OK`; the write of the data block
      exactly when authentication did too; the read-back of the same address
      exactly when the write did too; nothing else is called. */
  lemma {:induction false} WriteSessionOrder(s: Script, uid: seq<byte>, sector: int, block: int, data: seq<byte>, key: seq<byte>)
    ensures var t := WriteTrace(s, uid, sector, block, data, key);
      && 1 <= |t| <= 4
      && t[0] == Call.SelectTag(uid)
      && (|t| >= 2 <==> s.select.Ok())
      && (|t| >= 2 ==> t[1] == Call.Authenticate(Authent1A, TrailerAddress(sector), key, uid))
      && (|t| >= 3 <==> s.select.Ok() && s.auth.Ok())
      && (|t| >= 3 ==> t[2] == Call.Write(BlockAddress(sector, block), data))
      && (|t| == 4 <==> s.select.Ok() && s.auth.Ok() && s.write.Ok())
      && (|t| == 4 ==> t[3] == Call.Read(BlockAddress(sector, block)))
  {
    var rs := WriteReplies(s);
    assert |WriteTrace(s, uid, sector, block, data, key)| == Issued(rs) <= 4;
    IssuedIff(rs, 1);
    IssuedIff(rs, 2);
    IssuedIff(rs, 3);
    assert rs[..1] == [s.select];
    assert rs[..2] == [s.select, s.auth];
    assert rs[..3] == [s.select, s.auth, s.write];
    var p := rs[..3];
    assert p[0] == s.select && p[1] == s.auth && p[2] == s.write;
    assert AllOk(p) ==> s.write.Ok();
    assert AllOk(p) ==> s.select.Ok() && s.auth.Ok();
    assert s.select.Ok() && s.auth.Ok() && s.write.Ok() ==> AllOk(p);
  }

  /** No retry: each driver operation appears at most once in a session. */
  lemma WriteSessionNoRetry(s: Script, uid: seq<byte>, sector: int, block: int, data: seq<byte>, key: seq<byte>)
    ensures var t := WriteTrace(s, uid, sector, block, data, key);
      forall i, j :: 0 <= i < j < |t| ==> StepOf(t[i]) != StepOf(t[j])
  {
    WriteSessionOrder(s, uid, sector, block, data, key);
  }

  /** The reported outcome names the first call that did not answer `OK`
      (and whether it raised), or completes with the block read back exactly
      when all four calls answered `OK`. */
  lemma {:induction false} WriteOutcomeCases(s: Script, uid: seq<byte>, sector: int, block: int, data: seq<byte>, key: seq<byte>)
    ensures var o := WriteOutcome(s, uid, sector, block, data, key);
      && (!s.select.Ok() ==> o == Stopped(s.select, SelectStep))
      && (s.select.Ok() && !s.auth.Ok() ==> o == Stopped(s.auth, AuthStep))
      && (s.select.Ok() && s.auth.Ok() && !s.write.Ok() ==> o == Stopped(s.write, WriteStep))
      && (s.select.Ok() && s.auth.Ok() && s.write.Ok() && !s.read.Ok() ==> o == Stopped(s.read, ReadStep))
      && (o.Completed? <==> s.select.Ok() && s.auth.Ok() && s.write.Ok() && s.read.Ok())
      && (o.Completed? ==> o.data == s.read.data)
  {
    var rs := WriteReplies(s);
    var chain := WriteChain(uid, sector, block, data, key);
    assert rs[..0] == [];
    assert rs[..1] == [s.select];
    assert rs[..2] == [s.select, s.auth];
    assert rs[..3] == [s.select, s.auth, s.write];
    ChainStopsAtIff(chain, rs, 0);
    ChainStopsAtIff(chain, rs, 1);
    ChainStopsAtIff(chain, rs, 2);
    ChainStopsAtIff(chain, rs, 3);
    ChainCompletedIff(chain, rs);
  }

  /** The read-back is not checked: a session whose every call answered `OK`
      reports completion with whatever block came back, even one that differs
      from what was written. */
  lemma ReadBackNotCompared(s: Script, uid: seq<byte>, sector: int, block: int, data: seq<byte>, key: seq<byte>)
    requires s.select.Ok() && s.auth.Ok() && s.write.Ok() && s.read.Ok()
    requires s.read.data != data
    ensures WriteOutcome(s, uid, sector, block, data, key) == Completed(s.read.data)
  {
    WriteOutcomeCases(s, uid, sector, block, data, key);
  }

  /** The calls of one iteration against a driver answering from `s`. */
  function IterationCalls(s: Script, data: seq<byte>): seq<Call> {
    IterationTrace(s, WriteTrace(s, RawUid(s), SectorToWrite, BlockToWrite, data, DefaultKey))
  }

  /** The result of one iteration against a driver answering from `s`. */
  function IterationReport(s: Script, data: seq<byte>): Iteration {
    IterationResult(s, WriteOutcome(s, RawUid(s), SectorToWrite, BlockToWrite, data, DefaultKey))
  }

  /** One iteration of the writer's `while True` loop: request, anticoll,
      then, for a UID of at least four bytes, its text and a write session
      with the configured sector, block and key, writing `data`, the payload
      built once at start-up (see `RunLoop`). Exceptions end the iteration. */
  method PollOnce(rdr: Reader, data: seq<byte>) returns (it: Iteration)
    modifies rdr
    ensures rdr.script == old(rdr.script)
    ensures rdr.trace == old(rdr.trace) + IterationCalls(rdr.script, data)
    ensures it == IterationReport(rdr.script, data)
  {
    ghost var s := rdr.script;
    assert DetectReplies(s)[1..] == [s.anticoll];

    var stat := rdr.Request(ReqIdl);
    if stat.Raises? {
      return Raised;
    } else if !stat.Ok() {
      return Idle;
    }
    stat := rdr.Anticoll();
    if stat.Raises? {
      return Raised;
    } else if !stat.Ok() {
      return AnticollFailed;
    }
    var rawUid := stat.data;
    if |rawUid| < 4 {
      // Indexing `raw_uid[3]` raises.
      return Raised;
    }
    var uidStr := UidString(rawUid);
    var outcome := WriteDataToCard(rdr, rawUid, SectorToWrite, BlockToWrite, data, DefaultKey);
    it := Session(uidStr, outcome);
  }

  /** Within one iteration, the write session's calls are made exactly when
      `request` and `anticoll` both answered `OK` with a UID of at least four
      bytes; otherwise the iteration makes no call but those two. */
  lemma PollSessionGated(s: Script, data: seq<byte>)
    ensures var t := IterationTrace(s, WriteTrace(s, RawUid(s), SectorToWrite, BlockToWrite, data, DefaultKey));
      && (StartsSession(s) <==> exists i :: 0 <= i < |t| && t[i] == Call.SelectTag(RawUid(s)))
      && (!StartsSession(s) ==> forall i :: 0 <= i < |t| ==> t[i] == Call.Request(ReqIdl) || t[i] == Call.Anticoll)
  {
    var session := WriteTrace(s, RawUid(s), SectorToWrite, BlockToWrite, data, DefaultKey);
    var t := IterationTrace(s, session);
    WriteSessionOrder(s, RawUid(s), SectorToWrite, BlockToWrite, data, DefaultKey);
    SessionOnlyAfterDetection(s, session);
    if StartsSession(s) {
      assert t[2] == Call.SelectTag(RawUid(s));
    }
  }

  /** Within one iteration, every block write goes to block 0 of sector 1
      (address 4), never to that sector's trailer, and carries the session's
      payload unchanged. */
  lemma {:induction false} PollWritesToDataBlock(s: Script, data: seq<byte>)
    ensures var t := IterationTrace(s, WriteTrace(s, RawUid(s), SectorToWrite, BlockToWrite, data, DefaultKey));
      forall i :: 0 <= i < |t| && t[i].Write? ==>
        && t[i].addr == 4
        && t[i].addr != TrailerAddress(SectorToWrite)
        && t[i].data == data
  {
    var session := WriteTrace(s, RawUid(s), SectorToWrite, BlockToWrite, data, DefaultKey);
    var t := IterationTrace(s, session);
    WriteSessionOrder(s, RawUid(s), SectorToWrite, BlockToWrite, data, DefaultKey);
    SessionOnlyAfterDetection(s, session);
    forall i | 0 <= i < |t| && t[i].Write?
      ensures t[i].addr == 4 && t[i].data == data
    {
      assert StartsSession(s) && i == 4 && t[i] == session[2];
    }
  }

  /** With the start-up payload, every block write in an iteration carries 16
      bytes, exactly the UTF-8 bytes of the configured text. */
  lemma PollWritesStartupPayload(s: Script)
    ensures var t := IterationTrace(s, WriteTrace(s, RawUid(s), SectorToWrite, BlockToWrite,
                                                  Shaped(Encode(DataToWrite)), DefaultKey));
      forall i :: 0 <= i < |t| && t[i].Write? ==>
        && t[i].addr == 4
        && |t[i].data| == PayloadSize
        && t[i].data == Encode(DataToWrite)
  {
    DefaultPayloadUnchanged();
    PollWritesToDataBlock(s, Shaped(Encode(DataToWrite)));
  }

  /** The calls of each iteration of a run whose iteration `k` meets the
      field `scripts[k]`. */
  function RoundTraces(scripts: seq<Script>, data: seq<byte>): seq<seq<Call>> {
    seq(|scripts|, k requires 0 <= k < |scripts| => IterationCalls(scripts[k], data))
  }

  /** A run one iteration longer has that iteration's calls at its end. */
  lemma RoundTracesSnoc(scripts: seq<Script>, data: seq<byte>, k: nat)
    requires k < |scripts|
    ensures Concat(RoundTraces(scripts[..k + 1], data)) ==
            Concat(RoundTraces(scripts[..k], data)) + IterationCalls(scripts[k], data)
  {
    assert RoundTraces(scripts[..k + 1], data) == RoundTraces(scripts[..k], data) + [IterationCalls(scripts[k], data)];
    ConcatAppend(RoundTraces(scripts[..k], data), IterationCalls(scripts[k], data));
  }

  /** `|scripts|` iterations of the `while True` loop, each writing `data`;
      iteration `k` meets the field `scripts[k]` (no card, a card that
      answers, a card that fails), so idle rounds and sessions mix freely. */
  method PollRounds(rdr: Reader, data: seq<byte>, scripts: seq<Script>) returns (results: seq<Iteration>)
    modifies rdr
    ensures rdr.trace == old(rdr.trace) + Concat(RoundTraces(scripts, data))
    ensures |results| == |scripts|
    ensures forall k :: 0 <= k < |scripts| ==> results[k] == IterationReport(scripts[k], data)
  {
    results := [];
    var k := 0;
    while k < |scripts|
      invariant k <= |scripts|
      invariant rdr.trace == old(rdr.trace) + Concat(RoundTraces(scripts[..k], data))
      invariant |results| == k
      invariant forall j :: 0 <= j < k ==> results[j] == IterationReport(scripts[j], data)
    {
      ghost var front := Concat(RoundTraces(scripts[..k], data));
      ghost var step := IterationCalls(scripts[k], data);
      rdr.Present(scripts[k]);
      var it := PollOnce(rdr, data);
      assert rdr.trace == old(rdr.trace) + front + step;
      RoundTracesSnoc(scripts, data, k);
      assert rdr.trace == old(rdr.trace) + Concat(RoundTraces(scripts[..k + 1], data));
      results := results + [it];
      k := k + 1;
    }
    assert scripts[..k] == scripts;
  }

  /** The script as a whole, cut off after `|scripts|` iterations of its
      loop: the payload is built once, before the loop, and every iteration
      that reaches a session writes that same start-up payload. */
  method RunLoop(rdr: Reader, scripts: seq<Script>) returns (results: seq<Iteration>)
    modifies rdr
    ensures rdr.trace == old(rdr.trace) + Concat(RoundTraces(scripts, Shaped(Encode(DataToWrite))))
    ensures |results| == |scripts|
    ensures forall k :: 0 <= k < |scripts| ==>
      results[k] == IterationReport(scripts[k], Shaped(Encode(DataToWrite)))
  {
    var data := PreparePayload();
    results := PollRounds(rdr, data, scripts);
  }

  /** Over a whole run, whatever the field does from one iteration to the
      next, every block write goes to address 4 and carries `data`. */
  lemma {:induction false} RunWritesToDataBlock(scripts: seq<Script>, data: seq<byte>)
    ensures var t := Concat(RoundTraces(scripts, data));
      forall i :: 0 <= i < |t| && t[i].Write? ==> t[i].addr == 4 && t[i].data == data
  {
    if scripts != [] {
      var n := |scripts| - 1;
      var ts := RoundTraces(scripts, data);
      assert ts[..n] == RoundTraces(scripts[..n], data);
      RunWritesToDataBlock(scripts[..n], data);
      PollWritesToDataBlock(scripts[n], data);
      var t := Concat(ts);
      assert t == Concat(ts[..n]) + IterationCalls(scripts[n], data);
      forall i | 0 <= i < |t| && t[i].Write?
        ensures t[i].addr == 4 && t[i].data == data
      {
        var front := Concat(ts[..n]);
        if i >= |front| {
          assert t[i] == IterationCalls(scripts[n], data)[i - |front|];
        }
      }
    }
  }

  /** Over a whole run of the script, every block write carries the 16 UTF-8
      bytes of the configured text to address 4. */
  lemma RunWritesStartupPayload(scripts: seq<Script>)
    ensures var t := Concat(RoundTraces(scripts, Shaped(Encode(DataToWrite))));
      forall i :: 0 <= i < |t| && t[i].Write? ==>
        && t[i].addr == 4
        && |t[i].data| == PayloadSize
        && t[i].data == Encode(DataToWrite)
  {
    DefaultPayloadUnchanged();
    RunWritesToDataBlock(scripts, Shaped(Encode(DataToWrite)));
  }
}
