/** The reader script: on every detected tag, selects it, authenticates the
    target sector with Key A and reads one block. */
module ReadCard {
  import opened Bytes
  import opened BlockCodec
  import opened Mfrc522

  /** The factory Key A of a MIFARE Classic card: six 0xFF bytes. */
  const DefaultKey: seq<byte> := [0xFF, 0xFF, 0xFF, 0xFF, 0xFF, 0xFF]

  const SectorToRead: int := 1
  const BlockToRead: int := 0

  /** The calls of a full read session, in order: select the tag,
      authenticate the sector trailer with Key A, read the data block. */
  function ReadChain(uid: seq<byte>, sector: int, block: int, key: seq<byte>): seq<Call> {
    [Call.SelectTag(uid),
     Call.Authenticate(Authent1A, TrailerAddress(sector), key, uid),
     Call.Read(BlockAddress(sector, block))]
  }

  function ReadReplies(s: Script): seq<Reply> {
    [s.select, s.auth, s.read]
  }

  /** The calls a read session makes against a driver answering from `s`. */
  function ReadTrace(s: Script, uid: seq<byte>, sector: int, block: int, key: seq<byte>): seq<Call> {
    ReadChain(uid, sector, block, key)[..Issued(ReadReplies(s))]
  }

  /** The outcome a read session reports against a driver answering from `s`. */
  function ReadOutcome(s: Script, uid: seq<byte>, sector: int, block: int, key: seq<byte>): Outcome {
    ChainOutcome(ReadChain(uid, sector, block, key), ReadReplies(s))
  }

  /** `read_data_from_card`: each call is made only when the previous one
      answered `OK`; an exception from the driver ends the session. */
  method ReadDataFromCard(rdr: Reader, uid: seq<byte>, sector: int, block: int, key: seq<byte>)
      returns (outcome: Outcome)
    modifies rdr
    ensures rdr.trace == old(rdr.trace) + ReadTrace(rdr.script, uid, sector, block, key)
    ensures outcome == ReadOutcome(rdr.script, uid, sector, block, key)
    ensures rdr.script == old(rdr.script)
  {
    ghost var s := rdr.script;
    ghost var rs := ReadReplies(s);
    assert rs[1..] == [s.auth, s.read];
    assert rs[2..] == [s.read];

    var absoluteBlockAddress := BlockAddress(sector, block);
    var sectorTrailerBlockAddress := TrailerAddress(sector);

    var status := rdr.SelectTag(uid);
    if !status.Ok() {
      assert Issued(rs) == 1;
      return Stopped(status, SelectStep);
    }
    status := rdr.Authenticate(Authent1A, sectorTrailerBlockAddress, key, uid);
    if !status.Ok() {
      assert Issued(rs[1..]) == 1;
      return Stopped(status, AuthStep);
    }
    var stat := rdr.Read(absoluteBlockAddress);
    assert Issued(rs[2..]) == 1;
    assert Issued(rs[1..]) == 2;
    if !stat.Ok() {
      return Stopped(stat, ReadStep);
    }
    outcome := Completed(stat.data);
  }

  /** Order and gating of a read session: select always comes first;
      authentication, with Key A against the trailer of the target sector,
      is made exactly when select answered `OK`; the read of the data block
      exactly when authentication did too; nothing else is called. */
  lemma {:induction false} ReadSessionOrder(s: Script, uid: seq<byte>, sector: int, block: int, key: seq<byte>)
    ensures var t := ReadTrace(s, uid, sector, block, key);
      && 1 <= |t| <= 3
      && t[0] == Call.SelectTag(uid)
      && (|t| >= 2 <==> s.select.Ok())
      && (|t| >= 2 ==> t[1] == Call.Authenticate(Authent1A, TrailerAddress(sector), key, uid))
      && (|t| == 3 <==> s.select.Ok() && s.auth.Ok())
      && (|t| == 3 ==> t[2] == Call.Read(BlockAddress(sector, block)))
  {
    var rs := ReadReplies(s);
    assert |ReadTrace(s, uid, sector, block, key)| == Issued(rs) <= 3;
    IssuedIff(rs, 1);
    IssuedIff(rs, 2);
    assert rs[..1] == [s.select];
    var p := rs[..2];
    assert p[0] == s.select && p[1] == s.auth;
    assert AllOk(p) ==> s.select.Ok() && s.auth.Ok();
    assert s.select.Ok() && s.auth.Ok() ==> AllOk(p);
  }

  /** A failed select stops the session before authentication and read; a
      failed authentication stops it before the read. */
  lemma ReadStopsEarly(s: Script, uid: seq<byte>, sector: int, block: int, key: seq<byte>)
    ensures var t := ReadTrace(s, uid, sector, block, key);
      && (!s.select.Ok() ==> t == [Call.SelectTag(uid)])
      && (!s.auth.Ok() ==> forall i :: 0 <= i < |t| ==> !t[i].Read?)
  {
    ReadSessionOrder(s, uid, sector, block, key);
  }

  /** No retry: each driver operation appears at most once in a session, and
      no write is ever made. */
  lemma ReadSessionNoRetry(s: Script, uid: seq<byte>, sector: int, block: int, key: seq<byte>)
    ensures var t := ReadTrace(s, uid, sector, block, key);
      && (forall i, j :: 0 <= i < j < |t| ==> StepOf(t[i]) != StepOf(t[j]))
      && (forall i :: 0 <= i < |t| ==> StepOf(t[i]) != WriteStep)
  {
    ReadSessionOrder(s, uid, sector, block, key);
  }

  /** The reported outcome names the first call that did not answer `OK`
      (and whether it raised), or completes with the block read exactly when
      all three calls answered `OK`. */
  lemma {:induction false} ReadOutcomeCases(s: Script, uid: seq<byte>, sector: int, block: int, key: seq<byte>)
    ensures var o := ReadOutcome(s, uid, sector, block, key);
      && (!s.select.Ok() ==> o == Stopped(s.select, SelectStep))
      && (s.select.Ok() && !s.auth.Ok() ==> o == Stopped(s.auth, AuthStep))
      && (s.select.Ok() && s.auth.Ok() && !s.read.Ok() ==> o == Stopped(s.read, ReadStep))
      && (o.Completed? <==> s.select.Ok() && s.auth.Ok() && s.read.Ok())
      && (o.Completed? ==> o.data == s.read.data)
  {
    var rs := ReadReplies(s);
    var chain := ReadChain(uid, sector, block, key);
    assert rs[..0] == [];
    assert rs[..1] == [s.select];
    assert rs[..2] == [s.select, s.auth];
    ChainStopsAtIff(chain, rs, 0);
    ChainStopsAtIff(chain, rs, 1);
    ChainStopsAtIff(chain, rs, 2);
    ChainCompletedIff(chain, rs);
  }

  /** The calls of one iteration against a driver answering from `s`. */
  function IterationCalls(s: Script): seq<Call> {
    IterationTrace(s, ReadTrace(s, RawUid(s), SectorToRead, BlockToRead, DefaultKey))
  }

  /** The result of one iteration against a driver answering from `s`. */
  function IterationReport(s: Script): Iteration {
    IterationResult(s, ReadOutcome(s, RawUid(s), SectorToRead, BlockToRead, DefaultKey))
  }

  /** One iteration of the reader's `while True` loop: request, anticoll,
      then, for a UID of at least four bytes, its text and a read session
      with the configured sector, block and key. Exceptions end the
      iteration. */
  method PollOnce(rdr: Reader) returns (it: Iteration)
    modifies rdr
    ensures rdr.script == old(rdr.script)
    ensures rdr.trace == old(rdr.trace) + IterationCalls(rdr.script)
    ensures it == IterationReport(rdr.script)
  {
    ghost var s := rdr.script;
    assert DetectReplies(s)[1..] == [s.anticoll];

    var stat := rdr.Request(ReqIdl);
    if stat.Raises? {
      return Raised;
    } else if !stat.Ok() {
      return Idle;
    }
    stat := rdr.Anticoll();
    if stat.Raises? {
      return Raised;
    } else if !stat.Ok() {
      return AnticollFailed;
    }
    var rawUid := stat.data;
    if |rawUid| < 4 {
      // Indexing `raw_uid[3]` raises.
      return Raised;
    }
    var uidStr := UidString(rawUid);
    var outcome := ReadDataFromCard(rdr, rawUid, SectorToRead, BlockToRead, DefaultKey);
    it := Session(uidStr, outcome);
  }

  /** Within one iteration, the read session's calls are made exactly when
      `request` and `anticoll` both answered `OK` with a UID of at least four
      bytes; otherwise the iteration makes no call but those two. */
  lemma PollSessionGated(s: Script)
    ensures var t := IterationTrace(s, ReadTrace(s, RawUid(s), SectorToRead, BlockToRead, DefaultKey));
      && (StartsSession(s) <==> exists i :: 0 <= i < |t| && t[i] == Call.SelectTag(RawUid(s)))
      && (!StartsSession(s) ==> forall i :: 0 <= i < |t| ==> t[i] == Call.Request(ReqIdl) || t[i] == Call.Anticoll)
  {
    var session := ReadTrace(s, RawUid(s), SectorToRead, BlockToRead, DefaultKey);
    var t := IterationTrace(s, session);
    ReadSessionOrder(s, RawUid(s), SectorToRead, BlockToRead, DefaultKey);
    SessionOnlyAfterDetection(s, session);
    if StartsSession(s) {
      assert t[2] == Call.SelectTag(RawUid(s));
    }
  }

  /** An iteration of the reader never writes a block. */
  lemma PollNeverWrites(s: Script)
    ensures var t := IterationCalls(s);
      forall i :: 0 <= i < |t| ==> !t[i].Write?
  {
    var session := ReadTrace(s, RawUid(s), SectorToRead, BlockToRead, DefaultKey);
    ReadSessionNoRetry(s, RawUid(s), SectorToRead, BlockToRead, DefaultKey);
    SessionOnlyAfterDetection(s, session);
    var t := IterationCalls(s);
    forall i | 0 <= i < |t|
      ensures !t[i].Write?
    {
      if i >= 2 {
        assert t[i] == session[i - 2];
      }
    }
  }

  /** The calls of each iteration of a run whose iteration `k` meets the
      field `scripts[k]`. */
  function RoundTraces(scripts: seq<Script>): seq<seq<Call>> {
    seq(|scripts|, k requires 0 <= k < |scripts| => IterationCalls(scripts[k]))
  }

  /** A run one iteration longer has that iteration's calls at its end. */
  lemma RoundTracesSnoc(scripts: seq<Script>, k: nat)
    requires k < |scripts|
    ensures Concat(RoundTraces(scripts[..k + 1])) == Concat(RoundTraces(scripts[..k])) + IterationCalls(scripts[k])
  {
    assert RoundTraces(scripts[..k + 1]) == RoundTraces(scripts[..k]) + [IterationCalls(scripts[k])];
    ConcatAppend(RoundTraces(scripts[..k]), IterationCalls(scripts[k]));
  }

  /** `|scripts|` iterations of the reader's `while True` loop; iteration `k`
      meets the field `scripts[k]` (no card, a card that answers, a card that
      fails), so idle rounds and sessions mix freely. */
  method PollRounds(rdr: Reader, scripts: seq<Script>) returns (results: seq<Iteration>)
    modifies rdr
    ensures rdr.trace == old(rdr.trace) + Concat(RoundTraces(scripts))
    ensures |results| == |scripts|
    ensures forall k :: 0 <= k < |scripts| ==> results[k] == IterationReport(scripts[k])
  {
    results := [];
    var k := 0;
    while k < |scripts|
      invariant k <= |scripts|
      invariant rdr.trace == old(rdr.trace) + Concat(RoundTraces(scripts[..k]))
      invariant |results| == k
      invariant forall j :: 0 <= j < k ==> results[j] == IterationReport(scripts[j])
    {
      ghost var front := Concat(RoundTraces(scripts[..k]));
      ghost var step := IterationCalls(scripts[k]);
      rdr.Present(scripts[k]);
      var it := PollOnce(rdr);
      assert rdr.trace == old(rdr.trace) + front + step;
      RoundTracesSnoc(scripts, k);
      assert rdr.trace == old(rdr.trace) + Concat(RoundTraces(scripts[..k + 1]));
      results := results + [it];
      k := k + 1;
    }
    assert scripts[..k] == scripts;
  }

  /** Over a whole run, whatever the field does from one iteration to the
      next, the reader never writes a block. */
  lemma {:induction false} RunNeverWrites(scripts: seq<Script>)
    ensures var t := Concat(RoundTraces(scripts));
      forall i :: 0 <= i < |t| ==> !t[i].Write?
  {
    if scripts != [] {
      var n := |scripts| - 1;
      var ts := RoundTraces(scripts);
      assert ts[..n] == RoundTraces(scripts[..n]);
      RunNeverWrites(scripts[..n]);
      PollNeverWrites(scripts[n]);
      var t := Concat(ts);
      assert t == Concat(ts[..n]) + IterationCalls(scripts[n]);
      forall i | 0 <= i < |t|
        ensures !t[i].Write?
      {
        var front := Concat(ts[..n]);
        if i >= |front| {
          assert t[i] == IterationCalls(scripts[n])[i - |front|];
        }
      }
    }
  }
}
