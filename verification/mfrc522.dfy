/** The MFRC522 reader driver as both scripts see it: six operations, each
    answering with a status (and, for some, data) or raising. The driver is
    a scripted stand-in that records every call, so a session is described
    by the calls it made and the outcome it reported. */
module Mfrc522 {
  import opened Bytes
  import opened BlockCodec

  /** The driver's status codes; only `OK` lets a session proceed. */
  datatype Status = OK | NoTagErr | Err

  /** `REQIDL` (wake idle tags) or `REQALL`. */
  datatype RequestMode = ReqIdl | ReqAll

  /** `PICC_AUTHENT1A` (Key A) or `PICC_AUTHENT1B` (Key B). */
  datatype AuthMode = Authent1A | Authent1B

  /** One call made on the driver, with its arguments. */
  datatype Call =
    | Request(reqMode: RequestMode)
    | Anticoll
    | SelectTag(uid: seq<byte>)
    | Authenticate(authMode: AuthMode, addr: int, key: seq<byte>, uid: seq<byte>)
    | Read(addr: int)
    | Write(addr: int, data: seq<byte>)

  /** What a call produces: a status with its data (the tag type for
      `request`, the UID bytes for `anticoll`, the block for `read`, nothing
      otherwise), or an exception. */
  datatype Reply = Answer(status: Status, data: seq<byte>) | Raises {
    predicate Ok() {
      Answer? && status == OK
    }
  }

  /** The reply the scripted driver gives to each operation. */
  datatype Script = Script(request: Reply, anticoll: Reply, select: Reply,
                           auth: Reply, read: Reply, write: Reply)

  /** The single reader handle: answers from its script and records each
      call in `trace`, oldest first. The script is what the field in front
      of the antenna currently answers; it changes only between loop
      iterations, when a card arrives or leaves (`Present`). */
  class Reader {
    var script: Script
    var trace: seq<Call>

    constructor (script: Script)
      ensures this.script == script && trace == []
    {
      this.script := script;
      trace := [];
    }

    /** Between two loop iterations the field changes: from now on the
        driver answers from `next`. No call is made. */
    method Present(next: Script)
      modifies this
      ensures script == next && trace == old(trace)
    {
      script := next;
    }

    method Request(mode: RequestMode) returns (r: Reply)
      modifies this
      ensures trace == old(trace) + [Call.Request(mode)] && r == script.request
      ensures script == old(script)
    {
      trace := trace + [Call.Request(mode)];
      r := script.request;
    }

    method Anticoll() returns (r: Reply)
      modifies this
      ensures trace == old(trace) + [Call.Anticoll] && r == script.anticoll
      ensures script == old(script)
    {
      trace := trace + [Call.Anticoll];
      r := script.anticoll;
    }

    method SelectTag(uid: seq<byte>) returns (r: Reply)
      modifies this
      ensures trace == old(trace) + [Call.SelectTag(uid)] && r == script.select
      ensures script == old(script)
    {
      trace := trace + [Call.SelectTag(uid)];
      r := script.select;
    }

    method Authenticate(mode: AuthMode, addr: int, key: seq<byte>, uid: seq<byte>) returns (r: Reply)
      modifies this
      ensures trace == old(trace) + [Call.Authenticate(mode, addr, key, uid)] && r == script.auth
      ensures script == old(script)
    {
      trace := trace + [Call.Authenticate(mode, addr, key, uid)];
      r := script.auth;
    }

    method Read(addr: int) returns (r: Reply)
      modifies this
      ensures trace == old(trace) + [Call.Read(addr)] && r == script.read
      ensures script == old(script)
    {
      trace := trace + [Call.Read(addr)];
      r := script.read;
    }

    method Write(addr: int, data: seq<byte>) returns (r: Reply)
      modifies this
      ensures trace == old(trace) + [Call.Write(addr, data)] && r == script.write
      ensures script == old(script)
    {
      trace := trace + [Call.Write(addr, data)];
      r := script.write;
    }
  }

  /** The protocol step a call performs. */
  datatype Step = RequestStep | AnticollStep | SelectStep | AuthStep | ReadStep | WriteStep

  function StepOf(c: Call): Step {
    match c
    case Request(_) => RequestStep
    case Anticoll => AnticollStep
    case SelectTag(_) => SelectStep
    case Authenticate(_, _, _, _) => AuthStep
    case Read(_) => ReadStep
    case Write(_, _) => WriteStep
  }

  /** All replies in `rs` are `OK`. */
  ghost predicate AllOk(rs: seq<Reply>) {
    forall j :: 0 <= j < |rs| ==> rs[j].Ok()
  }

  /** Fail-fast sequencing: how many calls of a chain are made when the
      first is always made and each later one only after its predecessor
      answered `OK`; nothing is retried. */
  function Issued(replies: seq<Reply>): (n: nat)
    ensures n <= |replies|
    ensures replies != [] ==> 1 <= n
  {
    if replies == [] then 0
    else if replies[0].Ok() then 1 + Issued(replies[1..])
    else 1
  }

  /** Call `k` of a chain is made exactly when every earlier call answered `OK`. */
  lemma {:induction false} IssuedIff(replies: seq<Reply>, k: nat)
    requires k < |replies|
    ensures k < Issued(replies) <==> AllOk(replies[..k])
  {
    if k > 0 {
      IssuedIff(replies[1..], k - 1);
      assert replies[1..][..k - 1] == replies[1..k];
      assert replies[..k] == [replies[0]] + replies[1..k];
    }
  }

  /** The chain stops early only at a call that did not answer `OK`. */
  lemma {:induction false} StopsAtFailure(replies: seq<Reply>)
    requires replies != [] && Issued(replies) < |replies|
    ensures !replies[Issued(replies) - 1].Ok()
  {
    if replies[0].Ok() {
      StopsAtFailure(replies[1..]);
    }
  }

  /** The chain runs to its end exactly when all but the last call answered `OK`. */
  lemma RunsToEndIff(replies: seq<Reply>)
    requires replies != []
    ensures Issued(replies) == |replies| <==> AllOk(replies[..|replies| - 1])
  {
    IssuedIff(replies, |replies| - 1);
  }

  /** How a session (select, authenticate, then read or write) ended. */
  datatype Outcome =
    | Completed(data: seq<byte>)   // every call answered OK; the last read's block
    | Failed(step: Step)           // `step` answered with a non-OK status
    | DriverRaised(step: Step)     // `step` raised; the loop's handler takes over

  /** The outcome a fail-fast chain reports: completion with the last
      reply's data, or the step of the call where it stopped. */
  function ChainOutcome(chain: seq<Call>, replies: seq<Reply>): (o: Outcome)
    requires |chain| == |replies| > 0
  {
    var last := Issued(replies) - 1;
    if replies[last].Ok() then Completed(replies[last].data)
    else Stopped(replies[last], StepOf(chain[last]))
  }

  /** A chain completes exactly when every call answered `OK`, and then
      reports the last call's data. */
  lemma ChainCompletedIff(chain: seq<Call>, replies: seq<Reply>)
    requires |chain| == |replies| > 0
    ensures ChainOutcome(chain, replies).Completed? <==> AllOk(replies)
    ensures ChainOutcome(chain, replies).Completed? ==>
              ChainOutcome(chain, replies).data == replies[|replies| - 1].data
  {
    RunsToEndIff(replies);
    if Issued(replies) < |replies| {
      StopsAtFailure(replies);
    }
    assert replies == replies[..|replies| - 1] + [replies[|replies| - 1]];
  }

  /** The outcome reported when a call of `step` answers `r` instead of `OK`. */
  function Stopped(r: Reply, step: Step): Outcome {
    if r.Raises? then DriverRaised(step) else Failed(step)
  }

  /** A chain stops at call `k` exactly when every earlier call answered `OK`
      and call `k` did not, and then reports that call's step. */
  lemma ChainStopsAtIff(chain: seq<Call>, replies: seq<Reply>, k: nat)
    requires |chain| == |replies| && k < |replies|
    ensures (Issued(replies) == k + 1 && !replies[k].Ok()) <==> (AllOk(replies[..k]) && !replies[k].Ok())
    ensures AllOk(replies[..k]) && !replies[k].Ok() ==>
              ChainOutcome(chain, replies) == Stopped(replies[k], StepOf(chain[k]))
  {
    IssuedIff(replies, k);
    if AllOk(replies[..k]) && !replies[k].Ok() && k + 1 < |replies| {
      IssuedIff(replies, k + 1);
      assert replies[..k + 1] == replies[..k] + [replies[k]];
    }
  }

  // ---- Detection: the first half of every poll-loop iteration ----

  /** `request(REQIDL)`, then `anticoll()` if that answered `OK`. */
  function DetectChain(): seq<Call> {
    [Call.Request(ReqIdl), Call.Anticoll]
  }

  function DetectReplies(s: Script): seq<Reply> {
    [s.request, s.anticoll]
  }

  /** A session is started: both detection calls answered `OK` and the UID
      has the four bytes the UID text is built from. */
  predicate StartsSession(s: Script) {
    s.request.Ok() && s.anticoll.Ok() && |RawUid(s)| >= 4
  }

  /** The UID bytes `anticoll` produced (none when it raised). */
  function RawUid(s: Script): seq<byte> {
    if s.anticoll.Answer? then s.anticoll.data else []
  }

  /** How one iteration of the poll loop ended. */
  datatype Iteration =
    | Idle                                  // request did not answer OK
    | AnticollFailed                        // anticoll did not answer OK
    | Raised                                // an exception reached the loop's handler before the session
    | Session(uid: string, outcome: Outcome) // a tag was found and the session ran

  /** The calls one iteration makes, given the calls its session makes. */
  function IterationTrace(s: Script, session: seq<Call>): seq<Call> {
    DetectChain()[..Issued(DetectReplies(s))] + (if StartsSession(s) then session else [])
  }

  /** The result of one iteration, given its session's outcome. A UID of
      fewer than four bytes makes the formatting raise `IndexError`. */
  function IterationResult(s: Script, outcome: Outcome): Iteration {
    if s.request.Raises? then Raised
    else if !s.request.Ok() then Idle
    else if s.anticoll.Raises? then Raised
    else if !s.anticoll.Ok() then AnticollFailed
    else if |RawUid(s)| < 4 then Raised
    else Session(UidString(RawUid(s)), outcome)
  }

  /** The session's calls are made exactly when a session is started; when
      `request` or `anticoll` did not answer `OK`, only detection calls
      appear, each at most once and in order. */
  lemma {:induction false} SessionOnlyAfterDetection(s: Script, session: seq<Call>)
    requires session != []
    ensures var t := IterationTrace(s, session);
      && 1 <= |t|
      && t[0] == Call.Request(ReqIdl)
      && (|t| >= 2 <==> s.request.Ok())
      && (|t| >= 2 ==> t[1] == Call.Anticoll)
      && (|t| > 2 <==> StartsSession(s))
      && (StartsSession(s) ==> t[2..] == session)
  {
    var t := IterationTrace(s, session);
    var rs := DetectReplies(s);
    IssuedIff(rs, 1);
    assert rs[..1] == [s.request];
    assert Issued(rs) >= 1;
    if StartsSession(s) {
      assert AllOk(rs);
      assert Issued(rs) == 2;
      assert t == DetectChain() + session;
    }
  }

  /** The iteration reports a session, with the UID text of the card, exactly
      when a session was started. */
  lemma SessionReportedIff(s: Script, outcome: Outcome)
    ensures IterationResult(s, outcome).Session? <==> StartsSession(s)
    ensures StartsSession(s) ==>
              IterationResult(s, outcome) == Session(UidString(RawUid(s)), outcome)
  {
  }

  /** The calls of consecutive loop iterations, joined in order. */
  function Concat(ts: seq<seq<Call>>): seq<Call> {
    if ts == [] then [] else Concat(ts[..|ts| - 1]) + ts[|ts| - 1]
  }

  /** One more iteration appends its calls. */
  lemma ConcatAppend(ts: seq<seq<Call>>, t: seq<Call>)
    ensures Concat(ts + [t]) == Concat(ts) + t
  {
    assert (ts + [t])[..|ts|] == ts;
  }

  /** Iteration `k` of a run makes exactly its own calls, after those of the
      iterations before it and before those of the iterations after it. */
  lemma {:induction false} ConcatSplit(ts: seq<seq<Call>>, k: nat)
    requires k < |ts|
    ensures Concat(ts) == Concat(ts[..k]) + ts[k] + Concat(ts[k + 1..])
  {
    var n := |ts| - 1;
    var init := ts[..n];
    if k == n {
      assert ts[k + 1..] == [];
    } else {
      ConcatSplit(init, k);
      assert init[..k] == ts[..k];
      assert init[k] == ts[k];
      var tail := ts[k + 1..];
      assert tail[..|tail| - 1] == init[k + 1..];
      assert tail[|tail| - 1] == ts[n];
    }
  }
}
