/**
 * The flashing session of `KFlash.write` as pure functions of what the
 * device sends back. Each phase is a function from the queue of buffers the
 * serial reader will still deliver (one element per `reader.read()`) to a
 * `Run`: how the phase ended, everything it did to the port, in order, and
 * the buffers it left unread. The imperative `Loader` class is proved to
 * behave exactly like these functions.
 */
module Protocol {
  import opened Results
  import opened Bytes
  import opened Slip
  import opened Packets
  import opened Responses

  /** One action on the serial port: a write, a control line set, a baud change. */
  datatype Event = Sent(bytes: seq<byte>) | Dtr(high: bool) | Rts(high: bool) | Rebaud(rate: nat)

  /**
   * The exceptions that end a session: "Invalid SLIP escape" (thrown by the
   * frame scan), "FlashStubError", "InitalizeFlashError" and
   * "InitialFlashError".
   */
  datatype Exception = SlipEscape | FlashStub | InitalizeFlash | InitialFlash

  /** How a phase ended; `Stopped` means the reader had nothing more to deliver. */
  datatype Status = Done | Threw(e: Exception) | Stopped

  datatype Run = Run(status: Status, events: seq<Event>, rest: seq<seq<byte>>)

  const MAX_RETRY_TIMES: nat := 10

  /**
   * The arguments the session leaves at their defaults: the address of
   * `install_flash_bootloader` and `boot`, the rate of `change_baudrate`
   * and the chip type of `init_flash`.
   */
  datatype Settings = Settings(stubAddress: nat, baudrate: nat, chipType: nat)

  const DEFAULTS: Settings := Settings(STUB_ADDRESS, 2000000, 1)

  /** `reset_to_isp`: DTR and RTS low, then RTS high (reset held), then DTR high and RTS low. */
  const RESET_TO_ISP: seq<Event> := [Dtr(false), Rts(false), Dtr(false), Rts(true), Dtr(true), Rts(false)]

  /** `reset_to_boot`: as above, but the last step sets RTS low before DTR, and DTR stays low. */
  const RESET_TO_BOOT: seq<Event> := [Dtr(false), Rts(false), Dtr(false), Rts(true), Rts(false), Dtr(false)]

  /** The levels of the two control lines: DTR drives IO16, RTS holds the chip in reset. */
  datatype Lines = Lines(dtr: bool, rts: bool)

  /** The line levels after `events`, starting from `start`; only DTR and RTS events move them. */
  function Levels(events: seq<Event>, start: Lines): (l: Lines)
    ensures (forall k :: 0 <= k < |events| ==> !events[k].Dtr?) ==> l.dtr == start.dtr
    ensures (forall k :: 0 <= k < |events| ==> !events[k].Rts?) ==> l.rts == start.rts
  {
    if events == [] then start
    else
      var before := Levels(events[..|events| - 1], start);
      match events[|events| - 1]
      case Dtr(high) => Lines(high, before.rts)
      case Rts(high) => Lines(before.dtr, high)
      case _ => before
  }

  /**
   * `reset_to_isp` lowers both lines, holds reset with IO16 released, then
   * pulls IO16 low while reset is still held and only then releases reset,
   * so the chip leaves reset in ISP mode. Wherever the lines started.
   */
  lemma ResetToIspLevels(start: Lines)
    ensures Levels(RESET_TO_ISP[..2], start) == Lines(false, false)
    ensures Levels(RESET_TO_ISP[..4], start) == Lines(false, true)
    ensures Levels(RESET_TO_ISP[..5], start) == Lines(true, true)
    ensures Levels(RESET_TO_ISP, start) == Lines(true, false)
  {
  }

  /**
   * `reset_to_boot` holds reset the same way, but releases it while IO16
   * is still high, so the chip leaves reset and boots normally.
   */
  lemma ResetToBootLevels(start: Lines)
    ensures Levels(RESET_TO_BOOT[..2], start) == Lines(false, false)
    ensures Levels(RESET_TO_BOOT[..4], start) == Lines(false, true)
    ensures Levels(RESET_TO_BOOT[..5], start) == Lines(false, false)
    ensures Levels(RESET_TO_BOOT, start) == Lines(false, false)
  {
    assert RESET_TO_BOOT[..5][..4] == RESET_TO_BOOT[..4];
  }

  /** One pass of the greeting loop: `reset_to_isp`, then the ISP_NOP frame. */
  const ISP_ATTEMPT: seq<Event> := RESET_TO_ISP + [Sent(ISP_NOP_FRAME)]

  /** The same phase's events, with `prefix` done before them. */
  function After(prefix: seq<Event>, r: Run): (r': Run)
    ensures r'.status == r.status && r'.rest == r.rest
    ensures |r'.events| == |prefix| + |r.events| && r'.events[..|prefix|] == prefix
  {
    Run(r.status, prefix + r.events, r.rest)
  }

  lemma AfterAfter(a: seq<Event>, b: seq<Event>, r: Run)
    ensures After(a, After(b, r)) == After(a + b, r)
  {
    assert a + (b + r.events) == (a + b) + r.events;
  }

  /** `n` copies of `ev`, one after the other. */
  function Repeat(ev: seq<Event>, n: nat): (s: seq<Event>)
    ensures |s| == n * |ev|
  {
    if n == 0 then [] else ev + Repeat(ev, n - 1)
  }

  // ---------------------------------------------------------------------
  // recv_one_return
  // ---------------------------------------------------------------------

  /** What one call of `recv_one_return` ends with. */
  datatype Recv = Got(data: seq<Elem>) | Broken | Closed

  datatype Received = Received(outcome: Recv, rest: seq<seq<byte>>)

  /** The second scan of one buffer: its element list, or the thrown escape error. */
  function Scan(buf: seq<byte>): (r: Recv)
    ensures !r.Closed?
    ensures r.Broken? ==> ESC in buf
  {
    match Unframe(buf, 0, false)
    case Ok(data) => Got(data)
    case Err(_) => Broken
  }

  /**
   * `recv_one_return`: a buffer without 0xC0 is dropped and the next one
   * read; the first buffer with a 0xC0 is scanned and consumed.
   */
  function Receive(input: seq<seq<byte>>): (r: Received)
    ensures r.outcome.Closed? <==> forall k :: 0 <= k < |input| ==> END !in input[k]
    ensures r.outcome.Closed? ==> r.rest == []
    ensures !r.outcome.Closed? ==> |r.rest| < |input|
    decreases |input|
  {
    if input == [] then Received(Closed, [])
    else if END !in input[0] then
      var r := Receive(input[1..]);
      assert forall k :: 1 <= k < |input| ==> input[k] == input[1..][k - 1];
      r
    else Received(Scan(input[0]), input[1..])
  }

  /** The buffers before the first one with a 0xC0 are skipped, and that one is scanned. */
  lemma {:induction false} ReceiveFirstFrame(noise: seq<seq<byte>>, buf: seq<byte>, rest: seq<seq<byte>>)
    requires forall k :: 0 <= k < |noise| ==> END !in noise[k]
    requires END in buf
    ensures Receive(noise + [buf] + rest) == Received(Scan(buf), rest)
    decreases |noise|
  {
    var input := noise + [buf] + rest;
    if noise == [] {
      assert input == [buf] + rest;
    } else {
      assert input[0] == noise[0] && input[1..] == noise[1..] + [buf] + rest;
      ReceiveFirstFrame(noise[1..], buf, rest);
    }
  }

  /** A frame the device writes with `MAIXLoader.write`'s encoding, of a packet with no 0xC0 or 0xDB, comes back whole. */
  lemma ReceiveEncoded(p: seq<byte>, rest: seq<seq<byte>>)
    requires Clean(p)
    ensures Receive([Encode(p)] + rest) == Received(Got(Elems(p)), rest)
  {
    UnframeEncodeClean(p);
    assert Encode(p)[0] == END;
    assert ([Encode(p)] + rest)[1..] == rest;
  }

  /** A buffer the scan rejects: it holds a 0xC0 and makes the scan throw. */
  predicate Garbled(buf: seq<byte>)
  {
    END in buf && Scan(buf).Broken?
  }

  /** A buffer the scan accepts. */
  predicate Readable(buf: seq<byte>)
  {
    END in buf && Scan(buf).Got?
  }

  /** How a phase judges one reply. */
  datatype Verdict = Matched | Mismatched | Failed | Ended

  /**
   * The reply as `flash_greeting` and `init_flash` judge it against `op`:
   * the scan or `FlashModeResponse.parse` throws, the reply is `op` with
   * ISP_RET_OK, or it is something else.
   */
  function FlashVerdict(outcome: Recv, op: byte): (v: Verdict)
    ensures v == Ended <==> outcome.Closed?
    ensures v == Failed <==> outcome.Broken? || (outcome.Got? && Undefined in outcome.data)
    ensures v == Matched <==> (outcome.Got? && Undefined !in outcome.data && |outcome.data| >= 2 &&
      outcome.data[0] == Byte(op) && outcome.data[1] == Byte(ISP_RET_OK))
  {
    match outcome
    case Closed => Ended
    case Broken => Failed
    case Got(data) =>
      IsReplyIff(data, op);
      match ParseFlash(data)
      case None => Failed
      case Some(resp) => if IsReply(resp, op) then Matched else Mismatched
  }

  /** The checks `flash_greeting` and `init_flash` make on a parsed reply, read as a verdict. */
  lemma FlashVerdictChecks(outcome: Recv, op: byte)
    requires outcome.Got?
    ensures var v := FlashVerdict(outcome, op);
      var p := ParseFlash(outcome.data);
      && (p.None? <==> v == Failed)
      && (p.Some? ==> (v == Matched <==> p.value.op == Num(op) && p.value.reason == Num(ISP_RET_OK)))
      && (p.Some? ==> (v == Mismatched <==> !(p.value.op == Num(op) && p.value.reason == Num(ISP_RET_OK))))
  {
  }

  /**
   * The reply as `recv_debug` judges it: the scan throws, the reason is
   * ISP_RET_DEFAULT or ISP_RET_OK, or it is something else.
   */
  function IspVerdict(outcome: Recv): (v: Verdict)
    ensures v == Ended <==> outcome.Closed?
    ensures v == Failed <==> outcome.Broken?
    ensures v == Matched <==> (outcome.Got? && |outcome.data| >= 2 &&
      (outcome.data[1] == Byte(ISP_RET_DEFAULT) || outcome.data[1] == Byte(ISP_RET_OK)))
  {
    match outcome
    case Closed => Ended
    case Broken => Failed
    case Got(data) =>
      AcknowledgedIff(data);
      if Acknowledged(ParseIsp(data)) then Matched else Mismatched
  }

  /** `n` copies of one event. */
  function Copies(e: Event, n: nat): (s: seq<Event>)
    ensures |s| == n && forall i :: 0 <= i < n ==> s[i] == e
  {
    seq(n, i => e)
  }

  // ---------------------------------------------------------------------
  // The greeting loop of `KFlash.write`
  // ---------------------------------------------------------------------

  /**
   * `reset_to_isp` and `greeting` until `greeting` returns: `ISPResponse.parse`
   * never throws, so only the scan's escape error makes the loop go round.
   */
  function IspGreetingRun(input: seq<seq<byte>>): (r: Run)
    ensures !r.status.Threw?
    ensures |r.rest| < |input| || r.status.Stopped?
    decreases |input|
  {
    var got := Receive(input);
    match got.outcome
    case Closed => Run(Stopped, ISP_ATTEMPT, [])
    case Broken => After(ISP_ATTEMPT, IspGreetingRun(got.rest))
    case Got(_) => Run(Done, ISP_ATTEMPT, got.rest)
  }

  /** The greeting loop does nothing but whole attempts, at least one. */
  lemma {:induction false} IspGreetingAttempts(input: seq<seq<byte>>) returns (attempts: nat)
    ensures attempts >= 1 && IspGreetingRun(input).events == Repeat(ISP_ATTEMPT, attempts)
    decreases |input|
  {
    var got := Receive(input);
    if got.outcome.Broken? {
      var n := IspGreetingAttempts(got.rest);
      attempts := n + 1;
    } else {
      attempts := 1;
      assert Repeat(ISP_ATTEMPT, 1) == ISP_ATTEMPT + [];
    }
  }

  /** However many garbled replies come first, the loop gets past them on the first readable one. */
  lemma {:induction false} IspGreetingRetries(bad: seq<seq<byte>>, good: seq<byte>, rest: seq<seq<byte>>)
    requires forall k :: 0 <= k < |bad| ==> Garbled(bad[k])
    requires Readable(good)
    ensures IspGreetingRun(bad + [good] + rest) == Run(Done, Repeat(ISP_ATTEMPT, |bad| + 1), rest)
    decreases |bad|
  {
    if bad == [] {
      ReceiveFirstFrame([], good, rest);
      assert [] + [good] + rest == [good] + rest;
      assert Repeat(ISP_ATTEMPT, 1) == ISP_ATTEMPT + [];
    } else {
      var input := bad + [good] + rest;
      assert input == [bad[0]] + (bad[1..] + [good] + rest);
      ReceiveFirstFrame([], bad[0], bad[1..] + [good] + rest);
      IspGreetingRetries(bad[1..], good, rest);
    }
  }

  // ---------------------------------------------------------------------
  // flash_greeting
  // ---------------------------------------------------------------------

  /**
   * `flash_greeting` with `count` FLASH_NOP frames already counted: an
   * exception from the scan or the parser retries without looking at the
   * count; a reply other than FLASH_NOP with ISP_RET_OK throws once more
   * than MAX_RETRY_TIMES frames have gone out.
   */
  function FlashGreetingRun(input: seq<seq<byte>>, count: nat): (r: Run)
    ensures r.status == Done || r.status == Stopped || r.status == Threw(FlashStub)
    decreases |input|
  {
    var sent := [Sent(FLASH_NOP_FRAME)];
    var got := Receive(input);
    match FlashVerdict(got.outcome, FLASH_NOP as byte)
    case Ended => Run(Stopped, sent, [])
    case Failed => After(sent, FlashGreetingRun(got.rest, count + 1))
    case Matched => Run(Done, sent, got.rest)
    case Mismatched =>
      if count + 1 > MAX_RETRY_TIMES then Run(Threw(FlashStub), sent, got.rest)
      else After(sent, FlashGreetingRun(got.rest, count + 1))
  }

  /** One pass of `flash_greeting`'s loop, by the verdict on the reply. */
  lemma FlashGreetingNext(input: seq<seq<byte>>, count: nat)
    ensures var got := Receive(input);
      var v := FlashVerdict(got.outcome, FLASH_NOP as byte);
      var r := FlashGreetingRun(input, count);
      var sent := [Sent(FLASH_NOP_FRAME)];
      && (v == Ended ==> r == Run(Stopped, sent, []))
      && (v == Matched ==> r == Run(Done, sent, got.rest))
      && (v == Mismatched && count + 1 > MAX_RETRY_TIMES ==> r == Run(Threw(FlashStub), sent, got.rest))
      && (v == Failed || (v == Mismatched && count + 1 <= MAX_RETRY_TIMES) ==>
            |got.rest| < |input| && r == After(sent, FlashGreetingRun(got.rest, count + 1)))
  {
  }

  /**
   * `flash_greeting` writes only FLASH_NOP frames, at least one, and gives up
   * only once the count has passed MAX_RETRY_TIMES.
   */
  lemma {:induction false} FlashGreetingWrites(input: seq<seq<byte>>, count: nat)
    ensures var r := FlashGreetingRun(input, count);
      && |r.events| >= 1 && r.events == Copies(Sent(FLASH_NOP_FRAME), |r.events|)
      && (r.status.Threw? ==> count + |r.events| > MAX_RETRY_TIMES)
    decreases |input|
  {
    var got := Receive(input);
    var v := FlashVerdict(got.outcome, FLASH_NOP as byte);
    if v == Failed || (v == Mismatched && count + 1 <= MAX_RETRY_TIMES) {
      FlashGreetingWrites(got.rest, count + 1);
      CopiesCons(Sent(FLASH_NOP_FRAME), FlashGreetingRun(got.rest, count + 1).events);
    }
  }

  /** One more copy in front. */
  lemma CopiesCons(e: Event, s: seq<Event>)
    requires s == Copies(e, |s|)
    ensures [e] + s == Copies(e, |s| + 1)
  {
  }

  /** A readable reply that `flash_greeting` and `init_flash` judge `v` against `op`. */
  predicate Answers(buf: seq<byte>, op: byte, v: Verdict)
  {
    END in buf && FlashVerdict(Scan(buf), op) == v
  }

  /** With every reply a mismatch, `flash_greeting` throws after exactly `MAX_RETRY_TIMES + 1 - count` frames. */
  lemma {:induction false} FlashGreetingGivesUp(replies: seq<seq<byte>>, rest: seq<seq<byte>>, count: nat)
    requires count <= MAX_RETRY_TIMES && |replies| == MAX_RETRY_TIMES + 1 - count
    requires forall k :: 0 <= k < |replies| ==> Answers(replies[k], FLASH_NOP as byte, Mismatched)
    ensures FlashGreetingRun(replies + rest, count) ==
      Run(Threw(FlashStub), Copies(Sent(FLASH_NOP_FRAME), |replies|), rest)
    decreases |replies|
  {
    var input := replies + rest;
    assert input == [] + [replies[0]] + (replies[1..] + rest);
    ReceiveFirstFrame([], replies[0], replies[1..] + rest);
    if count < MAX_RETRY_TIMES {
      FlashGreetingGivesUp(replies[1..], rest, count + 1);
      CopiesCons(Sent(FLASH_NOP_FRAME), Copies(Sent(FLASH_NOP_FRAME), |replies| - 1));
    } else {
      assert replies[1..] + rest == rest;
    }
  }

  /**
   * A failed receive is retried without checking the limit (the pass is still
   * counted): any number of them, then a matching reply, ends the greeting.
   */
  lemma {:induction false} FlashGreetingOutlastsErrors(bad: seq<seq<byte>>, good: seq<byte>, rest: seq<seq<byte>>, count: nat)
    requires forall k :: 0 <= k < |bad| ==> Answers(bad[k], FLASH_NOP as byte, Failed)
    requires Answers(good, FLASH_NOP as byte, Matched)
    ensures FlashGreetingRun(bad + [good] + rest, count) ==
      Run(Done, Copies(Sent(FLASH_NOP_FRAME), |bad| + 1), rest)
    decreases |bad|
  {
    if bad == [] {
      assert [] + [good] + rest == [good] + rest;
      ReceiveFirstFrame([], good, rest);
    } else {
      var input := bad + [good] + rest;
      assert input == [] + [bad[0]] + (bad[1..] + [good] + rest);
      ReceiveFirstFrame([], bad[0], bad[1..] + [good] + rest);
      FlashGreetingOutlastsErrors(bad[1..], good, rest, count + 1);
      CopiesCons(Sent(FLASH_NOP_FRAME), Copies(Sent(FLASH_NOP_FRAME), |bad|));
    }
  }

  // ---------------------------------------------------------------------
  // init_flash
  // ---------------------------------------------------------------------

  /** The FLASHMODE_FLASH_INIT frame `init_flash` builds once and resends. */
  function InitFrame(chipType: nat): seq<byte>
  {
    Encode(Pack(FlashInit(chipType)))
  }

  /**
   * The loop of `init_flash` around the frame it built, with `count` frames
   * already counted: an exception from the scan or the parser is rethrown
   * at once as "InitalizeFlashError"; a reply
   * other than FLASHMODE_FLASH_INIT with ISP_RET_OK throws
   * "InitialFlashError" once more than MAX_RETRY_TIMES frames have gone out.
   */
  function InitFlashRun(frame: seq<byte>, input: seq<seq<byte>>, count: nat): (r: Run)
    ensures r.status.Threw? ==> r.status.e == InitalizeFlash || r.status.e == InitialFlash
    decreases |input|
  {
    var sent := [Sent(frame)];
    var got := Receive(input);
    match FlashVerdict(got.outcome, FLASHMODE_FLASH_INIT as byte)
    case Ended => Run(Stopped, sent, [])
    case Failed => Run(Threw(InitalizeFlash), sent, got.rest)
    case Matched => Run(Done, sent, got.rest)
    case Mismatched =>
      if count + 1 > MAX_RETRY_TIMES then Run(Threw(InitialFlash), sent, got.rest)
      else After(sent, InitFlashRun(frame, got.rest, count + 1))
  }

  /** One pass of `init_flash`'s loop, by the verdict on the reply. */
  lemma InitFlashNext(frame: seq<byte>, input: seq<seq<byte>>, count: nat)
    ensures var got := Receive(input);
      var v := FlashVerdict(got.outcome, FLASHMODE_FLASH_INIT as byte);
      var r := InitFlashRun(frame, input, count);
      var sent := [Sent(frame)];
      && (v == Ended ==> r == Run(Stopped, sent, []))
      && (v == Failed ==> r == Run(Threw(InitalizeFlash), sent, got.rest))
      && (v == Matched ==> r == Run(Done, sent, got.rest))
      && (v == Mismatched && count + 1 > MAX_RETRY_TIMES ==> r == Run(Threw(InitialFlash), sent, got.rest))
      && (v == Mismatched && count + 1 <= MAX_RETRY_TIMES ==>
            |got.rest| < |input| && r == After(sent, InitFlashRun(frame, got.rest, count + 1)))
  {
  }

  /**
   * `init_flash` writes only its init frame, at least once and never more
   * than `MAX_RETRY_TIMES + 1 - count` times, and exactly that many when it
   * gives up with "InitialFlashError".
   */
  lemma {:induction false} InitFlashBounded(frame: seq<byte>, input: seq<seq<byte>>, count: nat)
    requires count <= MAX_RETRY_TIMES
    ensures var r := InitFlashRun(frame, input, count);
      && 1 <= |r.events| <= MAX_RETRY_TIMES + 1 - count
      && r.events == Copies(Sent(frame), |r.events|)
      && (r.status == Threw(InitialFlash) ==> |r.events| == MAX_RETRY_TIMES + 1 - count)
    decreases |input|
  {
    var got := Receive(input);
    InitFlashNext(frame, input, count);
    if FlashVerdict(got.outcome, FLASHMODE_FLASH_INIT as byte) == Mismatched && count + 1 <= MAX_RETRY_TIMES {
      var sub := InitFlashRun(frame, got.rest, count + 1);
      InitFlashBounded(frame, got.rest, count + 1);
      CopiesCons(Sent(frame), sub.events);
    }
  }

  /**
   * Eleven mismatched replies from the start make `init_flash` throw
   * "InitialFlashError" after exactly eleven writes of its packet.
   */
  lemma {:induction false} InitFlashGivesUp(frame: seq<byte>, replies: seq<seq<byte>>, rest: seq<seq<byte>>, count: nat)
    requires count <= MAX_RETRY_TIMES && |replies| == MAX_RETRY_TIMES + 1 - count
    requires forall k :: 0 <= k < |replies| ==> Answers(replies[k], FLASHMODE_FLASH_INIT as byte, Mismatched)
    ensures InitFlashRun(frame, replies + rest, count) ==
      Run(Threw(InitialFlash), Copies(Sent(frame), |replies|), rest)
    decreases |replies|
  {
    var input := replies + rest;
    assert input == [] + [replies[0]] + (replies[1..] + rest);
    ReceiveFirstFrame([], replies[0], replies[1..] + rest);
    InitFlashNext(frame, input, count);
    if count < MAX_RETRY_TIMES {
      InitFlashGivesUp(frame, replies[1..], rest, count + 1);
      CopiesCons(Sent(frame), Copies(Sent(frame), |replies| - 1));
    } else {
      assert replies[1..] + rest == rest;
    }
  }

  /** A failed receive ends `init_flash` at once with "InitalizeFlashError". */
  lemma InitFlashFailsFast(frame: seq<byte>, buf: seq<byte>, rest: seq<seq<byte>>, count: nat)
    requires Answers(buf, FLASHMODE_FLASH_INIT as byte, Failed)
    ensures InitFlashRun(frame, [buf] + rest, count) == Run(Threw(InitalizeFlash), [Sent(frame)], rest)
  {
    ReceiveFirstFrame([], buf, rest);
    assert [] + [buf] + rest == [buf] + rest;
  }

  // ---------------------------------------------------------------------
  // flash_dataframe and flash_firmware: one request at a time until acknowledged
  // ---------------------------------------------------------------------

  /** An upload's run, and how many requests were acknowledged. */
  datatype Upload = Upload(run: Run, acked: nat)

  /** The frame `MAIXLoader.write` sends for a request. */
  function Frame(r: Request): seq<byte>
  {
    Encode(Pack(r))
  }

  /**
   * The loop of `flash_dataframe` and `flash_firmware` over a plan of
   * requests: each request is written until `recv_debug` accepts a reply;
   * the scan's escape error propagates.
   */
  function UploadRun(plan: seq<Request>, input: seq<seq<byte>>): (u: Upload)
    ensures u.acked <= |plan|
    ensures u.run.status.Done? <==> u.acked == |plan|
    ensures u.run.status.Threw? ==> u.run.status.e == SlipEscape
    decreases |input|, |plan|
  {
    if plan == [] then Upload(Run(Done, [], input), 0)
    else
      var sent := [Sent(Frame(plan[0]))];
      var got := Receive(input);
      match IspVerdict(got.outcome)
      case Ended => Upload(Run(Stopped, sent, []), 0)
      case Failed => Upload(Run(Threw(SlipEscape), sent, got.rest), 0)
      case Matched =>
        var u := UploadRun(plan[1..], got.rest);
        Upload(After(sent, u.run), u.acked + 1)
      case Mismatched =>
        var u := UploadRun(plan, got.rest);
        Upload(After(sent, u.run), u.acked)
  }

  /** One pass of an upload loop, by the verdict on the reply. */
  lemma UploadNext(plan: seq<Request>, input: seq<seq<byte>>)
    requires plan != []
    ensures var got := Receive(input);
      var v := IspVerdict(got.outcome);
      var u := UploadRun(plan, input);
      var sent := [Sent(Frame(plan[0]))];
      && (v == Ended ==> u == Upload(Run(Stopped, sent, []), 0))
      && (v == Failed ==> u == Upload(Run(Threw(SlipEscape), sent, got.rest), 0))
      && (v == Matched ==> u == Upload(After(sent, UploadRun(plan[1..], got.rest).run), UploadRun(plan[1..], got.rest).acked + 1))
      && (v == Mismatched ==> |got.rest| < |input| && u == Upload(After(sent, UploadRun(plan, got.rest).run), UploadRun(plan, got.rest).acked))
  {
    var got := Receive(input);
    match IspVerdict(got.outcome)
    case Ended =>
    case Failed =>
    case Matched =>
    case Mismatched =>
  }

  /**
   * The inner loop of `flash_dataframe` and `flash_firmware`: one frame,
   * rewritten while `recv_debug` refuses it.
   */
  function Retry(frame: seq<byte>, input: seq<seq<byte>>): (r: Run)
    ensures r.status == Done || r.status == Stopped || r.status == Threw(SlipEscape)
    decreases |input|
  {
    var sent := [Sent(frame)];
    var got := Receive(input);
    match IspVerdict(got.outcome)
    case Ended => Run(Stopped, sent, [])
    case Failed => Run(Threw(SlipEscape), sent, got.rest)
    case Matched => Run(Done, sent, got.rest)
    case Mismatched => After(sent, Retry(frame, got.rest))
  }

  /** One pass of the retry loop, by the verdict on the reply. */
  lemma RetryNext(frame: seq<byte>, input: seq<seq<byte>>)
    ensures var got := Receive(input);
      var v := IspVerdict(got.outcome);
      var r := Retry(frame, input);
      var sent := [Sent(frame)];
      && (v == Ended ==> r == Run(Stopped, sent, []))
      && (v == Failed ==> r == Run(Threw(SlipEscape), sent, got.rest))
      && (v == Matched ==> r == Run(Done, sent, got.rest))
      && (v == Mismatched ==> |got.rest| < |input| && r == After(sent, Retry(frame, got.rest)))
  {
  }

  /**
   * An upload is its first request retried until accepted, then the rest of
   * the plan; if that first request is never accepted, the upload stops
   * there with nothing acknowledged.
   */
  lemma {:induction false} UploadSplit(plan: seq<Request>, input: seq<seq<byte>>)
    requires plan != []
    ensures var t := Retry(Frame(plan[0]), input);
      var u := UploadRun(plan, input);
      var v := UploadRun(plan[1..], t.rest);
      && (t.status == Done ==> u == Upload(After(t.events, v.run), v.acked + 1))
      && (t.status != Done ==> u == Upload(t, 0))
    decreases |input|
  {
    UploadNext(plan, input);
    RetryNext(Frame(plan[0]), input);
    var got := Receive(input);
    if IspVerdict(got.outcome) == Mismatched {
      UploadSplit(plan, got.rest);
      var t := Retry(Frame(plan[0]), got.rest);
      AfterAfter([Sent(Frame(plan[0]))], t.events, UploadRun(plan[1..], t.rest).run);
    }
  }

  /** `UploadSplit` for the plan of `flash_firmware`: its first frame is the first chunk, padded. */
  lemma FirmwareSplit(image: seq<byte>, address: nat, input: seq<seq<byte>>)
    requires image != []
    ensures var n := Min(ISP_FLASH_DATA_FRAME_SIZE, |image|);
      var t := Retry(Frame(FlashWrite(address, PadTo(image[..n], ISP_FLASH_DATA_FRAME_SIZE))), input);
      var u := UploadRun(FirmwarePlan(image, address), input);
      var v := UploadRun(FirmwarePlan(image[n..], address + ISP_FLASH_DATA_FRAME_SIZE), t.rest);
      && (t.status == Done ==> u == Upload(After(t.events, v.run), v.acked + 1))
      && (t.status != Done ==> u == Upload(t, 0))
  {
    FirmwarePlanFirst(image, address);
    UploadSplit(FirmwarePlan(image, address), input);
  }

  /**
   * The outer loop of `flash_firmware` chunk by chunk: cut off at most a
   * frame, pad it, write it at `address` until accepted, move `address` on
   * a frame. The session's address is where the loop leaves it.
   */
  function FirmwareUpload(image: seq<byte>, address: nat, input: seq<seq<byte>>): (s: Session)
    ensures s.run.status == Done || s.run.status == Stopped || s.run.status == Threw(SlipEscape)
    ensures s.address >= address
    ensures s.run.status == Done ==>
      s.address == address + ISP_FLASH_DATA_FRAME_SIZE * |Chunks(image, ISP_FLASH_DATA_FRAME_SIZE)|
    decreases |image|
  {
    if image == [] then Session(Run(Done, [], input), address)
    else
      var n := Min(ISP_FLASH_DATA_FRAME_SIZE, |image|);
      var t := Retry(Frame(FlashWrite(address, PadTo(image[..n], ISP_FLASH_DATA_FRAME_SIZE))), input);
      if t.status != Done then Session(t, address)
      else Then(t.events, FirmwareUpload(image[n..], address + ISP_FLASH_DATA_FRAME_SIZE, t.rest))
  }

  /**
   * The chunk-by-chunk loop uploads exactly the firmware plan, and leaves
   * `address` one frame on per acknowledged request.
   */
  lemma {:induction false} FirmwareUploadIsPlan(image: seq<byte>, address: nat, input: seq<seq<byte>>)
    ensures var u := UploadRun(FirmwarePlan(image, address), input);
      FirmwareUpload(image, address, input) == Session(u.run, address + ISP_FLASH_DATA_FRAME_SIZE * u.acked)
    decreases |image|
  {
    if image == [] {
      assert FirmwarePlan(image, address) == [];
    } else {
      var n := Min(ISP_FLASH_DATA_FRAME_SIZE, |image|);
      var t := Retry(Frame(FlashWrite(address, PadTo(image[..n], ISP_FLASH_DATA_FRAME_SIZE))), input);
      FirmwareSplit(image, address, input);
      if t.status == Done {
        FirmwareUploadIsPlan(image[n..], address + ISP_FLASH_DATA_FRAME_SIZE, t.rest);
      }
    }
  }

  /** `UploadSplit` for the plan of `flash_dataframe`: its first frame is the first chunk. */
  lemma MemorySplit(data: seq<byte>, address: nat, input: seq<seq<byte>>)
    requires data != []
    ensures var n := Min(DATAFRAME_SIZE, |data|);
      var t := Retry(Frame(MemoryWrite(address, data[..n])), input);
      var u := UploadRun(MemoryPlan(data, address), input).run;
      var v := UploadRun(MemoryPlan(data[n..], address + DATAFRAME_SIZE), t.rest).run;
      && (t.status == Done ==> u == After(t.events, v))
      && (t.status != Done ==> u == t)
  {
    MemoryPlanFirst(data, address);
    UploadSplit(MemoryPlan(data, address), input);
  }

  /** One frame per request, in plan order. */
  function Frames(plan: seq<Request>): (s: seq<Event>)
    ensures |s| == |plan|
  {
    if plan == [] then [] else [Sent(Frame(plan[0]))] + Frames(plan[1..])
  }

  /** `tries[j]` frames of request `plan[j]`, for each `j` in order. */
  function Tries(plan: seq<Request>, tries: seq<nat>): seq<Event>
    requires |tries| == |plan|
  {
    if plan == [] then [] else Copies(Sent(Frame(plan[0])), tries[0]) + Tries(plan[1..], tries[1..])
  }

  /** A refused request adds one frame to its own count of tries. */
  lemma TriesCons(plan: seq<Request>, tries: seq<nat>)
    requires |tries| == |plan| > 0
    ensures [Sent(Frame(plan[0]))] + Tries(plan, tries) == Tries(plan, [tries[0] + 1] + tries[1..])
  {
    var e := Sent(Frame(plan[0]));
    var tries' := [tries[0] + 1] + tries[1..];
    assert tries'[1..] == tries[1..];
    CopiesCons(e, Copies(e, tries[0]));
  }

  /**
   * `u` sent the plan's requests in order, `tries[j]` times the `j`-th, each
   * at least once; it stopped on the request after the last acknowledged
   * one, unless all were acknowledged.
   */
  predicate Shaped(plan: seq<Request>, u: Upload, tries: seq<nat>)
  {
    && |tries| == (if u.run.status.Done? then |plan| else u.acked + 1)
    && |tries| <= |plan|
    && (forall j :: 0 <= j < |tries| ==> tries[j] >= 1)
    && u.run.events == Tries(plan[..|tries|], tries)
  }

  /** Every upload run has that shape. */
  lemma {:induction false} UploadShape(plan: seq<Request>, input: seq<seq<byte>>) returns (tries: seq<nat>)
    ensures Shaped(plan, UploadRun(plan, input), tries)
    decreases |input|, |plan|
  {
    if plan == [] {
      tries := [];
    } else {
      var e := Sent(Frame(plan[0]));
      var got := Receive(input);
      var v := IspVerdict(got.outcome);
      if v == Matched {
        var more := UploadShape(plan[1..], got.rest);
        tries := ShapeAcked(plan, UploadRun(plan[1..], got.rest), more);
      } else if v == Mismatched {
        var more := UploadShape(plan, got.rest);
        tries := ShapeRefused(plan, UploadRun(plan, got.rest), more);
      } else {
        tries := [1];
        assert plan[..1] == [plan[0]];
        assert Copies(e, 1) == [e];
      }
    }
  }

  /** An acknowledged first request, then the rest of the plan. */
  lemma ShapeAcked(plan: seq<Request>, sub: Upload, more: seq<nat>) returns (tries: seq<nat>)
    requires |plan| > 0 && Shaped(plan[1..], sub, more)
    ensures Shaped(plan, Upload(After([Sent(Frame(plan[0]))], sub.run), sub.acked + 1), tries)
  {
    tries := [1] + more;
    var p := plan[..|tries|];
    assert p[0] == plan[0];
    assert p[1..] == plan[1..][..|more|] by {
      SuffixOfPrefix(plan, 1, |tries|);
      SliceOfSuffix(plan, 1, |more|);
    }
    TriesAcked(p, more);
  }

  /** One frame of the first request, then the frames of the rest. */
  lemma TriesAcked(plan: seq<Request>, more: seq<nat>)
    requires |plan| == |more| + 1
    ensures Tries(plan, [1] + more) == [Sent(Frame(plan[0]))] + Tries(plan[1..], more)
  {
    var e := Sent(Frame(plan[0]));
    assert ([1] + more)[0] == 1 && ([1] + more)[1..] == more;
    assert Copies(e, 1) == [e];
  }

  /** A refused first request, sent again with the same plan. */
  lemma ShapeRefused(plan: seq<Request>, sub: Upload, more: seq<nat>) returns (tries: seq<nat>)
    requires |plan| > 0 && Shaped(plan, sub, more)
    ensures Shaped(plan, Upload(After([Sent(Frame(plan[0]))], sub.run), sub.acked), tries)
  {
    tries := [more[0] + 1] + more[1..];
    TriesCons(plan[..|more|], more);
  }

  /** Replies `recv_debug` accepts, one per buffer. */
  predicate Acks(acks: seq<seq<byte>>)
  {
    forall k :: 0 <= k < |acks| ==> END in acks[k] && IspVerdict(Scan(acks[k])) == Matched
  }

  /** When every reply is accepted, each request goes out exactly once. */
  lemma {:induction false} UploadAccepted(plan: seq<Request>, acks: seq<seq<byte>>, rest: seq<seq<byte>>)
    requires |acks| == |plan| && Acks(acks)
    ensures UploadRun(plan, acks + rest) == Upload(Run(Done, Frames(plan), rest), |plan|)
    decreases |plan|
  {
    if plan == [] {
      assert acks + rest == rest;
    } else {
      assert acks + rest == [] + [acks[0]] + (acks[1..] + rest);
      ReceiveFirstFrame([], acks[0], acks[1..] + rest);
      UploadAccepted(plan[1..], acks[1..], rest);
    }
  }

  // ---------------------------------------------------------------------
  // The whole session of `KFlash.write`
  // ---------------------------------------------------------------------

  /** A session's run, and the final value of `KFlash.write`'s `address`. */
  datatype Session = Session(run: Run, address: nat)

  /** `boot(address)`: the ISP_MEMORY_BOOT packet, with no reply awaited. */
  function BootFrame(address: nat): seq<byte>
  {
    Frame(MemoryBoot(address))
  }

  /** `change_baudrate`: the baud-rate packet, then the port reopened at the new rate. */
  function BaudrateEvents(baudrate: nat): seq<Event>
  {
    [Sent(Frame(BaudrateSet(baudrate))), Rebaud(baudrate)]
  }

  predicate EndsWith(s: seq<Event>, suffix: seq<Event>)
  {
    |s| >= |suffix| && s[|s| - |suffix|..] == suffix
  }

  lemma EndsWithPrefix(prefix: seq<Event>, s: seq<Event>, suffix: seq<Event>)
    ensures EndsWith(s, suffix) ==> EndsWith(prefix + s, suffix)
  {
    if EndsWith(s, suffix) {
      assert (prefix + s)[|prefix + s| - |suffix|..] == s[|s| - |suffix|..];
    }
  }

  /** A later part of the session, with `prefix` done before it. */
  function Then(prefix: seq<Event>, s: Session): (s': Session)
    ensures s'.address == s.address && s'.run == After(prefix, s.run)
  {
    Session(After(prefix, s.run), s.address)
  }

  /**
   * `KFlash.write(address, blob)` with the flash stub `stub`: the greeting
   * loop, the stub written to 0x80000000 by `install_flash_bootloader`, the
   * boot packet, then flash mode. The first phase that does not complete
   * ends the session.
   */
  function FlashRun(settings: Settings, stub: seq<byte>, firmware: seq<byte>, address: nat, input: seq<seq<byte>>): (s: Session)
    ensures s.run.status.Done? ==>
      && s.address == address + ISP_FLASH_DATA_FRAME_SIZE * |FirmwareFrames(firmware)|
      && EndsWith(s.run.events, RESET_TO_BOOT)
  {
    var greet := IspGreetingRun(input);
    if !greet.status.Done? then Session(greet, address) else
    var install := UploadRun(MemoryPlan(stub, settings.stubAddress), greet.rest).run;
    if !install.status.Done? then Session(After(greet.events, install), address) else
    var log := greet.events + install.events + [Sent(BootFrame(settings.stubAddress))];
    var flashMode := FlashModeRun(settings, firmware, address, install.rest);
    EndsWithPrefix(log, flashMode.run.events, RESET_TO_BOOT);
    Then(log, flashMode)
  }

  /**
   * The session once the stub runs: `flash_greeting`, `change_baudrate`,
   * `flash_greeting` again, `init_flash`, then the firmware.
   */
  function FlashModeRun(settings: Settings, firmware: seq<byte>, address: nat, input: seq<seq<byte>>): (s: Session)
    ensures s.run.status.Done? ==>
      && s.address == address + ISP_FLASH_DATA_FRAME_SIZE * |FirmwareFrames(firmware)|
      && EndsWith(s.run.events, RESET_TO_BOOT)
  {
    var hello := FlashGreetingRun(input, 0);
    if !hello.status.Done? then Session(hello, address) else
    var again := FlashGreetingRun(hello.rest, 0);
    if !again.status.Done? then Session(After(hello.events + BaudrateEvents(settings.baudrate), again), address) else
    var init := InitFlashRun(InitFrame(settings.chipType), again.rest, 0);
    var log := hello.events + BaudrateEvents(settings.baudrate) + again.events;
    if !init.status.Done? then Session(After(log, init), address) else
    var firmwareRun := FirmwareRun(firmware, address, init.rest);
    EndsWithPrefix(log + init.events, firmwareRun.run.events, RESET_TO_BOOT);
    Then(log + init.events, firmwareRun)
  }

  /**
   * `flash_firmware(blob)` then `reset_to_boot`: the frames go to `address`
   * onwards, and `address` (the variable of `KFlash.write`) advances one
   * frame size per acknowledged frame.
   */
  function FirmwareRun(firmware: seq<byte>, address: nat, input: seq<seq<byte>>): (s: Session)
    ensures s.run.status.Done? ==>
      && s.address == address + ISP_FLASH_DATA_FRAME_SIZE * |FirmwareFrames(firmware)|
      && EndsWith(s.run.events, RESET_TO_BOOT)
  {
    var upload := UploadRun(FirmwarePlan(firmware, address), input);
    var address' := address + ISP_FLASH_DATA_FRAME_SIZE * upload.acked;
    if !upload.run.status.Done? then Session(upload.run, address') else
    assert EndsWith(upload.run.events + RESET_TO_BOOT, RESET_TO_BOOT) by {
      EndsWithPrefix(upload.run.events, RESET_TO_BOOT, RESET_TO_BOOT);
    }
    Session(Run(Done, upload.run.events + RESET_TO_BOOT, upload.run.rest), address')
  }

  /** The events of a session in which every reply is the one hoped for. */
  function SmoothEvents(settings: Settings, stub: seq<byte>, firmware: seq<byte>, address: nat): seq<Event>
  {
    ISP_ATTEMPT + Frames(MemoryPlan(stub, settings.stubAddress)) + [Sent(BootFrame(settings.stubAddress))] + SmoothFlashMode(settings, firmware, address)
  }

  function SmoothFlashMode(settings: Settings, firmware: seq<byte>, address: nat): seq<Event>
  {
    [Sent(FLASH_NOP_FRAME)] + BaudrateEvents(settings.baudrate) + [Sent(FLASH_NOP_FRAME)] + [Sent(InitFrame(settings.chipType))] +
    Frames(FirmwarePlan(firmware, address)) + RESET_TO_BOOT
  }

  /**
   * When the device answers the greeting, accepts every stub write, answers
   * both flash greetings and the flash init, and accepts every firmware
   * frame, the session completes after one greeting attempt, sends every
   * request exactly once in order, and leaves `address` one frame size per
   * firmware frame further on.
   */
  lemma FlashRunSucceeds(settings: Settings, stub: seq<byte>, firmware: seq<byte>, address: nat, hello: seq<byte>,
                         stubAcks: seq<seq<byte>>, nop1: seq<byte>, nop2: seq<byte>, init: seq<byte>,
                         firmwareAcks: seq<seq<byte>>, rest: seq<seq<byte>>)
    requires Readable(hello)
    requires |stubAcks| == |MemoryPlan(stub, settings.stubAddress)| && Acks(stubAcks)
    requires Answers(nop1, FLASH_NOP as byte, Matched) && Answers(nop2, FLASH_NOP as byte, Matched)
    requires Answers(init, FLASHMODE_FLASH_INIT as byte, Matched)
    requires |firmwareAcks| == |FirmwarePlan(firmware, address)| && Acks(firmwareAcks)
    ensures FlashRun(settings, stub, firmware, address, [hello] + stubAcks + [nop1, nop2, init] + firmwareAcks + rest) ==
      Session(Run(Done, SmoothEvents(settings, stub, firmware, address), rest),
              address + ISP_FLASH_DATA_FRAME_SIZE * |FirmwarePlan(firmware, address)|)
  {
    var sp := MemoryPlan(stub, settings.stubAddress);
    var r2 := [nop1, nop2, init] + firmwareAcks + rest;
    var log := ISP_ATTEMPT + Frames(sp) + [Sent(BootFrame(settings.stubAddress))];
    Associate([hello] + stubAcks, [nop1, nop2, init] + firmwareAcks, rest);
    Associate([hello] + stubAcks, [nop1, nop2, init], firmwareAcks);
    StubPhaseSucceeds(settings, stub, firmware, address, hello, stubAcks, r2);
    FlashModeSucceeds(settings, firmware, address, nop1, nop2, init, firmwareAcks, rest);
    assert log + SmoothFlashMode(settings, firmware, address) == SmoothEvents(settings, stub, firmware, address);
  }

  /** The part before flash mode, with a readable greeting reply and every stub write accepted. */
  lemma StubPhaseSucceeds(settings: Settings, stub: seq<byte>, firmware: seq<byte>, address: nat, hello: seq<byte>,
                          stubAcks: seq<seq<byte>>, rest: seq<seq<byte>>)
    requires Readable(hello)
    requires |stubAcks| == |MemoryPlan(stub, settings.stubAddress)| && Acks(stubAcks)
    ensures FlashRun(settings, stub, firmware, address, [hello] + stubAcks + rest) ==
      Then(ISP_ATTEMPT + Frames(MemoryPlan(stub, settings.stubAddress)) + [Sent(BootFrame(settings.stubAddress))],
           FlashModeRun(settings, firmware, address, rest))
  {
    var sp := MemoryPlan(stub, settings.stubAddress);
    var r1 := stubAcks + rest;
    var input := [hello] + stubAcks + rest;
    assert IspGreetingRun(input) == Run(Done, ISP_ATTEMPT, r1) by {
      assert input == [] + [hello] + r1;
      IspGreetingRetries([], hello, r1);
      assert Repeat(ISP_ATTEMPT, 1) == ISP_ATTEMPT;
    }
    assert UploadRun(sp, r1).run == Run(Done, Frames(sp), rest) by {
      UploadAccepted(sp, stubAcks, rest);
    }
  }

  /** Flash mode on its own, with every reply the one hoped for. */
  lemma FlashModeSucceeds(settings: Settings, firmware: seq<byte>, address: nat, nop1: seq<byte>, nop2: seq<byte>, init: seq<byte>,
                          firmwareAcks: seq<seq<byte>>, rest: seq<seq<byte>>)
    requires Answers(nop1, FLASH_NOP as byte, Matched) && Answers(nop2, FLASH_NOP as byte, Matched)
    requires Answers(init, FLASHMODE_FLASH_INIT as byte, Matched)
    requires |firmwareAcks| == |FirmwarePlan(firmware, address)| && Acks(firmwareAcks)
    ensures FlashModeRun(settings, firmware, address, [nop1, nop2, init] + firmwareAcks + rest) ==
      Session(Run(Done, SmoothFlashMode(settings, firmware, address), rest),
              address + ISP_FLASH_DATA_FRAME_SIZE * |FirmwarePlan(firmware, address)|)
  {
    var nop := [Sent(FLASH_NOP_FRAME)];
    var r3 := firmwareAcks + rest;
    var r2 := [init] + r3;
    var r1 := [nop2] + r2;
    var input := [nop1, nop2, init] + firmwareAcks + rest;
    assert input == [nop1] + r1 by {
      assert [nop1, nop2, init] == [nop1] + [nop2] + [init];
      Associate([nop1, nop2, init], firmwareAcks, rest);
    }
    FlashGreetingAnswered(nop1, r1);
    FlashGreetingAnswered(nop2, r2);
    InitFlashAnswered(init, settings.chipType, r3);
    var firmwareRun := FirmwareRunSucceeds(firmware, address, firmwareAcks, rest);
    var log := nop + BaudrateEvents(settings.baudrate) + nop + [Sent(InitFrame(settings.chipType))];
    assert FlashModeRun(settings, firmware, address, input) == Then(log, firmwareRun);
    Associate(log, Frames(FirmwarePlan(firmware, address)), RESET_TO_BOOT);
  }

  /** `flash_greeting` with a matching first reply: one NOP frame. */
  lemma FlashGreetingAnswered(good: seq<byte>, rest: seq<seq<byte>>)
    requires Answers(good, FLASH_NOP as byte, Matched)
    ensures FlashGreetingRun([good] + rest, 0) == Run(Done, [Sent(FLASH_NOP_FRAME)], rest)
  {
    FlashGreetingOutlastsErrors([], good, rest, 0);
    assert [] + [good] + rest == [good] + rest;
    assert Copies(Sent(FLASH_NOP_FRAME), 1) == [Sent(FLASH_NOP_FRAME)];
  }

  /** `init_flash` with a matching first reply: one FLASH_INIT frame. */
  lemma InitFlashAnswered(good: seq<byte>, chipType: nat, rest: seq<seq<byte>>)
    requires Answers(good, FLASHMODE_FLASH_INIT as byte, Matched)
    ensures InitFlashRun(InitFrame(chipType), [good] + rest, 0) == Run(Done, [Sent(InitFrame(chipType))], rest)
  {
    ReceiveFirstFrame([], good, rest);
    assert [] + [good] + rest == [good] + rest;
  }

  /** `flash_firmware` and the reset to boot, with every frame accepted. */
  lemma FirmwareRunSucceeds(firmware: seq<byte>, address: nat, firmwareAcks: seq<seq<byte>>, rest: seq<seq<byte>>)
    returns (s: Session)
    requires |firmwareAcks| == |FirmwarePlan(firmware, address)| && Acks(firmwareAcks)
    ensures s == FirmwareRun(firmware, address, firmwareAcks + rest)
    ensures s == Session(Run(Done, Frames(FirmwarePlan(firmware, address)) + RESET_TO_BOOT, rest),
                         address + ISP_FLASH_DATA_FRAME_SIZE * |FirmwarePlan(firmware, address)|)
  {
    UploadAccepted(FirmwarePlan(firmware, address), firmwareAcks, rest);
    s := FirmwareRun(firmware, address, firmwareAcks + rest);
  }
}
