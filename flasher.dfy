/**
 * `MAIXLoader` and the session of `KFlash.write`, step by step. The serial
 * port is two fields: the buffers the reader will still deliver and the log
 * of everything done to the port. Every method is proved to do exactly what
 * the matching function of `Protocol` says.
 */
module Flasher {
  import opened Results
  import opened Bytes
  import opened Slip
  import opened Packets
  import opened Responses
  import opened Protocol

  class Loader {
    /** The buffers `reader.read()` will still return, in order. */
    var input: seq<seq<byte>>
    /** Every write, control-line change and baud change so far. */
    var log: seq<Event>
    /** The `address` argument of `KFlash.write`, which `flash_firmware` advances. */
    var address: nat

    constructor(input: seq<seq<byte>>, address: nat)
      ensures this.input == input && log == [] && this.address == address
    {
      this.input := input;
      log := [];
      this.address := address;
    }

    /** `write(packet)`: the packet escaped byte by byte, between two 0xC0. */
    method Write(packet: seq<byte>)
      modifies this`log
      ensures log == old(log) + [Sent(Encode(packet))]
    {
      var handle: seq<byte> := [];
      for i := 0 to |packet|
        invariant handle == Escape(packet[..i])
        invariant log == old(log)
      {
        var e := packet[i];
        if e == END {
          handle := handle + [ESC, ESC_END];
        } else if e == ESC {
          handle := handle + [ESC, ESC_ESC];
        } else {
          handle := handle + [e];
        }
        assert Escape([e]) == EscapeByte(e) by {
          assert [e][1..] == [];
          assert EscapeByte(e) + [] == EscapeByte(e);
        }
        EscapeAppend(packet[..i], [e]);
        assert packet[..i + 1] == packet[..i] + [e];
      }
      assert packet[..|packet|] == packet;
      assert handle == Escape(packet);
      log := log + [Sent([END] + handle + [END])];
    }

    /** `reset_to_isp`; the delays between the steps are not modelled. */
    method ResetToIsp()
      modifies this`log
      ensures log == old(log) + RESET_TO_ISP
    {
      log := log + [Dtr(false)];
      log := log + [Rts(false)];
      log := log + [Dtr(false)];
      log := log + [Rts(true)];
      log := log + [Dtr(true)];
      log := log + [Rts(false)];
    }

    /** `reset_to_boot`. */
    method ResetToBoot()
      modifies this`log
      ensures log == old(log) + RESET_TO_BOOT
    {
      log := log + [Dtr(false)];
      log := log + [Rts(false)];
      log := log + [Dtr(false)];
      log := log + [Rts(true)];
      log := log + [Rts(false)];
      log := log + [Dtr(false)];
    }

    /**
     * `recv_one_return`: read buffers until one holds a 0xC0, then scan it
     * from index 1; `Broken` is the thrown "Invalid SLIP escape", `Closed`
     * a reader with nothing left.
     */
    method RecvOneReturn() returns (outcome: Recv)
      modifies this`input
      ensures Received(outcome, input) == Receive(old(input))
    {
      while true
        invariant Receive(input) == Receive(old(input))
        decreases |input|
      {
        if input == [] {
          outcome := Closed;
          return;
        }
        ghost var pending := input;
        var buf := input[0];
        input := input[1..];

        var start := false;
        var i := 0;
        while i < |buf|
          invariant 0 <= i <= |buf| && !start
          invariant forall j :: 0 <= j < i ==> buf[j] != END
        {
          var c := buf[i];
          i := i + 1;
          if c == END {
            start := true;
            break;
          }
        }
        if !start {
          assert Receive(pending) == Receive(input);
          continue;
        }
        assert END in buf by {
          assert buf[i - 1] == END;
        }
        ghost var received := Received(Scan(buf), input);
        assert Receive(pending) == received by {
          assert pending[0] == buf && pending[1..] == input;
        }

        var data: seq<Elem> := [];
        var inEscape := false;
        i := 0;
        PrependNothing(Unframe(buf, 0, false));
        while i < |buf|
          invariant 0 <= i <= |buf|
          invariant Unframe(buf, 0, false) == Prepend(data, Unframe(buf, i, inEscape))
          invariant input == received.rest
        {
          ghost var before, at, wasEscaped := data, i, inEscape;
          ghost var piece: seq<Elem>;
          i := i + 1;
          var c := At(buf, i);
          if c == Byte(END) {
            assert Unframe(buf, at, wasEscaped) == Ok([]);
            assert data + [] == data;
            assert Unframe(buf, 0, false) == Ok(data);
            break;
          } else if inEscape {
            inEscape := true;
            if c == Byte(ESC_END) {
              data := data + [Byte(END)];
              piece := [Byte(END), c];
            } else if c == Byte(ESC_ESC) {
              data := data + [Byte(ESC)];
              piece := [Byte(ESC), c];
            } else {
              assert Unframe(buf, at, wasEscaped).Err?;
              assert Unframe(buf, 0, false).Err?;
              assert received == Received(Broken, input);
              outcome := Broken;
              return;
            }
          } else {
            piece := [c];
            if c == Byte(ESC) {
              inEscape := true;
            }
          }
          data := data + [c];
          assert data == before + piece;
          assert Unframe(buf, at, wasEscaped) == Prepend(piece, Unframe(buf, i, inEscape));
          PrependPrepend(before, piece, Unframe(buf, i, inEscape));
        }
        if i == |buf| {
          assert Unframe(buf, i, inEscape) == Ok([]);
          assert data + [] == data;
        }
        assert Unframe(buf, 0, false) == Ok(data);
        assert received == Received(Got(data), input);
        outcome := Got(data);
        return;
      }
    }

    /** `recv_debug`: a reply, judged by its reason code. */
    method RecvDebug() returns (verdict: Verdict)
      modifies this`input
      ensures verdict == IspVerdict(Receive(old(input)).outcome) && input == Receive(old(input)).rest
    {
      var outcome := RecvOneReturn();
      if outcome.Closed? {
        return Ended;
      } else if outcome.Broken? {
        return Failed;
      }
      var result := ParseIsp(outcome.data);
      if result.reason != Num(ISP_RET_DEFAULT) && result.reason != Num(ISP_RET_OK) {
        return Mismatched;
      }
      return Matched;
    }

    /**
     * The `try` block of `flash_greeting` and `init_flash`: one reply, parsed
     * by `FlashModeResponse.parse` and compared with `op` and ISP_RET_OK;
     * `Failed` is what lands in their `catch`.
     */
    method RecvFlash(op: byte) returns (verdict: Verdict)
      modifies this`input
      ensures verdict == FlashVerdict(Receive(old(input)).outcome, op) && input == Receive(old(input)).rest
    {
      var outcome := RecvOneReturn();
      if outcome.Closed? {
        return Ended;
      } else if outcome.Broken? {
        return Failed;
      }
      FlashVerdictChecks(outcome, op);
      var result := ParseFlash(outcome.data);
      if result.None? {
        return Failed;
      }
      if result.value.op == Num(op) && result.value.reason == Num(ISP_RET_OK) {
        return Matched;
      }
      return Mismatched;
    }

    /** `greeting`: the ISP_NOP frame, written as it stands, then one reply. */
    method Greeting() returns (outcome: Recv)
      modifies this`log, this`input
      ensures log == old(log) + [Sent(ISP_NOP_FRAME)]
      ensures Received(outcome, input) == Receive(old(input))
    {
      log := log + [Sent(ISP_NOP_FRAME)];
      outcome := RecvOneReturn();
    }

    /** `flash_greeting`. */
    method FlashGreeting() returns (status: Status)
      modifies this`log, this`input
      ensures var r := FlashGreetingRun(old(input), 0);
        status == r.status && log == old(log) + r.events && input == r.rest
    {
      var retryCount: nat := 0;
      ghost var sent: seq<Event> := [];
      while true
        invariant log == old(log) + sent
        invariant FlashGreetingRun(old(input), 0) == After(sent, FlashGreetingRun(input, retryCount))
        decreases |input|
      {
        ghost var sent0, r := sent, FlashGreetingRun(input, retryCount);
        FlashGreetingNext(input, retryCount);
        Associate(old(log), sent, [Sent(FLASH_NOP_FRAME)]);
        log := log + [Sent(FLASH_NOP_FRAME)];
        sent := sent + [Sent(FLASH_NOP_FRAME)];
        retryCount := retryCount + 1;
        var verdict := RecvFlash(FLASH_NOP as byte);
        AfterAfter(sent0, [Sent(FLASH_NOP_FRAME)], FlashGreetingRun(input, retryCount));
        if verdict == Ended {
          return Stopped;
        } else if verdict == Failed {
          continue;
        }
        if verdict == Matched {
          return Done;
        } else if retryCount > MAX_RETRY_TIMES {
          return Threw(FlashStub);
        }
      }
    }

    /**
     * The inner `while (true)` of `flash_dataframe` and `flash_firmware`:
     * the packet, written again each time `recv_debug` refuses it.
     */
    method WriteUntilAccepted(packet: seq<byte>) returns (status: Status)
      modifies this`log, this`input
      ensures var r := Retry(Encode(packet), old(input));
        status == r.status && log == old(log) + r.events && input == r.rest
    {
      ghost var frame := Encode(packet);
      ghost var whole := Retry(frame, input);
      ghost var sent: seq<Event> := [];
      while true
        invariant log == old(log) + sent
        invariant whole == After(sent, Retry(frame, input))
        decreases |input|
      {
        ghost var sent0, pending := sent, input;
        Associate(old(log), sent, [Sent(frame)]);
        Write(packet);
        sent := sent + [Sent(frame)];
        var verdict := RecvDebug();
        if verdict == Matched {
          status := Done;
        } else if verdict == Mismatched {
          assert Retry(frame, pending) == After([Sent(frame)], Retry(frame, input)) by {
            RetryNext(frame, pending);
          }
          AfterAfter(sent0, [Sent(frame)], Retry(frame, input));
          continue;
        } else {
          status := if verdict == Ended then Stopped else Threw(SlipEscape);
        }
        assert Retry(frame, pending) == Run(status, [Sent(frame)], input) by {
          RetryNext(frame, pending);
        }
        return;
      }
    }

    /**
     * `flash_dataframe(data, address)`: 1024-byte chunks, each written as an
     * ISP_MEMORY_WRITE packet until `recv_debug` accepts it.
     */
    method FlashDataframe(data: seq<byte>, address: nat) returns (status: Status)
      modifies this`log, this`input
      ensures var r := UploadRun(MemoryPlan(data, address), old(input)).run;
        status == r.status && log == old(log) + r.events && input == r.rest
    {
      ghost var whole := UploadRun(MemoryPlan(data, address), input).run;
      var rest := data;
      var addr: nat := address;
      ghost var sent: seq<Event> := [];
      while |rest| > 0
        invariant log == old(log) + sent
        invariant whole == After(sent, UploadRun(MemoryPlan(rest, addr), input).run)
        decreases |rest|
      {
        ghost var before, sent0, pending := rest, sent, input;
        var n := Min(DATAFRAME_SIZE, |rest|);
        var chunk := rest[..n];
        rest := rest[n..];
        status := WriteUntilAccepted(Pack(MemoryWrite(addr, chunk)));
        ghost var t := Retry(Frame(MemoryWrite(addr, chunk)), pending);
        Associate(old(log), sent0, t.events);
        sent := sent + t.events;
        if status != Done {
          assert UploadRun(MemoryPlan(before, addr), pending).run == t by {
            MemorySplit(before, addr, pending);
          }
          return;
        }
        ghost var v := UploadRun(MemoryPlan(rest, addr + DATAFRAME_SIZE), input).run;
        assert UploadRun(MemoryPlan(before, addr), pending).run == After(t.events, v) by {
          MemorySplit(before, addr, pending);
        }
        AfterAfter(sent0, t.events, v);
        addr := addr + DATAFRAME_SIZE;
      }
      return Done;
    }

    /** The padding loop of `flash_firmware`: zeros pushed until the chunk fills a frame. */
    static method PadFrame(chunk: seq<byte>) returns (padded: seq<byte>)
      ensures padded == PadTo(chunk, ISP_FLASH_DATA_FRAME_SIZE)
    {
      padded := chunk;
      while |padded| < ISP_FLASH_DATA_FRAME_SIZE
        invariant |chunk| <= |padded| && (|padded| <= ISP_FLASH_DATA_FRAME_SIZE || |padded| == |chunk|)
        invariant padded == chunk + Zeros(|padded| - |chunk|)
        decreases ISP_FLASH_DATA_FRAME_SIZE - |padded|
      {
        ZerosSnoc(|padded| - |chunk|);
        padded := padded + [0];
      }
      if |chunk| >= ISP_FLASH_DATA_FRAME_SIZE {
        assert padded == chunk + [];
      }
    }

    /** `install_flash_bootloader(data)`: the stub, written to 0x80000000. */
    method InstallFlashBootloader(stub: seq<byte>) returns (status: Status)
      modifies this`log, this`input
      ensures var r := UploadRun(MemoryPlan(stub, STUB_ADDRESS), old(input)).run;
        status == r.status && log == old(log) + r.events && input == r.rest
    {
      status := FlashDataframe(stub, STUB_ADDRESS);
    }

    /** `change_baudrate(baudrate)`: the packet, then the port reopened at the new rate; no reply is read. */
    method ChangeBaudrate(baudrate: nat)
      modifies this`log
      ensures log == old(log) + BaudrateEvents(baudrate)
    {
      Write(Pack(BaudrateSet(baudrate)));
      log := log + [Rebaud(baudrate)];
    }

    /** `boot(address)`: the boot packet; no reply is read. */
    method Boot(address: nat)
      modifies this`log
      ensures log == old(log) + [Sent(BootFrame(address))]
    {
      Write(Pack(MemoryBoot(address)));
    }

    /** `init_flash(chip_type)`: the packet is built once, then written until the stub accepts it. */
    method InitFlash(chipType: nat) returns (status: Status)
      modifies this`log, this`input
      ensures var r := InitFlashRun(InitFrame(chipType), old(input), 0);
        status == r.status && log == old(log) + r.events && input == r.rest
    {
      var packet := Pack(FlashInit(chipType));
      ghost var frame := InitFrame(chipType);
      ghost var whole := InitFlashRun(frame, input, 0);
      var retryCount: nat := 0;
      ghost var sent: seq<Event> := [];
      while true
        invariant log == old(log) + sent
        invariant whole == After(sent, InitFlashRun(frame, input, retryCount))
        decreases |input|
      {
        ghost var sent0, pending, count0 := sent, input, retryCount;
        Associate(old(log), sent, [Sent(frame)]);
        Write(packet);
        sent := sent + [Sent(frame)];
        retryCount := retryCount + 1;
        var verdict := RecvFlash(FLASHMODE_FLASH_INIT as byte);
        if verdict == Ended {
          status := Stopped;
        } else if verdict == Failed {
          status := Threw(InitalizeFlash);
        } else if verdict == Matched {
          status := Done;
        } else if retryCount > MAX_RETRY_TIMES {
          status := Threw(InitialFlash);
        } else {
          assert InitFlashRun(frame, pending, count0) == After([Sent(frame)], InitFlashRun(frame, input, retryCount)) by {
            InitFlashNext(frame, pending, count0);
          }
          AfterAfter(sent0, [Sent(frame)], InitFlashRun(frame, input, retryCount));
          continue;
        }
        assert InitFlashRun(frame, pending, count0) == Run(status, [Sent(frame)], input) by {
          InitFlashNext(frame, pending, count0);
        }
        return;
      }
    }

    /**
     * `flash_firmware(firmware_bin, address_offset)`: 65536-byte chunks,
     * zero-padded, each written as an ISP_FLASH_WRITE packet at `address`
     * until accepted; `address` advances by a frame per accepted frame and
     * `address_offset` is not used.
     */
    method FlashFirmware(firmware: seq<byte>, addressOffset: nat) returns (status: Status)
      modifies this`log, this`input, this`address
      ensures var u := UploadRun(FirmwarePlan(firmware, old(address)), old(input));
        && status == u.run.status && log == old(log) + u.run.events && input == u.run.rest
        && address == old(address) + ISP_FLASH_DATA_FRAME_SIZE * u.acked
    {
      status, address := FlashFrames(firmware, address);
      FirmwareUploadIsPlan(firmware, old(address), old(input));
    }

    /**
     * The outer loop of `flash_firmware` from `start`, returning where it
     * leaves the address.
     */
    method FlashFrames(firmware: seq<byte>, start: nat) returns (status: Status, addr: nat)
      modifies this`log, this`input
      ensures var s := FirmwareUpload(firmware, start, old(input));
        status == s.run.status && log == old(log) + s.run.events && input == s.run.rest && addr == s.address
    {
      ghost var whole := FirmwareUpload(firmware, start, input);
      var rest := firmware;
      addr := start;
      ghost var sent: seq<Event> := [];
      while |rest| > 0
        invariant log == old(log) + sent
        invariant whole == Then(sent, FirmwareUpload(rest, addr, input))
        decreases |rest|
      {
        ghost var sent0 := sent;
        var n := Min(ISP_FLASH_DATA_FRAME_SIZE, |rest|);
        var chunk := rest[..n];
        rest := rest[n..];
        chunk := PadFrame(chunk);
        ghost var t := Retry(Frame(FlashWrite(addr, chunk)), input);
        status := WriteUntilAccepted(Pack(FlashWrite(addr, chunk)));
        Associate(old(log), sent0, t.events);
        sent := sent + t.events;
        if status != Done {
          return;
        }
        addr := addr + ISP_FLASH_DATA_FRAME_SIZE;
        AfterAfter(sent0, t.events, FirmwareUpload(rest, addr, input).run);
      }
      return Done, addr;
    }

    /**
     * The greeting loop of `KFlash.write`: `reset_to_isp` and `greeting`
     * until `greeting` returns; its exceptions are caught and the loop goes
     * round again.
     */
    method EnterIsp() returns (status: Status)
      modifies this`log, this`input
      ensures var r := IspGreetingRun(old(input));
        status == r.status && log == old(log) + r.events && input == r.rest
    {
      ghost var whole := IspGreetingRun(input);
      ghost var sent: seq<Event> := [];
      while true
        invariant log == old(log) + sent
        invariant whole == After(sent, IspGreetingRun(input))
        decreases |input|
      {
        ghost var sent0, pending := sent, input;
        ResetToIsp();
        var outcome := Greeting();
        Associate(old(log) + sent0, RESET_TO_ISP, [Sent(ISP_NOP_FRAME)]);
        Associate(old(log), sent0, ISP_ATTEMPT);
        sent := sent + ISP_ATTEMPT;
        if outcome.Broken? {
          AfterAfter(sent0, ISP_ATTEMPT, IspGreetingRun(input));
          continue;
        }
        status := if outcome.Closed? then Stopped else Done;
        return;
      }
    }

    /**
     * `KFlash.write(address, blob)` with the flash stub `stub`: enter ISP
     * mode, install and boot the stub, then the flash-mode steps; an
     * exception from any step ends the session there.
     */
    method Flash(stub: seq<byte>, firmware: seq<byte>) returns (status: Status)
      modifies this`log, this`input, this`address
      ensures var s := FlashRun(DEFAULTS, stub, firmware, old(address), old(input));
        status == s.run.status && log == old(log) + s.run.events && input == s.run.rest && address == s.address
    {
      status := EnterIsp();
      if status != Done {
        return;
      }
      ghost var events := log[|old(log)|..];
      assert log == old(log) + events;
      status := InstallFlashBootloader(stub);
      ghost var install := UploadRun(MemoryPlan(stub, STUB_ADDRESS), IspGreetingRun(old(input)).rest).run;
      Associate(old(log), events, install.events);
      events := events + install.events;
      if status != Done {
        return;
      }
      Boot(STUB_ADDRESS);
      Associate(old(log), events, [Sent(BootFrame(STUB_ADDRESS))]);
      events := events + [Sent(BootFrame(STUB_ADDRESS))];
      ghost var mode := FlashModeRun(DEFAULTS, firmware, address, input);
      status := FlashMode(firmware);
      Associate(old(log), events, mode.run.events);
    }

    /**
     * The flash-mode part of `KFlash.write`: `flash_greeting`,
     * `change_baudrate(2000000)`, `flash_greeting`, `init_flash(1)`,
     * `flash_firmware(blob)` and `reset_to_boot`.
     */
    method FlashMode(firmware: seq<byte>) returns (status: Status)
      modifies this`log, this`input, this`address
      ensures var s := FlashModeRun(DEFAULTS, firmware, old(address), old(input));
        status == s.run.status && log == old(log) + s.run.events && input == s.run.rest && address == s.address
    {
      status := FlashGreeting();
      if status != Done {
        return;
      }
      ghost var events := log[|old(log)|..];
      assert log == old(log) + events;
      ChangeBaudrate(DEFAULTS.baudrate);
      Associate(old(log), events, BaudrateEvents(DEFAULTS.baudrate));
      events := events + BaudrateEvents(DEFAULTS.baudrate);
      ghost var again := FlashGreetingRun(input, 0);
      status := FlashGreeting();
      Associate(old(log), events, again.events);
      events := events + again.events;
      if status != Done {
        return;
      }
      ghost var init := InitFlashRun(InitFrame(DEFAULTS.chipType), input, 0);
      status := InitFlash(DEFAULTS.chipType);
      Associate(old(log), events, init.events);
      events := events + init.events;
      if status != Done {
        return;
      }
      ghost var burn := FirmwareRun(firmware, address, input);
      status := Burn(firmware);
      Associate(old(log), events, burn.run.events);
    }

    /** `flash_firmware(blob)` and then `reset_to_boot`, the last two steps of the session. */
    method Burn(firmware: seq<byte>) returns (status: Status)
      modifies this`log, this`input, this`address
      ensures var s := FirmwareRun(firmware, old(address), old(input));
        status == s.run.status && log == old(log) + s.run.events && input == s.run.rest && address == s.address
    {
      ghost var upload := UploadRun(FirmwarePlan(firmware, address), input);
      status := FlashFirmware(firmware, 0);
      if status != Done {
        return;
      }
      ResetToBoot();
      Associate(old(log), upload.run.events, RESET_TO_BOOT);
    }
  }
}
