/**
 * The command packets the flasher builds: a little-endian 16-bit operation,
 * a 16-bit reserved zero, the little-endian CRC-32 of the payload, then the
 * payload. `Unpack` is the receiving side of that layout, used to state what
 * each packet carries.
 */
module Packets {
  import opened Results
  import opened Bytes
  import opened Slip

  // Operations of the ISP stage (the boot ROM).
  const ISP_NOP: nat := 0xC2
  const ISP_MEMORY_WRITE: nat := 0xC3
  const ISP_MEMORY_BOOT: nat := 0xC5

  // Operations of the flash stage (the uploaded stub).
  const FLASH_NOP: nat := 0xD2
  const ISP_FLASH_WRITE: nat := 0xD4
  const ISP_UARTHS_BAUDRATE_SET: nat := 0xD6
  const FLASHMODE_FLASH_INIT: nat := 0xD7

  const DATAFRAME_SIZE: nat := 1024
  const ISP_FLASH_SECTOR_SIZE: nat := 4096
  const ISP_FLASH_DATA_FRAME_SIZE: nat := ISP_FLASH_SECTOR_SIZE * 16
  /** Where the stub is written in SRAM and booted from. */
  const STUB_ADDRESS: nat := 0x8000_0000

  /** `[...op_p, ...crc32_checksum, ...payload]`, with the CRC taken over the payload only. */
  function Command(op: nat, payload: seq<byte>): (p: seq<byte>)
    ensures |p| == 8 + |payload|
  {
    Framed(op, Crc32(payload), payload)
  }

  /** The packet layout for a given checksum value. */
  function Framed(op: nat, checksum: nat, payload: seq<byte>): seq<byte>
  {
    LE16(op) + LE16(0) + LE32(checksum) + payload
  }

  /** What a packet asks the device to do. */
  datatype Request =
    | MemoryWrite(address: nat, data: seq<byte>)
    | MemoryBoot(address: nat)
    | BaudrateSet(baudrate: nat)
    | FlashInit(chipType: nat)
    | FlashWrite(address: nat, data: seq<byte>)

  function OpOf(r: Request): (op: nat)
    ensures op < U16_LIMIT
  {
    match r
    case MemoryWrite(_, _) => ISP_MEMORY_WRITE
    case MemoryBoot(_) => ISP_MEMORY_BOOT
    case BaudrateSet(_) => ISP_UARTHS_BAUDRATE_SET
    case FlashInit(_) => FLASHMODE_FLASH_INIT
    case FlashWrite(_, _) => ISP_FLASH_WRITE
  }

  /**
   * The payload each operation carries: a write sends the address, the data
   * length and the data (`flash_dataframe`, `flash_firmware`); boot sends the
   * address and 0 (`boot`); the baud rate change sends 0, 4 and the rate
   * (`change_baudrate`); flash initialisation sends the chip type and 0
   * (`init_flash`).
   */
  function PayloadOf(r: Request): (payload: seq<byte>)
    ensures (r.MemoryBoot? || r.FlashInit?) ==> |payload| == 8
    ensures r.BaudrateSet? ==> |payload| == 12
    ensures (r.MemoryWrite? || r.FlashWrite?) ==> |payload| == 8 + |r.data|
  {
    match r
    case MemoryWrite(address, data) => LE32(address) + LE32(|data|) + data
    case MemoryBoot(address) => LE32(address) + LE32(0)
    case BaudrateSet(baudrate) => LE32(0) + LE32(4) + LE32(baudrate)
    case FlashInit(chipType) => LE32(chipType) + LE32(0)
    case FlashWrite(address, data) => LE32(address) + LE32(|data|) + data
  }

  /** The command packet the flasher builds for a request. */
  function Pack(r: Request): (p: seq<byte>)
    ensures |p| == 8 + |PayloadOf(r)|
  {
    Command(OpOf(r), PayloadOf(r))
  }

  /**
   * A packet carries its payload whole after the eight header bytes, and a
   * write's payload carries its data whole after the address and length.
   */
  lemma PackCarries(r: Request)
    ensures Pack(r)[8..] == PayloadOf(r)
    ensures (r.MemoryWrite? || r.FlashWrite?) ==> PayloadOf(r)[8..] == r.data
  {
  }

  /** The device's reading of a payload for an operation (the layout only). */
  function Interpret(op: nat, body: seq<byte>): Option<Request>
  {
    if op == ISP_MEMORY_WRITE || op == ISP_FLASH_WRITE then InterpretData(op == ISP_MEMORY_WRITE, body)
    else if op == ISP_MEMORY_BOOT && |body| == 8 && FromLE32(body[4..]) == 0 then
      Some(MemoryBoot(FromLE32(body[..4])))
    else if op == ISP_UARTHS_BAUDRATE_SET && |body| == 12 && FromLE32(body[..4]) == 0 && FromLE32(body[4..8]) == 4 then
      Some(BaudrateSet(FromLE32(body[8..])))
    else if op == FLASHMODE_FLASH_INIT && |body| == 8 && FromLE32(body[4..]) == 0 then
      Some(FlashInit(FromLE32(body[..4])))
    else None
  }

  /** A write's payload: address, length (which must match), data. */
  function InterpretData(toMemory: bool, body: seq<byte>): Option<Request>
  {
    if |body| >= 8 && FromLE32(body[4..8]) == |body| - 8 then
      var address := FromLE32(body[..4]);
      Some(if toMemory then MemoryWrite(address, body[8..]) else FlashWrite(address, body[8..]))
    else None
  }

  /**
   * The device's reading of a packet: the reserved word must be zero, the
   * checksum must be the CRC-32 of everything after the header, and the
   * payload must have the layout of its operation (a write's length field
   * must be the number of data bytes).
   */
  function Unpack(p: seq<byte>): Option<Request>
  {
    if |p| < 8 || FromLE16(p[2..4]) != 0 || FromLE32(p[4..8]) != Crc32(p[8..]) then None
    else Interpret(FromLE16(p[..2]), p[8..])
  }

  /** The request with its 32-bit fields reduced as packing them does. */
  function Wrapped(r: Request): Request
  {
    match r
    case MemoryWrite(address, data) => MemoryWrite(address % U32_LIMIT, data)
    case MemoryBoot(address) => MemoryBoot(address % U32_LIMIT)
    case BaudrateSet(baudrate) => BaudrateSet(baudrate % U32_LIMIT)
    case FlashInit(chipType) => FlashInit(chipType % U32_LIMIT)
    case FlashWrite(address, data) => FlashWrite(address % U32_LIMIT, data)
  }

  /** Every field already fits its 32-bit slot, and so does every data length. */
  predicate Fits(r: Request)
  {
    match r
    case MemoryWrite(address, data) => address < U32_LIMIT && |data| < U32_LIMIT
    case MemoryBoot(address) => address < U32_LIMIT
    case BaudrateSet(baudrate) => baudrate < U32_LIMIT
    case FlashInit(chipType) => chipType < U32_LIMIT
    case FlashWrite(address, data) => address < U32_LIMIT && |data| < U32_LIMIT
  }

  predicate ShortData(r: Request)
  {
    (r.MemoryWrite? || r.FlashWrite?) ==> |r.data| < U32_LIMIT
  }

  /** The header of a packet reads back as its operation, zero and the checksum. */
  lemma FramedHeader(op: nat, checksum: nat, payload: seq<byte>)
    requires op < U16_LIMIT && checksum < U32_LIMIT
    ensures var p := Framed(op, checksum, payload);
      && |p| == 8 + |payload|
      && FromLE16(p[..2]) == op && FromLE16(p[2..4]) == 0
      && FromLE32(p[4..8]) == checksum && p[8..] == payload
  {
    var p := Framed(op, checksum, payload);
    var w1, w2, w3 := LE16(op), LE16(0), LE32(checksum);
    assert p == w1 + w2 + w3 + payload;
    assert p[..2] == w1;
    assert p[2..4] == w2;
    assert p[4..8] == w3;
    assert p[8..] == payload;
    LE16RoundTrip(op);
    LE16RoundTrip(0);
    LE32RoundTrip(checksum);
  }

  /** The header of a command packet carries its operation and the payload's CRC-32. */
  lemma CommandHeader(op: nat, payload: seq<byte>)
    requires op < U16_LIMIT
    ensures var p := Command(op, payload);
      && |p| == 8 + |payload|
      && FromLE16(p[..2]) == op && FromLE16(p[2..4]) == 0
      && FromLE32(p[4..8]) == Crc32(payload) && p[8..] == payload
  {
    FramedHeader(op, Crc32(payload), payload);
  }

  /** A command packet passes the device's header and checksum checks. */
  lemma UnpackCommand(op: nat, payload: seq<byte>)
    requires op < U16_LIMIT
    ensures Unpack(Command(op, payload)) == Interpret(op, payload)
  {
    CommandHeader(op, payload);
  }

  /** Two 32-bit fields and the rest: the layout of every payload here. */
  lemma TwoFields(a: nat, b: nat, rest: seq<byte>)
    ensures var body := LE32(a) + LE32(b) + rest;
      && |body| == 8 + |rest|
      && FromLE32(body[..4]) == a % U32_LIMIT && FromLE32(body[4..8]) == b % U32_LIMIT
      && body[8..] == rest
  {
    var body := LE32(a) + LE32(b) + rest;
    assert body[..4] == LE32(a) && body[4..8] == LE32(b) && body[8..] == rest;
    LE32RoundTrip(a);
    LE32RoundTrip(b);
  }

  /** Each payload reads back as its request, with the 32-bit fields reduced. */
  lemma InterpretPayload(r: Request)
    requires ShortData(r)
    ensures Interpret(OpOf(r), PayloadOf(r)) == Some(Wrapped(r))
  {
    match r
    case MemoryWrite(address, data) => InterpretWrite(ISP_MEMORY_WRITE, address, data);
    case FlashWrite(address, data) => InterpretWrite(ISP_FLASH_WRITE, address, data);
    case MemoryBoot(address) => InterpretPair(ISP_MEMORY_BOOT, address);
    case FlashInit(chipType) => InterpretPair(FLASHMODE_FLASH_INIT, chipType);
    case BaudrateSet(baudrate) => InterpretBaudrate(baudrate);
  }

  lemma InterpretWrite(op: nat, address: nat, data: seq<byte>)
    requires op == ISP_MEMORY_WRITE || op == ISP_FLASH_WRITE
    requires |data| < U32_LIMIT
    ensures var r := Interpret(op, LE32(address) + LE32(|data|) + data);
      r.Some? && r.value.address == address % U32_LIMIT && r.value.data == data
      && (r.value.MemoryWrite? <==> op == ISP_MEMORY_WRITE)
      && (r.value.FlashWrite? <==> op == ISP_FLASH_WRITE)
  {
    var body := LE32(address) + LE32(|data|) + data;
    TwoFields(address, |data|, data);
    assert Interpret(op, body) == InterpretData(op == ISP_MEMORY_WRITE, body);
  }

  /** The payloads of MEMORY_BOOT and FLASH_INIT: one value, then zero. */
  lemma InterpretPair(op: nat, value: nat)
    requires op == ISP_MEMORY_BOOT || op == FLASHMODE_FLASH_INIT
    ensures Interpret(op, LE32(value) + LE32(0)) ==
      Some(if op == ISP_MEMORY_BOOT then MemoryBoot(value % U32_LIMIT) else FlashInit(value % U32_LIMIT))
  {
    var body := LE32(value) + LE32(0);
    TwoFields(value, 0, []);
    assert body == LE32(value) + LE32(0) + [];
    assert body[4..] == body[4..8];
  }

  lemma InterpretBaudrate(baudrate: nat)
    ensures Interpret(ISP_UARTHS_BAUDRATE_SET, LE32(0) + LE32(4) + LE32(baudrate)) == Some(BaudrateSet(baudrate % U32_LIMIT))
  {
    TwoFields(0, 4, LE32(baudrate));
    LE32RoundTrip(baudrate);
  }

  /**
   * Every packet the flasher builds is read by the device as the request it
   * was built from, with addresses and values reduced modulo 2^32; a request
   * whose fields fit reads back unchanged.
   */
  lemma UnpackPack(r: Request)
    requires ShortData(r)
    ensures Unpack(Pack(r)) == Some(Wrapped(r))
    ensures Fits(r) ==> Unpack(Pack(r)) == Some(r)
  {
    UnpackCommand(OpOf(r), PayloadOf(r));
    InterpretPayload(r);
    WrappedFits(r);
  }

  lemma WrappedFits(r: Request)
    ensures Fits(r) ==> Wrapped(r) == r
  {
  }

  // ---------------------------------------------------------------------
  // The greeting frames, written out byte by byte in the source.
  // ---------------------------------------------------------------------

  const ISP_NOP_FRAME: seq<byte> := [0xC0, 0xC2, 0, 0, 0, 0, 0, 0, 0, 0, 0, 0, 0, 0, 0xC0]
  const FLASH_NOP_FRAME: seq<byte> := [0xC0, 0xD2, 0, 0, 0, 0, 0, 0, 0, 0, 0, 0, 0, 0, 0xC0]

  /**
   * The greeting frames are the SLIP frames of the NOP operation byte followed
   * by twelve zero bytes; their checksum field holds zero.
   */
  lemma NopFrames()
    ensures ISP_NOP_FRAME == Encode([ISP_NOP as byte] + Zeros(12))
    ensures FLASH_NOP_FRAME == Encode([FLASH_NOP as byte] + Zeros(12))
  {
    EscapeClean([ISP_NOP as byte] + Zeros(12));
    EscapeClean([FLASH_NOP as byte] + Zeros(12));
  }

  // ---------------------------------------------------------------------
  // Splitting an image into transfer chunks.
  // ---------------------------------------------------------------------

  function Min(a: nat, b: nat): nat
  {
    if a <= b then a else b
  }

  /** `data.splice(0, size)` repeated while data remains. */
  function Chunks(data: seq<byte>, size: nat): (cs: seq<seq<byte>>)
    requires size > 0
    ensures (cs == []) == (data == [])
    ensures forall k :: 0 <= k < |cs| ==> 0 < |cs[k]| <= size
    decreases |data|
  {
    if data == [] then []
    else
      var n := Min(size, |data|);
      [data[..n]] + Chunks(data[n..], size)
  }

  function Flatten(cs: seq<seq<byte>>): seq<byte>
  {
    if cs == [] then [] else cs[0] + Flatten(cs[1..])
  }

  /**
   * The chunks, in order, make up the image; each has between 1 and `size`
   * bytes, and every one but the last exactly `size`.
   */
  lemma {:induction false} ChunksCover(data: seq<byte>, size: nat)
    requires size > 0
    ensures var cs := Chunks(data, size);
      && Flatten(cs) == data
      && (forall k :: 0 <= k < |cs| ==> 0 < |cs[k]| <= size)
      && (forall k :: 0 <= k < |cs| - 1 ==> |cs[k]| == size)
    decreases |data|
  {
    if data != [] {
      var n := Min(size, |data|);
      var cs := Chunks(data, size);
      ChunksCover(data[n..], size);
      assert cs[1..] == Chunks(data[n..], size);
      assert data == data[..n] + data[n..];
      if n < size {
        assert data[n..] == [];
      }
    }
  }

  /** The MEMORY_WRITE requests of consecutive chunks, 1024 bytes of address apart. */
  function MemoryRequests(chunks: seq<seq<byte>>, address: nat): (rs: seq<Request>)
    ensures |rs| == |chunks|
  {
    if chunks == [] then []
    else [MemoryWrite(address, chunks[0])] + MemoryRequests(chunks[1..], address + DATAFRAME_SIZE)
  }

  /** The requests `flash_dataframe` sends for an image, each until it is acknowledged. */
  function MemoryPlan(data: seq<byte>, address: nat): (rs: seq<Request>)
    ensures |rs| == |Chunks(data, DATAFRAME_SIZE)|
    ensures (rs == []) == (data == [])
  {
    MemoryRequests(Chunks(data, DATAFRAME_SIZE), address)
  }

  lemma {:induction false} MemoryRequestsAt(chunks: seq<seq<byte>>, address: nat, k: nat)
    requires k < |chunks|
    ensures MemoryRequests(chunks, address)[k] == MemoryWrite(address + DATAFRAME_SIZE * k, chunks[k])
  {
    if k > 0 {
      MemoryRequestsAt(chunks[1..], address + DATAFRAME_SIZE, k - 1);
    }
  }

  /**
   * The k-th stub request writes the k-th chunk (1 to 1024 bytes) at
   * `address + 1024 * k`, and the chunks together are the image.
   */
  lemma MemoryPlanAt(data: seq<byte>, address: nat, k: nat)
    requires k < |MemoryPlan(data, address)|
    ensures var chunk := Chunks(data, DATAFRAME_SIZE)[k];
      && 0 < |chunk| <= DATAFRAME_SIZE
      && Flatten(Chunks(data, DATAFRAME_SIZE)) == data
      && MemoryPlan(data, address)[k] == MemoryWrite(address + DATAFRAME_SIZE * k, chunk)
  {
    ChunksCover(data, DATAFRAME_SIZE);
    MemoryRequestsAt(Chunks(data, DATAFRAME_SIZE), address, k);
  }

  /** The first stub request writes the first chunk; the rest of the plan starts 1024 bytes on. */
  lemma MemoryPlanFirst(data: seq<byte>, address: nat)
    requires data != []
    ensures var n := Min(DATAFRAME_SIZE, |data|);
      MemoryPlan(data, address) == [MemoryWrite(address, data[..n])] + MemoryPlan(data[n..], address + DATAFRAME_SIZE)
  {
    var cs := Chunks(data, DATAFRAME_SIZE);
    assert cs[1..] == Chunks(data[Min(DATAFRAME_SIZE, |data|)..], DATAFRAME_SIZE);
  }

  /** `while (chunk.length < size) chunk.push(0)`. */
  function PadTo(chunk: seq<byte>, size: nat): (r: seq<byte>)
    ensures |r| == (if |chunk| < size then size else |chunk|)
    ensures r[..|chunk|] == chunk
    ensures forall i :: |chunk| <= i < |r| ==> r[i] == 0
  {
    if |chunk| < size then chunk + Zeros(size - |chunk|) else chunk
  }

  function PadAll(chunks: seq<seq<byte>>, size: nat): (fs: seq<seq<byte>>)
    ensures |fs| == |chunks|
  {
    if chunks == [] then [] else [PadTo(chunks[0], size)] + PadAll(chunks[1..], size)
  }

  /** The frames `flash_firmware` sends: 65536-byte chunks of the image, zero-padded. */
  function FirmwareFrames(image: seq<byte>): (fs: seq<seq<byte>>)
    ensures (fs == []) == (image == [])
    ensures forall k :: 0 <= k < |fs| ==> |fs[k]| == ISP_FLASH_DATA_FRAME_SIZE
  {
    var chunks := Chunks(image, ISP_FLASH_DATA_FRAME_SIZE);
    var fs := PadAll(chunks, ISP_FLASH_DATA_FRAME_SIZE);
    assert forall k :: 0 <= k < |fs| ==> |fs[k]| == ISP_FLASH_DATA_FRAME_SIZE by {
      PaddedSizes(chunks, ISP_FLASH_DATA_FRAME_SIZE);
    }
    fs
  }

  /** How many zero bytes take `n` up to the next multiple of `size`. */
  function PadLength(n: nat, size: nat): nat
    requires size > 0
  {
    (size - n % size) % size
  }

  lemma PadLengthShift(n: nat, size: nat)
    requires size > 0 && n >= size
    ensures PadLength(n - size, size) == PadLength(n, size)
  {
    var q, r := n / size, n % size;
    assert n == size * q + r;
    assert q >= 1;
    assert n - size == size * (q - 1) + r;
    ModOf(n - size, size, q - 1, r);
  }

  lemma {:induction false} PaddedChunks(image: seq<byte>, size: nat)
    requires size > 0
    ensures Flatten(PadAll(Chunks(image, size), size)) == image + Zeros(PadLength(|image|, size))
    decreases |image|
  {
    if image == [] {
      ModOf(size, size, 1, 0);
      assert image + Zeros(PadLength(0, size)) == [];
    } else if |image| < size {
      PaddedLast(image, size);
    } else {
      PaddedChunks(image[size..], size);
      PadLengthShift(|image|, size);
      PaddedFull(image, size, Zeros(PadLength(|image|, size)));
    }
  }

  /** A short image is one frame: the image and its padding. */
  lemma PaddedLast(image: seq<byte>, size: nat)
    requires 0 < |image| < size
    ensures Flatten(PadAll(Chunks(image, size), size)) == image + Zeros(PadLength(|image|, size))
  {
    PadAllFirst(image, size);
    PadShort(image, size);
    assert Chunks(image[|image|..], size) == [];
  }

  /** A full first frame is copied as is, in front of whatever the rest becomes. */
  lemma PaddedFull(image: seq<byte>, size: nat, tail: seq<byte>)
    requires 0 < size <= |image|
    requires Flatten(PadAll(Chunks(image[size..], size), size)) == image[size..] + tail
    ensures Flatten(PadAll(Chunks(image, size), size)) == image + tail
  {
    PadAllFull(image, size);
    Associate(image[..size], image[size..], tail);
    SplitAt(image, size);
  }

  lemma PadAllFull(image: seq<byte>, size: nat)
    requires 0 < size <= |image|
    ensures Flatten(PadAll(Chunks(image, size), size)) == image[..size] + Flatten(PadAll(Chunks(image[size..], size), size))
  {
    PadAllFirst(image, size);
    assert Min(size, |image|) == size;
  }

  /** Every padded frame is exactly `size` bytes. */
  lemma {:induction false} PaddedSizes(chunks: seq<seq<byte>>, size: nat)
    requires forall k :: 0 <= k < |chunks| ==> |chunks[k]| <= size
    ensures forall k :: 0 <= k < |PadAll(chunks, size)| ==> |PadAll(chunks, size)[k]| == size
  {
    if chunks != [] {
      PaddedSizes(chunks[1..], size);
      var fs := PadAll(chunks, size);
      assert fs[1..] == PadAll(chunks[1..], size);
      assert |fs[0]| == size;
    }
  }

  /** Peeling the first chunk off the padded frames. */
  lemma PadAllFirst(image: seq<byte>, size: nat)
    requires size > 0 && image != []
    ensures var n := Min(size, |image|);
      var fs := PadAll(Chunks(image, size), size);
      var tail := PadAll(Chunks(image[n..], size), size);
      && fs == [PadTo(image[..n], size)] + tail
      && Flatten(fs) == PadTo(image[..n], size) + Flatten(tail)
  {
    var n := Min(size, |image|);
    var fs := PadAll(Chunks(image, size), size);
    assert Chunks(image, size) == [image[..n]] + Chunks(image[n..], size);
    assert fs[1..] == PadAll(Chunks(image[n..], size), size);
  }

  /** The last, short chunk is padded by exactly `PadLength` zeros. */
  lemma PadShort(chunk: seq<byte>, size: nat)
    requires 0 < |chunk| < size
    ensures PadTo(chunk, size) == chunk + Zeros(PadLength(|chunk|, size))
  {
    ModOf(|chunk|, size, 0, |chunk|);
    ModOf(size - |chunk|, size, 0, size - |chunk|);
  }

  /**
   * Every firmware frame is exactly 65536 bytes, and together they are the
   * image padded with zeros to a multiple of 65536.
   */
  lemma FirmwareFramesPadded(image: seq<byte>)
    ensures var fs := FirmwareFrames(image);
      && Flatten(fs) == image + Zeros(PadLength(|image|, ISP_FLASH_DATA_FRAME_SIZE))
      && (|image| + PadLength(|image|, ISP_FLASH_DATA_FRAME_SIZE)) % ISP_FLASH_DATA_FRAME_SIZE == 0
      && forall k :: 0 <= k < |fs| ==> |fs[k]| == ISP_FLASH_DATA_FRAME_SIZE
  {
    PaddedChunks(image, ISP_FLASH_DATA_FRAME_SIZE);
    ChunksCover(image, ISP_FLASH_DATA_FRAME_SIZE);
    PaddedSizes(Chunks(image, ISP_FLASH_DATA_FRAME_SIZE), ISP_FLASH_DATA_FRAME_SIZE);
    PadLengthFills(|image|, ISP_FLASH_DATA_FRAME_SIZE);
  }

  lemma PadLengthFills(n: nat, size: nat)
    requires size > 0
    ensures (n + PadLength(n, size)) % size == 0
  {
    var q, r := n / size, n % size;
    assert n == size * q + r;
    if r == 0 {
      ModOf(size, size, 1, 0);
      assert PadLength(n, size) == 0;
      ModOf(n, size, q, 0);
    } else {
      ModOf(size - r, size, 0, size - r);
      assert PadLength(n, size) == size - r;
      ModOf(n + (size - r), size, q + 1, 0);
    }
  }

  /** The FLASH_WRITE requests of consecutive frames, 65536 bytes of address apart. */
  function FlashRequests(frames: seq<seq<byte>>, address: nat): (rs: seq<Request>)
    ensures |rs| == |frames|
  {
    if frames == [] then []
    else [FlashWrite(address, frames[0])] + FlashRequests(frames[1..], address + ISP_FLASH_DATA_FRAME_SIZE)
  }

  /** The requests `flash_firmware` sends for an image, starting at `address`. */
  function FirmwarePlan(image: seq<byte>, address: nat): (rs: seq<Request>)
    ensures |rs| == |FirmwareFrames(image)|
    ensures (rs == []) == (image == [])
  {
    FlashRequests(FirmwareFrames(image), address)
  }

  /** The first firmware request writes the first chunk, padded; the rest of the plan starts 65536 bytes on. */
  lemma FirmwarePlanFirst(image: seq<byte>, address: nat)
    requires image != []
    ensures var n := Min(ISP_FLASH_DATA_FRAME_SIZE, |image|);
      FirmwarePlan(image, address) ==
      [FlashWrite(address, PadTo(image[..n], ISP_FLASH_DATA_FRAME_SIZE))] +
      FirmwarePlan(image[n..], address + ISP_FLASH_DATA_FRAME_SIZE)
  {
    var cs := Chunks(image, ISP_FLASH_DATA_FRAME_SIZE);
    assert cs[1..] == Chunks(image[Min(ISP_FLASH_DATA_FRAME_SIZE, |image|)..], ISP_FLASH_DATA_FRAME_SIZE);
    assert FirmwareFrames(image)[1..] == PadAll(cs[1..], ISP_FLASH_DATA_FRAME_SIZE);
  }

  lemma {:induction false} FlashRequestsAt(frames: seq<seq<byte>>, address: nat, k: nat)
    requires k < |frames|
    ensures FlashRequests(frames, address)[k] == FlashWrite(address + ISP_FLASH_DATA_FRAME_SIZE * k, frames[k])
  {
    if k > 0 {
      FlashRequestsAt(frames[1..], address + ISP_FLASH_DATA_FRAME_SIZE, k - 1);
    }
  }

  /**
   * The k-th firmware request writes the k-th padded frame, always 65536
   * bytes, at `address + 65536 * k`.
   */
  lemma FirmwarePlanAt(image: seq<byte>, address: nat, k: nat)
    requires k < |FirmwarePlan(image, address)|
    ensures var frame := FirmwareFrames(image)[k];
      && |frame| == ISP_FLASH_DATA_FRAME_SIZE
      && FirmwarePlan(image, address)[k] == FlashWrite(address + ISP_FLASH_DATA_FRAME_SIZE * k, frame)
  {
    FirmwareFramesPadded(image);
    FlashRequestsAt(FirmwareFrames(image), address, k);
  }
}
