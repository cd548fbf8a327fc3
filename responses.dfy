/**
 * The two response parsers and the acknowledgement rule of `recv_debug`.
 * A response is the element list the as-written SLIP scan returns, which
 * can hold `undefined` (see `Slip.Unframe`).
 */
module Responses {
  import opened Results
  import opened Bytes
  import opened Slip

  /** A JavaScript number produced by `parseInt` on a response element. */
  datatype Code = Num(n: byte) | NaN

  /** `parseInt(data[k])`: a byte parses as itself, `undefined` as NaN. */
  function CodeAt(data: seq<Elem>, k: nat): (c: Code)
    ensures c.Num? <==> k < |data| && data[k].Byte?
    ensures c.Num? ==> c.n == data[k].b
  {
    if k < |data| then
      match data[k]
      case Byte(b) => Num(b)
      case Undefined => NaN
    else NaN
  }

  /** `[op, reason, text]` as both parsers return it. */
  datatype Response = Response(op: Code, reason: Code, text: string)

  // ISPResponse.ISPOperation
  const ISP_OPERATIONS: set<byte> := {0xC1, 0xC2, 0xC3, 0xC4, 0xC5, 0xD1, 0xC6}
  const ISP_DEBUG_INFO_OP: byte := 0xD1
  const ISP_RET_DEFAULT: byte := 0x00
  const ISP_RET_OK: byte := 0xE0

  /** `str.slice(k)` on a string. */
  function Slice(s: string, k: nat): string
  {
    if k <= |s| then s[k..] else []
  }

  /**
   * `String.fromCharCode(...s)` for a string `s`: every character is passed
   * as an argument and converted to a number, so a decimal digit gives the
   * character with that code and anything else (NaN, or 0 for white space)
   * gives character 0.
   */
  function FromCharCodesOfString(s: string): (t: string)
    ensures |t| == |s|
  {
    seq(|s|, i requires 0 <= i < |s| => if '0' <= s[i] <= '9' then (s[i] as int - '0' as int) as char else 0 as char)
  }

  /**
   * `ISPResponse.parse`: the operation and reason are the first two elements;
   * for an operation in the ISP table (the second operand of the `&&` is the
   * constant 0xD1, always truthy) the text is rebuilt from `text.slice(2)`,
   * where `text` is the empty string it was initialised to.
   */
  function ParseIsp(data: seq<Elem>): (r: Response)
    ensures r.op == CodeAt(data, 0) && r.reason == CodeAt(data, 1)
    ensures r.text == ""
  {
    var op := CodeAt(data, 0);
    var text := "";
    var text' := if op.Num? && op.n in ISP_OPERATIONS && ISP_DEBUG_INFO_OP != 0 then FromCharCodesOfString(Slice(text, 2)) else text;
    Response(op, CodeAt(data, 1), text')
  }

  /**
   * `FlashModeResponse.parse`: logging `data.map((e) => e.toString(16))`
   * throws a TypeError (`None`) when an element is `undefined`; otherwise the
   * operation and reason are the first two elements, and for ISP_DEBUG_INFO
   * the text is again rebuilt from the empty `text`.
   */
  function ParseFlash(data: seq<Elem>): (r: Option<Response>)
    ensures r.None? <==> Undefined in data
    ensures r.Some? ==> r.value.op == CodeAt(data, 0) && r.value.reason == CodeAt(data, 1)
    ensures r.Some? ==> r.value.text == ""
  {
    if Undefined in data then None
    else
      var op := CodeAt(data, 0);
      var text := "";
      var text' := if op == Num(ISP_DEBUG_INFO_OP) then FromCharCodesOfString(Slice(text, 2)) else text;
      Some(Response(op, CodeAt(data, 1), text'))
  }

  /** `recv_debug`'s verdict: the reason is ISP_RET_DEFAULT or ISP_RET_OK. */
  predicate Acknowledged(resp: Response)
  {
    resp.reason == Num(ISP_RET_DEFAULT) || resp.reason == Num(ISP_RET_OK)
  }

  /**
   * A received element list is accepted by `recv_debug` exactly when its
   * second element is the byte 0x00 or 0xE0; a short list or an `undefined`
   * there gives NaN and is refused.
   */
  lemma AcknowledgedIff(data: seq<Elem>)
    ensures Acknowledged(ParseIsp(data)) <==>
      |data| >= 2 && (data[1] == Byte(ISP_RET_DEFAULT) || data[1] == Byte(ISP_RET_OK))
  {
  }

  /** The flash stub's success reply to `op`: that operation with ISP_RET_OK. */
  predicate IsReply(resp: Response, op: byte)
  {
    resp.op == Num(op) && resp.reason == Num(ISP_RET_OK)
  }

  /**
   * A flash-mode reply counts as the success reply to `op` exactly when it
   * has no `undefined`, starts with `op` and carries ISP_RET_OK.
   */
  lemma IsReplyIff(data: seq<Elem>, op: byte)
    ensures (ParseFlash(data).Some? && IsReply(ParseFlash(data).value, op)) <==>
      Undefined !in data && |data| >= 2 && data[0] == Byte(op) && data[1] == Byte(ISP_RET_OK)
  {
  }

  // ---------------------------------------------------------------------
  // The debug text as it was evidently meant to be read.
  // ---------------------------------------------------------------------

  /** `String.fromCharCode(...elems)`: `undefined` converts to NaN, then code 0. */
  function FromCharCodes(elems: seq<Elem>): (t: string)
    ensures |t| == |elems|
  {
    seq(|elems|, i requires 0 <= i < |elems| => match elems[i] case Byte(b) => b as int as char case Undefined => 0 as char)
  }

  /**
   * The parser with the text taken from `data.slice(2)` for ISP_DEBUG_INFO,
   * as the names suggest was intended.
   */
  function ParseDebug(data: seq<Elem>): (r: Response)
    ensures r.op == CodeAt(data, 0) && r.reason == CodeAt(data, 1)
  {
    var op := CodeAt(data, 0);
    var text := if op == Num(ISP_DEBUG_INFO_OP) && |data| >= 2 then FromCharCodes(data[2..]) else "";
    Response(op, CodeAt(data, 1), text)
  }

  /**
   * A debug-info response carries its message: the bytes after the
   * operation and reason, one character per byte.
   */
  lemma ParseDebugText(reason: byte, message: seq<byte>)
    ensures ParseDebug([Byte(ISP_DEBUG_INFO_OP), Byte(reason)] + Elems(message)).text == Latin1(message)
  {
    var data := [Byte(ISP_DEBUG_INFO_OP), Byte(reason)] + Elems(message);
    assert data[2..] == Elems(message);
  }

  /** The as-written parser drops that message: here "A" comes back as "". */
  lemma ParseIspDropsDebugText()
    ensures ParseIsp([Byte(0xD1), Byte(0), Byte(0x41)]).text == ""
    ensures ParseDebug([Byte(0xD1), Byte(0), Byte(0x41)]).text == "A"
  {
    ParseDebugText(0, [0x41]);
    assert [Byte(0xD1), Byte(0), Byte(0x41)] == [Byte(ISP_DEBUG_INFO_OP), Byte(0)] + Elems([0x41]);
  }
}
