/**
 * SLIP framing (RFC 1055) as the flasher does it: the encoder of
 * `MAIXLoader.write`, the frame scan of `recv_one_return` exactly as written,
 * and the decoder that scan was evidently meant to be.
 */
module Slip {
  import opened Results
  import opened Bytes

  const END: byte := 0xC0
  const ESC: byte := 0xDB
  const ESC_END: byte := 0xDC
  const ESC_ESC: byte := 0xDD

  function EscapeByte(b: byte): seq<byte>
  {
    if b == END then [ESC, ESC_END] else if b == ESC then [ESC, ESC_ESC] else [b]
  }

  /** The body of a frame: every byte of the packet, escaped in order. */
  function Escape(p: seq<byte>): (e: seq<byte>)
    ensures |p| <= |e| <= 2 * |p|
  {
    if p == [] then [] else EscapeByte(p[0]) + Escape(p[1..])
  }

  /** `[0xc0, ...handlePacket, 0xc0]`: the frame `MAIXLoader.write` puts on the wire. */
  function Encode(p: seq<byte>): (f: seq<byte>)
    ensures |p| + 2 <= |f| <= 2 * |p| + 2
  {
    [END] + Escape(p) + [END]
  }

  /** The number of packet bytes that need an escape. */
  function CountSpecial(p: seq<byte>): nat
  {
    if p == [] then 0 else (if p[0] == END || p[0] == ESC then 1 else 0) + CountSpecial(p[1..])
  }

  predicate Clean(p: seq<byte>)
  {
    END !in p && ESC !in p
  }

  lemma {:induction false} EscapeAppend(a: seq<byte>, b: seq<byte>)
    ensures Escape(a + b) == Escape(a) + Escape(b)
  {
    if a == [] {
      assert a + b == b;
    } else {
      assert (a + b)[0] == a[0] && (a + b)[1..] == a[1..] + b;
      EscapeAppend(a[1..], b);
    }
  }

  lemma {:induction false} EscapeShape(p: seq<byte>)
    ensures |Escape(p)| == |p| + CountSpecial(p)
    ensures END !in Escape(p)
  {
    if p != [] {
      EscapeShape(p[1..]);
    }
  }

  lemma {:induction false} EscapeClean(p: seq<byte>)
    requires Clean(p)
    ensures Escape(p) == p
  {
    if p != [] {
      assert p == [p[0]] + p[1..];
      EscapeClean(p[1..]);
    }
  }

  /**
   * A frame starts and ends with 0xC0, has no other 0xC0, and is as long as
   * the packet plus the two delimiters plus one byte per escaped byte.
   */
  lemma EncodeFraming(p: seq<byte>)
    ensures var f := Encode(p);
      && |f| == |p| + 2 + CountSpecial(p)
      && f[0] == END && f[|f| - 1] == END
      && forall i :: 0 < i < |f| - 1 ==> f[i] != END
  {
    EscapeShape(p);
    var f := Encode(p);
    forall i | 0 < i < |f| - 1 ensures f[i] != END {
      assert f[i] == Escape(p)[i - 1];
    }
  }

  // ---------------------------------------------------------------------
  // The frame scan of `recv_one_return`, as written.
  // ---------------------------------------------------------------------

  /** An element of the JavaScript array the scan builds: a byte, or `undefined`. */
  datatype Elem = Byte(b: byte) | Undefined

  datatype SlipError = InvalidSlipEscape | NoFrameStart | Unterminated

  function Elems(p: seq<byte>): (e: seq<Elem>)
    ensures |e| == |p| && forall i :: 0 <= i < |p| ==> e[i] == Byte(p[i])
  {
    seq(|p|, i requires 0 <= i < |p| => Byte(p[i]))
  }

  /** `buf[k]` in JavaScript: reading past the end gives `undefined`. */
  function At(buf: seq<byte>, k: nat): Elem
  {
    if k < |buf| then Byte(buf[k]) else Undefined
  }

  /**
   * The second scan of `recv_one_return` from loop counter `i` on: the next
   * element looked at is `buf[++i]`, so the scan starts at index 1 whatever
   * the index of the first 0xC0, and its last step reads `buf[buf.length]`.
   * The raw element is always appended, also after a translated escape, and
   * once an 0xDB has been seen the scan stays in escape mode.
   */
  function Unframe(buf: seq<byte>, i: nat, inEscape: bool): (r: Result<seq<Elem>, SlipError>)
    ensures r.Err? ==> r.error == InvalidSlipEscape && (inEscape || exists j :: i < j < |buf| && buf[j] == ESC)
    decreases |buf| - i
  {
    if i >= |buf| then Ok([])
    else
      var c := At(buf, i + 1);
      if c == Byte(END) then Ok([])
      else if inEscape then
        if c == Byte(ESC_END) then Prepend([Byte(END), c], Unframe(buf, i + 1, true))
        else if c == Byte(ESC_ESC) then Prepend([Byte(ESC), c], Unframe(buf, i + 1, true))
        else Err(InvalidSlipEscape)
      else Prepend([c], Unframe(buf, i + 1, c == Byte(ESC)))
  }

  /** Scanning a buffer whose bytes from index `i + 1` on are clean, up to a closing 0xC0. */
  lemma {:induction false} UnframeCleanFrom(buf: seq<byte>, i: nat, k: nat)
    requires i < k < |buf| && buf[k] == END
    requires forall j :: i < j < k ==> buf[j] != END && buf[j] != ESC
    ensures Unframe(buf, i, false) == Ok(Elems(buf[i + 1..k]))
    decreases k - i
  {
    if i + 1 < k {
      UnframeCleanFrom(buf, i + 1, k);
      assert Elems(buf[i + 1..k]) == [Byte(buf[i + 1])] + Elems(buf[i + 2..k]);
    } else {
      assert buf[i + 1..k] == [];
    }
  }

  /**
   * For a packet with no 0xC0 and no 0xDB, scanning the frame `MAIXLoader.write`
   * sends gives the packet back.
   */
  lemma UnframeEncodeClean(p: seq<byte>)
    requires Clean(p)
    ensures Unframe(Encode(p), 0, false) == Ok(Elems(p))
  {
    EscapeClean(p);
    var f := Encode(p);
    assert f == [END] + p + [END];
    assert f[1..|f| - 1] == p;
    UnframeCleanFrom(f, 0, |f| - 1);
  }

  /**
   * From escape mode at `i`, a 0xC0 at `k` closes the frame with only 0xDC
   * and 0xDD bytes in between.
   */
  predicate EscapesUpTo(buf: seq<byte>, i: nat, k: nat)
  {
    i < k < |buf| && buf[k] == END && forall j :: i < j < k ==> buf[j] == ESC_END || buf[j] == ESC_ESC
  }

  /**
   * Once in escape mode, the scan succeeds exactly when a 0xC0 comes and
   * every byte before it is 0xDC or 0xDD; any other byte, or the end of the
   * buffer, makes it throw "Invalid SLIP escape".
   */
  lemma {:induction false} UnframeEscapeLatch(buf: seq<byte>, i: nat)
    requires i < |buf|
    ensures Unframe(buf, i, true).Ok? <==> exists k :: EscapesUpTo(buf, i, k)
    decreases |buf| - i
  {
    var c := At(buf, i + 1);
    if c == Byte(END) {
      assert EscapesUpTo(buf, i, i + 1);
    } else if c == Byte(ESC_END) || c == Byte(ESC_ESC) {
      UnframeEscapeLatch(buf, i + 1);
      assert Unframe(buf, i, true).Ok? == Unframe(buf, i + 1, true).Ok?;
      var next := i + 1;
      if exists k :: EscapesUpTo(buf, next, k) {
        var k :| EscapesUpTo(buf, next, k);
        assert EscapesUpTo(buf, i, k);
      }
      if exists k :: EscapesUpTo(buf, i, k) {
        var k :| EscapesUpTo(buf, i, k);
        assert buf[i + 1] != END;
        assert EscapesUpTo(buf, i + 1, k);
      }
    } else if i + 1 < |buf| {
      forall k | i < k < |buf| && buf[k] == END
        ensures !EscapesUpTo(buf, i, k)
      {
        assert i + 1 < k;
      }
    }
  }

  lemma {:induction false} UnframeUpToEscape(buf: seq<byte>, i: nat, j: nat)
    requires i < j < |buf| && buf[j] == ESC
    requires forall m :: i < m < j ==> buf[m] != END && buf[m] != ESC
    ensures Unframe(buf, i, false) == Prepend(Elems(buf[i + 1..j + 1]), Unframe(buf, j, true))
    decreases j - i
  {
    if i + 1 < j {
      UnframeUpToEscape(buf, i + 1, j);
      assert Elems(buf[i + 1..j + 1]) == [Byte(buf[i + 1])] + Elems(buf[i + 2..j + 1]);
      PrependPrepend([Byte(buf[i + 1])], Elems(buf[i + 2..j + 1]), Unframe(buf, j, true));
    } else {
      assert Elems(buf[i + 1..j + 1]) == [Byte(ESC)];
    }
  }

  /**
   * "Invalid SLIP escape": when the first 0xDB the scan meets is at index `j`,
   * the scan succeeds exactly when a 0xC0 follows with only 0xDC and 0xDD
   * bytes between; in particular any other byte after an 0xDB throws, even
   * when it comes after a correctly translated escape.
   */
  lemma UnframeThrowsAfterEscape(buf: seq<byte>, j: nat)
    requires 1 <= j < |buf| && buf[j] == ESC
    requires forall m :: 1 <= m < j ==> buf[m] != END && buf[m] != ESC
    ensures Unframe(buf, 0, false).Ok? <==> exists k :: EscapesUpTo(buf, j, k)
  {
    UnframeUpToEscape(buf, 0, j);
    UnframeEscapeLatch(buf, j);
  }

  lemma {:induction false} UnframeOpenFrom(buf: seq<byte>, i: nat)
    requires i < |buf|
    requires forall m :: i < m < |buf| ==> buf[m] != END && buf[m] != ESC
    ensures Unframe(buf, i, false) == Ok(Elems(buf[i + 1..]) + [Undefined])
    decreases |buf| - i
  {
    if i + 1 < |buf| {
      UnframeOpenFrom(buf, i + 1);
      assert Elems(buf[i + 1..]) == [Byte(buf[i + 1])] + Elems(buf[i + 2..]);
      assert [Byte(buf[i + 1])] + (Elems(buf[i + 2..]) + [Undefined])
          == Elems(buf[i + 1..]) + [Undefined];
    } else {
      assert Elems(buf[i + 1..]) == [];
      assert Unframe(buf, i + 1, false) == Ok([]);
      assert [Undefined] + [] == [] + [Undefined];
    }
  }

  /**
   * Without a closing 0xC0 the scan reads one index past the end of the
   * buffer, and the `undefined` it finds there becomes the last element.
   */
  lemma UnframeUnterminated(buf: seq<byte>)
    requires |buf| >= 1
    requires forall m :: 1 <= m < |buf| ==> buf[m] != END && buf[m] != ESC
    ensures Unframe(buf, 0, false) == Ok(Elems(buf[1..]) + [Undefined])
  {
    UnframeOpenFrom(buf, 0);
  }

  // ---------------------------------------------------------------------
  // The decoder the scan was meant to be (section 2 of RFC 1055).
  // ---------------------------------------------------------------------

  /** Un-escapes a frame body up to its closing 0xC0. */
  function Unescape(s: seq<byte>): (r: Result<seq<byte>, SlipError>)
    ensures r.Ok? ==> END in s && |r.value| < |s|
    ensures r.Err? ==> r.error != NoFrameStart
  {
    if s == [] then Err(Unterminated)
    else if s[0] == END then Ok([])
    else if s[0] == ESC then
      if |s| == 1 then Err(Unterminated)
      else if s[1] == ESC_END then Prepend([END], Unescape(s[2..]))
      else if s[1] == ESC_ESC then Prepend([ESC], Unescape(s[2..]))
      else Err(InvalidSlipEscape)
    else Prepend([s[0]], Unescape(s[1..]))
  }

  /** Discards the bytes before the first 0xC0, then un-escapes the frame after it. */
  function Decode(buf: seq<byte>): (r: Result<seq<byte>, SlipError>)
    ensures r.Ok? ==> |r.value| + 2 <= |buf|
    ensures r == Err(NoFrameStart) <==> END !in buf
  {
    if buf == [] then Err(NoFrameStart)
    else if buf[0] == END then Unescape(buf[1..])
    else Decode(buf[1..])
  }

  lemma {:induction false} UnescapeEscape(p: seq<byte>, tail: seq<byte>)
    ensures Unescape(Escape(p) + [END] + tail) == Ok(p)
  {
    var s := Escape(p) + [END] + tail;
    if p == [] {
      assert s == [END] + tail;
    } else {
      var rest := Escape(p[1..]) + [END] + tail;
      UnescapeEscape(p[1..], tail);
      assert s == EscapeByte(p[0]) + rest;
      if p[0] == END {
        assert s[0] == ESC && s[1] == ESC_END && s[2..] == rest;
        assert Unescape(s) == Prepend([END], Unescape(rest));
      } else if p[0] == ESC {
        assert s[0] == ESC && s[1] == ESC_ESC && s[2..] == rest;
        assert Unescape(s) == Prepend([ESC], Unescape(rest));
      } else {
        assert s[0] == p[0] && s[1..] == rest;
        assert Unescape(s) == Prepend([p[0]], Unescape(rest));
      }
      assert p == [p[0]] + p[1..];
    }
  }

  lemma {:induction false} UnescapeOpen(p: seq<byte>)
    ensures Unescape(Escape(p)) == Err(Unterminated)
  {
    if p != [] {
      UnescapeOpen(p[1..]);
      var s := Escape(p);
      if p[0] == END || p[0] == ESC {
        assert s[2..] == Escape(p[1..]);
      } else {
        assert s[1..] == Escape(p[1..]);
      }
    }
  }

  /** Round trip: decoding a frame gives back the packet, whatever follows the frame. */
  lemma DecodeEncode(p: seq<byte>, tail: seq<byte>)
    ensures Decode(Encode(p) + tail) == Ok(p)
  {
    var f := Encode(p) + tail;
    assert f[1..] == Escape(p) + [END] + tail;
    UnescapeEscape(p, tail);
  }

  /** Bytes before the first 0xC0 are line noise and are discarded. */
  lemma {:induction false} DecodeSkipsNoise(noise: seq<byte>, rest: seq<byte>)
    requires END !in noise
    ensures Decode(noise + rest) == Decode(rest)
  {
    if noise != [] {
      assert (noise + rest)[1..] == noise[1..] + rest;
      DecodeSkipsNoise(noise[1..], rest);
    } else {
      assert noise + rest == rest;
    }
  }

  /** A frame whose closing 0xC0 has not arrived is reported as unterminated. */
  lemma DecodeUnterminated(p: seq<byte>)
    ensures Decode([END] + Escape(p)) == Err(Unterminated)
  {
    assert ([END] + Escape(p))[1..] == Escape(p);
    UnescapeOpen(p);
  }

  /**
   * On a frame whose packet has no 0xC0 and no 0xDB the scan as written and
   * the intended decoder agree.
   */
  lemma UnframeAgreesWithDecode(p: seq<byte>)
    requires Clean(p)
    ensures Unframe(Encode(p), 0, false) == Ok(Elems(p))
    ensures Decode(Encode(p)) == Ok(p)
  {
    UnframeEncodeClean(p);
    DecodeEncode(p, []);
    assert Encode(p) + [] == Encode(p);
  }

  /**
   * The scan as written is not the inverse of the encoder: the frame of the
   * one-byte packet 0xC0 comes back as three elements, and the frame of the
   * packet 0xC0 0x01 makes it throw.
   */
  lemma UnframeMisreadsEscapes()
    ensures Encode([END]) == [END, ESC, ESC_END, END]
    ensures Unframe([END, ESC, ESC_END, END], 0, false) == Ok([Byte(ESC), Byte(END), Byte(ESC_END)])
    ensures Unframe([END, ESC, ESC_END, 0x01, END], 0, false) == Err(InvalidSlipEscape)
    ensures Decode([END, ESC, ESC_END, END]) == Ok([END])
    ensures Decode([END, ESC, ESC_END, 0x01, END]) == Ok([END, 0x01])
  {
    assert Escape([END]) == EscapeByte(END) + Escape([]);
    assert Escape([0x01]) == EscapeByte(0x01) + Escape([]);
    assert Escape([END, 0x01]) == EscapeByte(END) + Escape([0x01]);
    var a: seq<byte> := [END, ESC, ESC_END, END];
    assert Unframe(a, 2, true) == Ok([]);
    assert Unframe(a, 1, true) == Prepend([Byte(END), Byte(ESC_END)], Unframe(a, 2, true));
    assert Unframe(a, 0, false) == Prepend([Byte(ESC)], Unframe(a, 1, true));
    assert [Byte(ESC)] + ([Byte(END), Byte(ESC_END)] + []) == [Byte(ESC), Byte(END), Byte(ESC_END)];
    var b: seq<byte> := [END, ESC, ESC_END, 0x01, END];
    assert Unframe(b, 2, true) == Err(InvalidSlipEscape);
    assert Unframe(b, 1, true) == Prepend([Byte(END), Byte(ESC_END)], Unframe(b, 2, true));
    assert Unframe(b, 0, false) == Prepend([Byte(ESC)], Unframe(b, 1, true));
    DecodeEncode([END], []);
    DecodeEncode([END, 0x01], []);
    assert Encode([END]) + [] == a;
    assert Encode([END, 0x01]) + [] == b;
  }

  /**
   * The second scan restarts at index 1 instead of after the first 0xC0:
   * noise before the frame leaks into the result and the frame is cut off.
   */
  lemma UnframeRestartsAtOne()
    ensures Unframe([0x01, 0x05, END, 0x02, END], 0, false) == Ok([Byte(0x05)])
    ensures Decode([0x01, 0x05, END, 0x02, END]) == Ok([0x02])
  {
    var a: seq<byte> := [0x01, 0x05, END, 0x02, END];
    assert Unframe(a, 1, false) == Ok([]);
    assert Unframe(a, 0, false) == Prepend([Byte(0x05)], Unframe(a, 1, false));
    assert [Byte(0x05)] + [] == [Byte(0x05)];
    assert Escape([0x02]) == EscapeByte(0x02) + Escape([]);
    DecodeSkipsNoise([0x01, 0x05], [END, 0x02, END]);
    DecodeEncode([0x02], []);
    assert [0x01, 0x05] + [END, 0x02, END] == a;
    assert Encode([0x02]) + [] == [END, 0x02, END];
  }
}
