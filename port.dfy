/**
 * `Port.readLine`: the bytes of a read buffer up to and including the first
 * line feed, as text trimmed the way `String.prototype.trim` trims it, and
 * the bytes after that line feed.
 */
module Port {
  import opened Results
  import opened Bytes

  const LINE_FEED: byte := 0x0A

  /**
   * The characters `trim` removes that a single byte can produce: tab, line
   * feed, vertical tab, form feed, carriage return, space and no-break space.
   */
  predicate IsSpace(c: char)
  {
    (9 <= c as int <= 13) || c as int == 0x20 || c as int == 0xA0
  }

  /** The text with its leading white space removed. */
  function TrimStart(s: string): (r: string)
    ensures |r| <= |s| && r == s[|s| - |r|..]
    ensures r == [] || !IsSpace(r[0])
    ensures forall i :: 0 <= i < |s| - |r| ==> IsSpace(s[i])
  {
    if s != [] && IsSpace(s[0]) then TrimStart(s[1..]) else s
  }

  /** The text with its trailing white space removed. */
  function TrimEnd(s: string): (r: string)
    ensures |r| <= |s| && r == s[..|r|]
    ensures r == [] || !IsSpace(r[|r| - 1])
    ensures forall i :: |r| <= i < |s| ==> IsSpace(s[i])
  {
    if s != [] && IsSpace(s[|s| - 1]) then TrimEnd(s[..|s| - 1]) else s
  }

  /** `String.prototype.trim` on text whose characters all come from bytes. */
  function Trim(s: string): (r: string)
    ensures |r| <= |s|
  {
    TrimEnd(TrimStart(s))
  }

  /** The trimmed text is a slice of the original, starting where `TrimStart` starts. */
  lemma TrimSlice(s: string)
    ensures var r := Trim(s); var lo := |s| - |TrimStart(s)|;
      lo + |r| <= |s| && r == s[lo..lo + |r|]
  {
    var t := TrimStart(s);
    var r := TrimEnd(t);
    SliceOfSuffix(s, |s| - |t|, |r|);
  }

  /**
   * The trimmed text neither starts nor ends with white space, and
   * everything cut off on either side is white space.
   */
  lemma TrimEdges(s: string)
    ensures var r := Trim(s); var lo := |s| - |TrimStart(s)|;
      && (r == [] || (!IsSpace(r[0]) && !IsSpace(r[|r| - 1])))
      && (forall i :: 0 <= i < lo ==> IsSpace(s[i]))
      && (forall i :: lo + |r| <= i < |s| ==> IsSpace(s[i]))
  {
    var t := TrimStart(s);
    var r := TrimEnd(t);
    var lo := |s| - |t|;
    assert t == s[lo..];
    if r != [] {
      assert r[0] == t[0];
    }
    forall i | lo + |r| <= i < |s|
      ensures IsSpace(s[i])
    {
      assert s[i] == t[i - lo];
    }
  }

  /** Trimming twice is trimming once. */
  lemma TrimIdempotent(s: string)
    ensures Trim(Trim(s)) == Trim(s)
  {
    var r := Trim(s);
    TrimEdges(s);
    assert TrimStart(r) == r;
    assert TrimEnd(r) == r;
  }

  /** White space around a text does not change what it trims to. */
  lemma {:induction false} TrimStartPadded(pad: string, s: string)
    requires forall i :: 0 <= i < |pad| ==> IsSpace(pad[i])
    ensures TrimStart(pad + s) == TrimStart(s)
    decreases |pad|
  {
    if pad != [] {
      assert (pad + s)[1..] == pad[1..] + s;
      TrimStartPadded(pad[1..], s);
    } else {
      assert pad + s == s;
    }
  }

  lemma {:induction false} TrimEndPadded(s: string, pad: string)
    requires forall i :: 0 <= i < |pad| ==> IsSpace(pad[i])
    ensures TrimEnd(s + pad) == TrimEnd(s)
    decreases |pad|
  {
    if pad != [] {
      assert (s + pad)[..|s + pad| - 1] == s + pad[..|pad| - 1];
      TrimEndPadded(s, pad[..|pad| - 1]);
    } else {
      assert s + pad == s;
    }
  }

  /** The index of the first line feed in `buf`, or `|buf|` when there is none. */
  function NewlineIndex(buf: seq<byte>): (k: nat)
    ensures k <= |buf|
    ensures k < |buf| ==> buf[k] == LINE_FEED
    ensures forall j :: 0 <= j < k ==> buf[j] != LINE_FEED
  {
    if buf == [] then 0
    else if buf[0] == LINE_FEED then 0
    else 1 + NewlineIndex(buf[1..])
  }

  /**
   * `readLine(buf)`: the characters are collected up to and including the
   * first line feed, then trimmed; the rest is `buf.subarray(i + 1)`, which
   * is empty when the loop ran off the end.
   */
  method ReadLine(buf: seq<byte>) returns (text: string, rest: seq<byte>)
    ensures var k := NewlineIndex(buf);
      && (k < |buf| ==> text == Trim(Latin1(buf[..k + 1])) && rest == buf[k + 1..])
      && (k == |buf| ==> text == Trim(Latin1(buf)) && rest == [])
  {
    var line: string := "";
    var i := 0;
    while i < |buf|
      invariant 0 <= i <= |buf|
      invariant i <= NewlineIndex(buf)
      invariant line == Latin1(buf[..i])
    {
      line := line + [buf[i] as int as char];
      assert line == Latin1(buf[..i + 1]);
      if buf[i] == LINE_FEED {
        break;
      }
      i := i + 1;
    }
    ghost var k := NewlineIndex(buf);
    if i < |buf| {
      assert i == k && line == Latin1(buf[..k + 1]);
      rest := buf[i + 1..];
    } else {
      assert buf[..i] == buf;
      rest := [];
    }
    text := Trim(line);
  }

  /**
   * What `readLine` consumes and what it leaves add up to the buffer: the
   * consumed part is the line with its line feed, or the whole buffer.
   */
  lemma ReadLineSplits(buf: seq<byte>)
    ensures var k := NewlineIndex(buf);
      var used := if k < |buf| then k + 1 else |buf|;
      var rest := if k < |buf| then buf[k + 1..] else [];
      && buf[..used] + rest == buf
      && LINE_FEED !in buf[..k]
  {
    var k := NewlineIndex(buf);
    if k < |buf| {
      SplitAt(buf, k + 1);
    } else {
      assert buf[..|buf|] + [] == buf;
    }
    assert forall x :: x in buf[..k] ==> x != LINE_FEED;
  }
}
