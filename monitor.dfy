/** MonitorSocket: what it does to frames on their way out (marking its own
    injected frames) and on their way in (dropping captures that are not
    802.11, its own echoes and kernel reflections, and removing a trailing
    Frame Check Sequence announced by the Radiotap header). The sockets
    themselves are the packet library's and are not modelled: a received
    capture is an input and a sent frame an output. */
module Monitor {
  import opened Common
  import opened Frames

  /** One captured unit as the packet library dissected it. */
  datatype Capture = Capture(
    isDot11: bool,            // a Dot11 or Dot11FCS layer was dissected
    fcsParsed: bool,          // the library itself dissected it as Dot11FCS
    fcField: bv8,             // FCfield of that layer
    rtLen: nat,               // it_len of the Radiotap header
    rtPresent: bv32,          // the first it_present word
    rawRadiotap: seq<bv8>,    // raw(p[RadioTap]): the Radiotap header and all that follows it
    rawDot11: seq<bv8>)       // raw(p[Dot11]), or raw(p[Dot11FCS]) when fcsParsed

  /** it_present bits and Flags bits of the Radiotap header format
      (radiotap.org): TSFT, Flags, the Ext bit ending a present word, and
      "frame includes FCS". */
  const TsftPresent: bv32 := 0x1
  const FlagsPresent: bv32 := 0x2
  const PresentExt: bv8 := 0x80
  const FlagFcsAtEnd: bv8 := 0x10

  /** A mutable packet object: send changes the caller's packet itself. */
  class Packet {
    var frame: Frame

    constructor (f: Frame)
      ensures frame == f
    {
      frame := f;
    }
  }

  /** The frame with More Data set, as send marks it: that bit is set and
      nothing else differs. */
  function MarkInjected(f: Frame): (g: Frame)
    ensures g.fcField & MoreData != 0
    ensures g.fcField & !MoreData == f.fcField & !MoreData
    ensures g == f.(fcField := g.fcField)
  {
    f.(fcField := f.fcField | MoreData)
  }

  /** `s[:-4]`: all but the last four octets; empty for a shorter string. */
  function DropFcs(s: seq<bv8>): (r: seq<bv8>)
    ensures |s| >= 4 ==> |r| == |s| - 4 && r + s[|s| - 4..] == s
    ensures |s| < 4 ==> r == []
  {
    if |s| >= 4 then s[..|s| - 4] else []
  }

  /** The offset just past the it_present words, counting from pos: every
      word whose last octet (at pos - 1) has the Ext bit is followed by
      another. Reading past the captured octets raises. */
  function PresentEnd(raw: seq<bv8>, pos: nat): (r: Result<nat>)
    requires pos >= 8 && pos % 4 == 0
    ensures r.Ok? ==> (pos <= r.value <= |raw| && r.value % 4 == 0
                       && raw[r.value - 1] & PresentExt == 0)
    ensures r.Ok? ==> forall q :: pos <= q < r.value && q % 4 == 0 ==> raw[q - 1] & PresentExt != 0
    ensures r.Raises? ==> r.exc == IndexError
    ensures r.Raises? ==> forall q :: pos <= q <= |raw| && q % 4 == 0 ==> raw[q - 1] & PresentExt != 0
    decreases |raw| - pos
  {
    if pos - 1 >= |raw| then Raises(IndexError)
    else if raw[pos - 1] & PresentExt != 0 then PresentEnd(raw, pos + 4)
    else Ok(pos)
  }

  /** `pos = 8; while rawframe[pos - 1] & 0x80 != 0: pos += 4` */
  method SkipPresentWords(raw: seq<bv8>) returns (r: Result<nat>)
    ensures r == PresentEnd(raw, 8)
  {
    var pos := 8;
    while pos - 1 < |raw| && raw[pos - 1] & PresentExt != 0
      invariant pos >= 8 && pos % 4 == 0
      invariant PresentEnd(raw, pos) == PresentEnd(raw, 8)
      decreases |raw| - pos
    {
      pos := pos + 4;
    }
    if pos - 1 >= |raw| {
      return Raises(IndexError);
    }
    return Ok(pos);
  }

  /** The smallest multiple of 8 at or after pos. */
  function AlignUp8(pos: nat): (r: nat)
    ensures r % 8 == 0 && pos <= r < pos + 8
  {
    pos + (8 - pos % 8) % 8
  }

  /** Lines 380-382 as written: `pos += 8 - pos % 8; pos += 8`. When pos is
      already a multiple of 8 this adds 16, one TSFT field too many. */
  function FlagsOffsetAsWritten(present: bv32, pos: nat): (r: nat)
    ensures present & TsftPresent == 0 ==> r == pos
    ensures present & TsftPresent != 0 ==> r % 8 == 0 && pos + 8 < r <= pos + 16
  {
    if present & TsftPresent != 0 then pos + (8 - pos % 8) + 8 else pos
  }

  /** Where the Flags field is: right after the present words, or after the
      8-octet TSFT field that starts at the next 8-aligned offset. */
  function FlagsOffset(present: bv32, pos: nat): (r: nat)
    ensures present & TsftPresent == 0 ==> r == pos
    ensures present & TsftPresent != 0 ==> r == AlignUp8(pos) + 8 && r % 8 == 0 && pos + 8 <= r < pos + 16
  {
    if present & TsftPresent != 0 then AlignUp8(pos) + 8 else pos
  }

  /** The written offset agrees with the Flags offset unless the present
      words end on an 8-octet boundary, and then it is 8 octets too far. */
  lemma FlagsOffsetAsWrittenVsFlagsOffset(present: bv32, pos: nat)
    ensures pos % 8 != 0 || present & TsftPresent == 0 ==>
              FlagsOffsetAsWritten(present, pos) == FlagsOffset(present, pos)
    ensures pos % 8 == 0 && present & TsftPresent != 0 ==>
              FlagsOffsetAsWritten(present, pos) == FlagsOffset(present, pos) + 8
  {
  }

  /** Drop the last four octets of the 802.11 frame when the Flags octet at
      offset f says the frame includes an FCS. */
  function FcsByFlags(c: Capture, f: nat): (r: Result<seq<bv8>>)
    ensures f >= |c.rawRadiotap| <==> r == Raises(IndexError)
    ensures f < |c.rawRadiotap| && c.rawRadiotap[f] & FlagFcsAtEnd != 0 ==> r == Ok(DropFcs(c.rawDot11))
    ensures f < |c.rawRadiotap| && c.rawRadiotap[f] & FlagFcsAtEnd == 0 ==> r == Ok(c.rawDot11)
  {
    if f >= |c.rawRadiotap| then Raises(IndexError)
    else if c.rawRadiotap[f] & FlagFcsAtEnd != 0 then Ok(DropFcs(c.rawDot11))
    else Ok(c.rawDot11)
  }

  /** What _strip_fcs returns, with the Flags offset corrected: the frame
      as it is without a Flags field (or once the library split off the FCS
      itself), otherwise the frame with or without its last four octets, or
      IndexError when the Radiotap header is cut short. */
  function StripFcsResult(c: Capture): (r: Result<seq<bv8>>)
    ensures c.rtPresent & FlagsPresent == 0 || c.fcsParsed ==> r == Ok(c.rawDot11)
    ensures r.Raises? ==> r.exc == IndexError
    ensures r.Ok? ==> r.value == c.rawDot11 || r.value == DropFcs(c.rawDot11)
  {
    if c.rtPresent & FlagsPresent == 0 || c.fcsParsed then Ok(c.rawDot11)
    else match PresentEnd(c.rawRadiotap, 8)
      case Raises(e) => Raises(e)
      case Ok(pos) => FcsByFlags(c, FlagsOffset(c.rtPresent, pos))
  }

  /** _strip_fcs exactly as written at lines 372-387, with the TSFT step of
      lines 380-382. It has the same shape of result as the corrected one. */
  function StripFcsAsWritten(c: Capture): (r: Result<seq<bv8>>)
    ensures c.rtPresent & FlagsPresent == 0 || c.fcsParsed ==> r == Ok(c.rawDot11)
    ensures r.Raises? ==> r.exc == IndexError
    ensures r.Ok? ==> r.value == c.rawDot11 || r.value == DropFcs(c.rawDot11)
  {
    if c.rtPresent & FlagsPresent == 0 || c.fcsParsed then Ok(c.rawDot11)
    else match PresentEnd(c.rawRadiotap, 8)
      case Raises(e) => Raises(e)
      case Ok(pos) => FcsByFlags(c, FlagsOffsetAsWritten(c.rtPresent, pos))
  }

  /** The two agree on every capture except one whose TSFT field follows
      present words ending on an 8-octet boundary. */
  lemma StripFcsAsWrittenAgrees(c: Capture)
    requires c.rtPresent & TsftPresent == 0
          || PresentEnd(c.rawRadiotap, 8).Raises?
          || PresentEnd(c.rawRadiotap, 8).value % 8 != 0
    ensures StripFcsAsWritten(c) == StripFcsResult(c)
  {
  }

  /** _strip_fcs: without a Flags field the frame is returned as it is;
      with one, exactly the last four octets are removed when its FCS bit is
      set. */
  method StripFcs(c: Capture) returns (r: Result<seq<bv8>>)
    ensures r == StripFcsResult(c)
    ensures c.rtPresent & FlagsPresent == 0 ==> r == Ok(c.rawDot11)
    ensures r.Ok? ==> r.value == c.rawDot11 || r.value == DropFcs(c.rawDot11)
  {
    if c.rtPresent & FlagsPresent != 0 && !c.fcsParsed {
      var end := SkipPresentWords(c.rawRadiotap);
      if end.Raises? {
        return Raises(end.exc);
      }
      var pos := FlagsOffset(c.rtPresent, end.value);
      if pos >= |c.rawRadiotap| {
        return Raises(IndexError);
      }
      if c.rawRadiotap[pos] & FlagFcsAtEnd != 0 {
        return Ok(DropFcs(c.rawDot11));
      }
    }
    return Ok(c.rawDot11);
  }

  /** A capture with one present word announcing TSFT, Flags and Rate
      (it_len 18, Flags octet 0x10 at offset 16) followed by a 28-octet data
      frame to 00:11:00:00:02:01 that ends in its FCS. */
  function TsftCapture(): Capture
  {
    var header: seq<bv8> := [0x00, 0x00, 18, 0x00, 0x07, 0x00, 0x00, 0x00]
                           + [0, 0, 0, 0, 0, 0, 0, 0] + [0x10, 0x02];
    var frame: seq<bv8> := [0x08, 0x00, 0, 0, 0x00, 0x11, 0x00, 0x00, 0x02, 0x01, 0, 0, 0, 0,
                            0, 0, 0, 0, 0, 0, 0, 0, 0, 0, 0xde, 0xad, 0xbe, 0xef];
    Capture(true, false, 0x00, 18, 0x07, header + frame, frame)
  }

  /** On that capture the written offset, 24, lands in the frame's first
      address and the FCS is kept; the Flags octet at 16 asks for it to be
      removed. */
  lemma TsftAlignmentKeepsFcs()
    ensures PresentEnd(TsftCapture().rawRadiotap, 8) == Ok(8)
    ensures FlagsOffsetAsWritten(TsftCapture().rtPresent, 8) == 24
    ensures FlagsOffset(TsftCapture().rtPresent, 8) == 16
    ensures FcsByFlags(TsftCapture(), 24) == Ok(TsftCapture().rawDot11)
    ensures StripFcsResult(TsftCapture()) == Ok(DropFcs(TsftCapture().rawDot11))
    ensures StripFcsResult(TsftCapture()) != Ok(TsftCapture().rawDot11)
    ensures StripFcsAsWritten(TsftCapture()) == Ok(TsftCapture().rawDot11)
  {
    var c := TsftCapture();
    assert c.rawRadiotap[7] == 0x00 && c.rawRadiotap[16] == 0x10 && c.rawRadiotap[24] == 0x00;
    assert |c.rawDot11| == 28;
  }

  class MonitorSocket {
    const detectInjected: bool

    constructor (detectInjected: bool)
      ensures this.detectInjected == detectInjected
    {
      this.detectInjected := detectInjected;
    }

    /** The capture passes recv's three filters: it is 802.11, it is not
        one of this socket's own marked frames, and, unless reflections are
        wanted, its Radiotap header is longer than 13 octets. */
    function Keeps(c: Capture, reflected: bool): (r: bool)
      ensures r ==> c.isDot11
      ensures detectInjected && c.fcField & MoreData != 0 ==> !r
      ensures !reflected && c.rtLen <= 13 ==> !r
      ensures c.isDot11 && c.fcField & MoreData == 0 && c.rtLen > 13 ==> r
      ensures c.isDot11 && !detectInjected && reflected ==> r
    {
      && c.isDot11
      && !(detectInjected && c.fcField & MoreData != 0)
      && (reflected || c.rtLen > 13)
    }

    /** send: with detect_injected the packet itself gets More Data set;
        the frame then goes out behind a default Radiotap header. */
    method Send(p: Packet) returns (sent: Frame)
      modifies p
      ensures p.frame == (if detectInjected then MarkInjected(old(p.frame)) else old(p.frame))
      ensures sent == p.frame
    {
      if detectInjected {
        p.frame := p.frame.(fcField := p.frame.fcField | MoreData);
      }
      sent := p.frame;
    }

    /** recv: None on a timeout and on every dropped capture; otherwise the
        802.11 frame with its FCS removed, where _strip_fcs is taken with the
        corrected Flags offset (StripFcsResult, not StripFcsAsWritten). */
    method Recv(c: Option<Capture>, reflected: bool) returns (r: Result<Option<seq<bv8>>>)
      ensures c.None? ==> r == Ok(None)
      ensures c.Some? && !c.value.isDot11 ==> r == Ok(None)
      ensures c.Some? && detectInjected && c.value.fcField & MoreData != 0 ==> r == Ok(None)
      ensures c.Some? && !reflected && c.value.rtLen <= 13 ==> r == Ok(None)
      ensures c.Some? && Keeps(c.value, reflected) && c.value.fcsParsed ==>
                r == Ok(Some(DropFcs(c.value.rawDot11)))
      ensures c.Some? && Keeps(c.value, reflected) && !c.value.fcsParsed ==>
                match StripFcsResult(c.value)
                case Ok(s) => r == Ok(Some(s))
                case Raises(e) => r == Raises(e)
    {
      if c.None? || !c.value.isDot11 {
        return Ok(None);
      }
      var p := c.value;
      if detectInjected && p.fcField & MoreData != 0 {
        return Ok(None);
      }
      if !reflected && p.rtLen <= 13 {
        return Ok(None);
      }
      if p.fcsParsed {
        return Ok(Some(DropFcs(p.rawDot11)));
      }
      var s := StripFcs(p);
      match s
      case Raises(e) => r := Raises(e);
      case Ok(d) => r := Ok(Some(d));
    }
  }

  /** With detect_injected on, a capture of a frame this socket sent, flags
      intact, never gets through recv. */
  lemma OwnEchoDropped(s: MonitorSocket, f: Frame, c: Capture, reflected: bool)
    requires s.detectInjected && c.fcField == MarkInjected(f).fcField
    ensures !s.Keeps(c, reflected)
  {
  }
}
