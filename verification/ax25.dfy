/**
 * AX.25 UI-frame construction as `encode_ax25_packet` does it: two shifted
 * callsign addresses, control and PID bytes, the payload, and KISS framing of
 * the result.
 */
module Ax25 {
  import opened Bytes
  import opened Wrappers
  import Kiss

  const AX25_CONTROL: byte := 0x03   // UI frame
  const AX25_PID: byte := 0xF0       // no layer-3 protocol
  const SSID_BASE: bv8 := 0x60       // reserved bits set, SSID 0
  const ADDRESS_WIDTH: nat := 6      // callsigns are space-padded to this many characters

  /** `bytes(...)` raises when a shifted character does not fit in a byte. */
  datatype AddressError = NotAByte(c: char)

  /** Python's `str.upper` on one character, for the ASCII range. */
  function Upper(c: char): char
  {
    if 'a' <= c <= 'z' then (c as int - 32) as char else c
  }

  function UpperAll(s: string): string
  {
    seq(|s|, i requires 0 <= i < |s| => Upper(s[i]))
  }

  /** Python's `str.ljust`: pads on the right up to `width`, never truncates. */
  function LJust(s: string, width: nat, fill: char): string
  {
    if |s| >= width then s else s + seq(width - |s|, _ => fill)
  }

  predicate IsAscii(s: string)
  {
    forall i :: 0 <= i < |s| ==> s[i] as int < 128
  }

  function Max(a: nat, b: nat): nat { if a >= b then a else b }

  /**
   * `bytes(ord(c) << 1 for c in s)`: each character shifted left by one bit;
   * the first character whose shifted code point exceeds a byte aborts.
   */
  function ShiftChars(s: string): (r: Result<seq<byte>, AddressError>)
    ensures r.Success? <==> IsAscii(s)
    ensures r.Success? ==> |r.value| == |s|
    ensures r.Success? ==> forall i :: 0 <= i < |s| ==> r.value[i] == 2 * s[i] as int
    ensures r.Failure? ==> r.error.c in s && r.error.c as int >= 128
  {
    if |s| == 0 then Success([])
    else if s[0] as int * 2 >= 256 then Failure(NotAByte(s[0]))
    else
      match ShiftChars(s[1..])
      case Failure(e) => Failure(e)
      case Success(t) =>
        var r := [(s[0] as int * 2) as byte] + t;
        assert forall i :: 1 <= i < |s| ==> r[i] == t[i - 1] && s[i] == s[1..][i - 1];
        Success(r)
  }

  /** SSID byte: `0x60 | (1 if is_last else 0)`. */
  function Ssid(isLast: bool): byte
  {
    (SSID_BASE | (if isLast then 1 else 0)) as int
  }

  /** The callsign upper-cased and space-padded to six characters. */
  function Padded(callsign: string): string
  {
    LJust(UpperAll(callsign), ADDRESS_WIDTH, ' ')
  }

  /** Upper-casing and space padding keep exactly the characters below 128 below 128. */
  lemma PaddedIsAscii(callsign: string)
    ensures |Padded(callsign)| == Max(ADDRESS_WIDTH, |callsign|)
    ensures forall i :: 0 <= i < |callsign| ==> Padded(callsign)[i] == Upper(callsign[i])
    ensures forall i :: |callsign| <= i < |Padded(callsign)| ==> Padded(callsign)[i] == ' '
    ensures IsAscii(Padded(callsign)) <==> IsAscii(callsign)
  {
    var padded := Padded(callsign);
    if IsAscii(callsign) {
      forall i | 0 <= i < |padded| ensures padded[i] as int < 128 {
        if i < |callsign| { assert callsign[i] as int < 128; }
      }
    }
    if IsAscii(padded) {
      forall i | 0 <= i < |callsign| ensures callsign[i] as int < 128 {
        assert padded[i] as int < 128;
      }
    }
  }

  /**
   * `callsign_to_ax25`: upper-case, pad with spaces to six characters, shift
   * each character left by one bit, then append the SSID byte.
   */
  function CallsignToAx25(callsign: string, isLast: bool): (r: Result<seq<byte>, AddressError>)
    ensures r.Success? <==> IsAscii(callsign)
    ensures r.Failure? ==> r.error.c in callsign && r.error.c as int >= 128
    ensures r.Success? ==> |r.value| == Max(ADDRESS_WIDTH, |callsign|) + 1
    ensures r.Success? ==> forall i :: 0 <= i < |callsign| ==> r.value[i] == 2 * Upper(callsign[i]) as int
    ensures r.Success? ==> forall i :: |callsign| <= i < ADDRESS_WIDTH ==> r.value[i] == 2 * ' ' as int
    ensures r.Success? ==> r.value[|r.value| - 1] == (if isLast then 0x61 else 0x60)
    ensures r.Success? ==> (r.value[|r.value| - 1] % 2 == 1 <==> isLast)
  {
    var padded := Padded(callsign);
    PaddedIsAscii(callsign);
    match ShiftChars(padded)
    case Failure(e) =>
      assert e.c in callsign by {
        var i :| 0 <= i < |padded| && padded[i] == e.c;
        assert i < |callsign|;
        assert callsign[i] == e.c;
      }
      Failure(e)
    case Success(addr) => Success(addr + [Ssid(isLast)])
  }

  /** Decodes an address field: characters shifted back, then the last-address bit. */
  function DecodeAddress(addr: seq<byte>): (r: Option<(string, bool)>)
    ensures r.Some? ==> |r.value.0| + 1 == |addr|
  {
    if |addr| == 0 then None
    else if exists i :: 0 <= i < |addr| - 1 && addr[i] % 2 == 1 then None
    else Some((seq(|addr| - 1, i requires 0 <= i < |addr| - 1 => (addr[i] / 2) as char),
               addr[|addr| - 1] % 2 == 1))
  }

  /** Shifting is undone by `DecodeAddress`: it yields the padded upper-case callsign and the last-address flag. */
  lemma AddressRoundTrip(callsign: string, isLast: bool)
    requires IsAscii(callsign)
    ensures CallsignToAx25(callsign, isLast).Success?
    ensures DecodeAddress(CallsignToAx25(callsign, isLast).value) == Some((Padded(callsign), isLast))
  {
    var padded := Padded(callsign);
    PaddedIsAscii(callsign);
    var shifted := ShiftChars(padded).value;
    var addr := CallsignToAx25(callsign, isLast).value;
    assert addr == shifted + [Ssid(isLast)];
    assert forall i :: 0 <= i < |addr| - 1 ==> addr[i] == shifted[i] == 2 * padded[i] as int;
    assert !exists i :: 0 <= i < |addr| - 1 && addr[i] % 2 == 1;
    var chars := seq(|addr| - 1, i requires 0 <= i < |addr| - 1 => (addr[i] / 2) as char);
    assert chars == padded;
  }

  /** The AX.25 UI frame before KISS framing. */
  function UiFrame(destAddr: seq<byte>, srcAddr: seq<byte>, payload: seq<byte>): seq<byte>
  {
    destAddr + srcAddr + [AX25_CONTROL, AX25_PID] + payload
  }

  /** Both addresses of a packet: destination not last, source last. */
  function Addresses(source: string, dest: string): Result<(seq<byte>, seq<byte>), AddressError>
  {
    match CallsignToAx25(dest, false)
    case Failure(e) => Failure(e)
    case Success(destAddr) =>
      match CallsignToAx25(source, true)
      case Failure(e) => Failure(e)
      case Success(srcAddr) => Success((destAddr, srcAddr))
  }

  /**
   * `encode_ax25_packet`: build the UI frame, surround it with FEND 0x00 ... FEND,
   * then escape everything between the type byte and the final FEND with the
   * two `replace` passes. The payload length is not checked.
   */
  function EncodeAx25Packet(source: string, dest: string, payload: seq<byte>): (r: Result<seq<byte>, AddressError>)
    ensures r.Success? <==> IsAscii(source) && IsAscii(dest)
    ensures r.Failure? && !IsAscii(dest) ==> r.error.c in dest
    ensures r.Success? ==>
      var k := r.value;
      && |k| >= 3 && k[..2] == [Kiss.FEND, Kiss.FTYPE_DATA] && k[|k| - 1] == Kiss.FEND
      && Kiss.FEND !in k[2..|k| - 1]
      && Kiss.EscapesFollowedByTfesc(k[2..|k| - 1])
    ensures r.Success? ==>
      r.value == Kiss.Frame(Kiss.EscapeAsWritten(UiFrame(CallsignToAx25(dest, false).value,
                                                         CallsignToAx25(source, true).value,
                                                         payload)))
  {
    match Addresses(source, dest)
    case Failure(e) => Failure(e)
    case Success((destAddr, srcAddr)) =>
      var frame := destAddr + srcAddr + [AX25_CONTROL, AX25_PID] + payload;
      var kiss := [Kiss.FEND, Kiss.FTYPE_DATA] + frame + [Kiss.FEND];
      assert kiss[2..|kiss| - 1] == frame;
      var body := Kiss.EscapeAsWritten(kiss[2..|kiss| - 1]);
      var k := kiss[0..2] + body + kiss[|kiss| - 1..];
      Kiss.EscapeAsWrittenShape(frame);
      assert k[2..|k| - 1] == body;
      Success(k)
  }

  /** The same packet with the escaping the KISS protocol prescribes. */
  function EncodeAx25PacketStandard(source: string, dest: string, payload: seq<byte>): (r: Result<seq<byte>, AddressError>)
    ensures r.Success? <==> IsAscii(source) && IsAscii(dest)
    ensures r.Success? ==> Kiss.Deframe(r.value) == Some(UiFrame(CallsignToAx25(dest, false).value,
                                                                  CallsignToAx25(source, true).value,
                                                                  payload))
  {
    match Addresses(source, dest)
    case Failure(e) => Failure(e)
    case Success((destAddr, srcAddr)) =>
      var frame := UiFrame(destAddr, srcAddr, payload);
      Kiss.DeframeFrame(frame);
      Success(Kiss.Frame(Kiss.Escape(frame)))
  }

  /** Position of the first byte with bit 0 set: the end of the address field. */
  function FirstOdd(s: seq<byte>): (r: Option<nat>)
    ensures r.Some? ==> r.value < |s| && s[r.value] % 2 == 1 && forall i :: 0 <= i < r.value ==> s[i] % 2 == 0
    ensures r.None? ==> forall i :: 0 <= i < |s| ==> s[i] % 2 == 0
  {
    if |s| == 0 then None
    else if s[0] % 2 == 1 then Some(0)
    else match FirstOdd(s[1..])
      case None => None
      case Some(n) => Some(n + 1)
  }

  /** Splits a UI frame into its address field and its payload. */
  function SplitUiFrame(frame: seq<byte>): (r: Option<(seq<byte>, seq<byte>)>)
    ensures r.Some? ==> frame == r.value.0 + [AX25_CONTROL, AX25_PID] + r.value.1
  {
    match FirstOdd(frame)
    case None => None
    case Some(n) =>
      if n + 3 <= |frame| && frame[n + 1] == AX25_CONTROL && frame[n + 2] == AX25_PID
      then
        assert frame == frame[..n + 1] + [AX25_CONTROL, AX25_PID] + frame[n + 3..];
        Some((frame[..n + 1], frame[n + 3..]))
      else None
  }

  /** Receives a KISS-framed UI frame: its address field and its payload. */
  function DecodeAx25Packet(k: seq<byte>): Option<(seq<byte>, seq<byte>)>
  {
    match Kiss.Deframe(k)
    case None => None
    case Some(frame) => SplitUiFrame(frame)
  }

  /** The address field ends at the source SSID byte, the only one with bit 0 set. */
  lemma FirstOddOfFrame(destAddr: seq<byte>, srcAddr: seq<byte>, source: string, dest: string, payload: seq<byte>)
    requires CallsignToAx25(dest, false) == Success(destAddr)
    requires CallsignToAx25(source, true) == Success(srcAddr)
    ensures FirstOdd(UiFrame(destAddr, srcAddr, payload)) == Some(|destAddr| + |srcAddr| - 1)
  {
    var frame := UiFrame(destAddr, srcAddr, payload);
    var n := |destAddr| + |srcAddr| - 1;
    forall i | 0 <= i < n ensures frame[i] % 2 == 0 {
      if i < |destAddr| {
        assert frame[i] == destAddr[i];
      } else {
        assert frame[i] == srcAddr[i - |destAddr|];
      }
    }
    assert frame[n] == srcAddr[|srcAddr| - 1];
  }

  /** A packet built with the prescribed escaping decodes to its addresses and its payload. */
  lemma PacketRoundTrip(source: string, dest: string, payload: seq<byte>)
    requires IsAscii(source) && IsAscii(dest)
    ensures EncodeAx25PacketStandard(source, dest, payload).Success?
    ensures DecodeAx25Packet(EncodeAx25PacketStandard(source, dest, payload).value)
            == Some((CallsignToAx25(dest, false).value + CallsignToAx25(source, true).value, payload))
  {
    var destAddr := CallsignToAx25(dest, false).value;
    var srcAddr := CallsignToAx25(source, true).value;
    var frame := UiFrame(destAddr, srcAddr, payload);
    FirstOddOfFrame(destAddr, srcAddr, source, dest, payload);
    var n := |destAddr| + |srcAddr| - 1;
    assert frame[n + 1] == AX25_CONTROL && frame[n + 2] == AX25_PID;
    assert frame[..n + 1] == destAddr + srcAddr;
    assert frame[n + 3..] == payload;
  }

  /** A shifted address byte equals FEND only for the grave accent, 0x60. */
  lemma {:induction false} AddressHasNoFend(callsign: string, isLast: bool)
    requires IsAscii(callsign) && '`' !in callsign
    ensures Kiss.FEND !in CallsignToAx25(callsign, isLast).value
  {
    var addr := CallsignToAx25(callsign, isLast).value;
    forall i | 0 <= i < |addr| ensures addr[i] != Kiss.FEND {
      if i < |callsign| {
        assert callsign[i] != '`';
        assert Upper(callsign[i]) != '`';
      }
    }
  }

  /** Without FEND in the payload or a grave accent in either callsign, both escapings give the same packet. */
  lemma AsWrittenAgreesWithoutFend(source: string, dest: string, payload: seq<byte>)
    requires IsAscii(source) && IsAscii(dest)
    requires '`' !in source && '`' !in dest
    requires Kiss.FEND !in payload
    ensures EncodeAx25Packet(source, dest, payload) == EncodeAx25PacketStandard(source, dest, payload)
  {
    var destAddr := CallsignToAx25(dest, false).value;
    var srcAddr := CallsignToAx25(source, true).value;
    AddressHasNoFend(dest, false);
    AddressHasNoFend(source, true);
    var frame := UiFrame(destAddr, srcAddr, payload);
    assert Kiss.FEND !in frame;
    Kiss.EscapeAsWrittenWithoutFend(frame);
  }

  /** The address bytes of "CQ" and "N0CALL" (not last), and of "n0call" (last). */
  lemma CallsignExamples()
    ensures CallsignToAx25("CQ", false) == Success([0x86, 0xA2, 0x40, 0x40, 0x40, 0x40, 0x60])
    ensures CallsignToAx25("N0CALL", false).Success?
    ensures CallsignToAx25("N0CALL", false).value[6] == 0x60
    ensures CallsignToAx25("n0call", true) == Success([0x9C, 0x60, 0x86, 0x82, 0x98, 0x98, 0x61])
  {
    CallsignExample("CQ", false, [0x86, 0xA2, 0x40, 0x40, 0x40, 0x40, 0x60]);
    CallsignExample("n0call", true, [0x9C, 0x60, 0x86, 0x82, 0x98, 0x98, 0x61]);
    assert IsAscii("N0CALL");
  }

  lemma CallsignExample(callsign: string, isLast: bool, expected: seq<byte>)
    requires IsAscii(callsign) && |callsign| <= ADDRESS_WIDTH && |expected| == ADDRESS_WIDTH + 1
    requires forall i :: 0 <= i < |callsign| ==> expected[i] == 2 * Upper(callsign[i]) as int
    requires forall i :: |callsign| <= i < ADDRESS_WIDTH ==> expected[i] == 0x40
    requires expected[ADDRESS_WIDTH] == (if isLast then 0x61 else 0x60)
    ensures CallsignToAx25(callsign, isLast) == Success(expected)
  {
    var addr := CallsignToAx25(callsign, isLast).value;
    assert |addr| == |expected|;
    forall i | 0 <= i < |addr| ensures addr[i] == expected[i] {
      if i < |callsign| {
      } else if i < ADDRESS_WIDTH {
        assert addr[i] == 2 * ' ' as int;
      } else {
        assert i == |addr| - 1;
      }
    }
    assert addr == expected;
  }
}
