/**
 * The packetising loop of `transmit_sstv` as a pure function: the sample byte
 * stream is cut into 256-byte chunks with `range(0, len, 256)` slicing and
 * every chunk, in order, becomes one KISS-framed AX.25 packet.
 */
module Transmit {
  import opened Bytes
  import opened Wrappers
  import Kiss
  import Ax25

  /** Largest payload put into one packet. */
  const AX25_MAX_PAYLOAD: nat := 256

  function Min(a: int, b: int): int { if a <= b then a else b }

  /** Number of values `range(0, n, 256)` produces: the ceiling of n / 256. */
  function ChunkCount(n: nat): nat
  {
    (n + AX25_MAX_PAYLOAD - 1) / AX25_MAX_PAYLOAD
  }

  /** `[data[i:i + 256] for i in range(0, len(data), 256)]`. */
  function Chunks(data: seq<byte>): seq<seq<byte>>
  {
    seq(ChunkCount(|data|), k requires 0 <= k < ChunkCount(|data|) =>
      data[k * AX25_MAX_PAYLOAD .. Min(k * AX25_MAX_PAYLOAD + AX25_MAX_PAYLOAD, |data|)])
  }

  /**
   * There are ceil(len / 256) chunks; each holds between 1 and 256 bytes and
   * all but the last hold exactly 256.
   */
  lemma ChunksShape(data: seq<byte>)
    ensures |Chunks(data)| * AX25_MAX_PAYLOAD >= |data|
    ensures |Chunks(data)| * AX25_MAX_PAYLOAD < |data| + AX25_MAX_PAYLOAD
    ensures forall k :: 0 <= k < |Chunks(data)| ==> 0 < |Chunks(data)[k]| <= AX25_MAX_PAYLOAD
    ensures forall k :: 0 <= k < |Chunks(data)| - 1 ==> |Chunks(data)[k]| == AX25_MAX_PAYLOAD
  {
  }

  /** Chunk `k` is the slice `data[256k : 256k + 256]`, clamped to the end. */
  lemma ChunkAt(data: seq<byte>, k: nat)
    requires k < |Chunks(data)|
    ensures k * AX25_MAX_PAYLOAD < Min(k * AX25_MAX_PAYLOAD + AX25_MAX_PAYLOAD, |data|) <= |data|
    ensures Chunks(data)[k] == data[k * AX25_MAX_PAYLOAD .. Min(k * AX25_MAX_PAYLOAD + AX25_MAX_PAYLOAD, |data|)]
  {
  }

  /** Past the first chunk, the chunks are those of the rest of the stream. */
  lemma ChunksUnfold(data: seq<byte>)
    requires |data| > AX25_MAX_PAYLOAD
    ensures Chunks(data) == [data[..AX25_MAX_PAYLOAD]] + Chunks(data[AX25_MAX_PAYLOAD..])
  {
    var tail := data[AX25_MAX_PAYLOAD..];
    var cs, rest := Chunks(data), Chunks(tail);
    assert |cs| == |rest| + 1;
    forall k | 1 <= k < |cs| ensures cs[k] == rest[k - 1] {
      ChunkAt(data, k);
      ChunkAt(tail, k - 1);
      var a := (k - 1) * AX25_MAX_PAYLOAD;
      var b := Min(a + AX25_MAX_PAYLOAD, |tail|);
      assert k * AX25_MAX_PAYLOAD == a + AX25_MAX_PAYLOAD;
      assert b + AX25_MAX_PAYLOAD == Min(k * AX25_MAX_PAYLOAD + AX25_MAX_PAYLOAD, |data|);
      assert tail[a..b] == data[a + AX25_MAX_PAYLOAD .. b + AX25_MAX_PAYLOAD];
    }
    ChunkAt(data, 0);
  }

  /** Concatenating the chunks gives back the sample stream. */
  lemma {:induction false} ChunksConcatenate(data: seq<byte>)
    ensures Flatten(Chunks(data)) == data
    decreases |data|
  {
    if |data| == 0 {
    } else if |data| <= AX25_MAX_PAYLOAD {
      assert ChunkCount(|data|) == 1;
      assert Chunks(data)[0] == data[0..|data|] == data;
      assert Chunks(data) == [data];
    } else {
      ChunksUnfold(data);
      ChunksConcatenate(data[AX25_MAX_PAYLOAD..]);
      assert data == data[..AX25_MAX_PAYLOAD] + data[AX25_MAX_PAYLOAD..];
    }
  }

  /** Encodes the chunks in order; the first encoding that raises ends the loop with that error. */
  function EncodeAll(encode: seq<byte> -> Result<seq<byte>, Ax25.AddressError>, chunks: seq<seq<byte>>)
    : (r: Result<seq<seq<byte>>, Ax25.AddressError>)
    ensures r.Success? <==> forall k :: 0 <= k < |chunks| ==> encode(chunks[k]).Success?
    ensures r.Success? ==> |r.value| == |chunks|
    ensures r.Success? ==> forall k :: 0 <= k < |chunks| ==> encode(chunks[k]) == Success(r.value[k])
    ensures r.Failure? ==> exists k :: 0 <= k < |chunks| && encode(chunks[k]) == Failure(r.error)
                             && forall j :: 0 <= j < k ==> encode(chunks[j]).Success?
  {
    if |chunks| == 0 then Success([])
    else
      match encode(chunks[0])
      case Failure(e) => Failure(e)
      case Success(p) =>
        match EncodeAll(encode, chunks[1..])
        case Failure(e) =>
          assert exists k :: 0 <= k < |chunks[1..]| && encode(chunks[1..][k]) == Failure(e);
          var k :| 0 <= k < |chunks[1..]| && encode(chunks[1..][k]) == Failure(e);
          assert encode(chunks[k + 1]) == Failure(e);
          assert forall j :: 1 <= j < k + 1 ==> chunks[j] == chunks[1..][j - 1];
          Failure(e)
        case Success(ps) =>
          var r := [p] + ps;
          assert forall k :: 1 <= k < |chunks| ==> chunks[k] == chunks[1..][k - 1] && r[k] == ps[k - 1];
          Success(r)
  }

  /**
   * The packets `transmit_sstv` writes, in order. An empty stream yields no
   * packet, so the callsigns are then never encoded and cannot fail.
   */
  function Packets(source: string, dest: string, data: seq<byte>): (r: Result<seq<seq<byte>>, Ax25.AddressError>)
    ensures r.Success? <==> |data| == 0 || (Ax25.IsAscii(source) && Ax25.IsAscii(dest))
    ensures r.Success? ==> |r.value| == ChunkCount(|data|)
    ensures r.Success? ==> forall k :: 0 <= k < |r.value| ==>
      Ax25.EncodeAx25Packet(source, dest, Chunks(data)[k]) == Success(r.value[k])
    ensures r.Failure? ==> Ax25.EncodeAx25Packet(source, dest, Chunks(data)[0]) == Failure(r.error)
  {
    var r := EncodeAll(p => Ax25.EncodeAx25Packet(source, dest, p), Chunks(data));
    assert |data| > 0 ==>
      (Ax25.EncodeAx25Packet(source, dest, Chunks(data)[0]).Success? <==> Ax25.IsAscii(source) && Ax25.IsAscii(dest));
    r
  }

  /** The same loop with the escaping the KISS protocol prescribes. */
  function PacketsStandard(source: string, dest: string, data: seq<byte>): (r: Result<seq<seq<byte>>, Ax25.AddressError>)
    ensures r.Success? <==> |data| == 0 || (Ax25.IsAscii(source) && Ax25.IsAscii(dest))
    ensures r.Success? ==> |r.value| == ChunkCount(|data|)
    ensures r.Success? ==> forall k :: 0 <= k < |r.value| ==>
      Ax25.EncodeAx25PacketStandard(source, dest, Chunks(data)[k]) == Success(r.value[k])
  {
    var r := EncodeAll(p => Ax25.EncodeAx25PacketStandard(source, dest, p), Chunks(data));
    assert |data| > 0 ==>
      (Ax25.EncodeAx25PacketStandard(source, dest, Chunks(data)[0]).Success? <==> Ax25.IsAscii(source) && Ax25.IsAscii(dest));
    r
  }

  /** What a receiver reassembles: the payloads of the decoded packets, concatenated. */
  function DecodedPayloads(packets: seq<seq<byte>>): Option<seq<byte>>
  {
    if |packets| == 0 then Some([])
    else
      match Ax25.DecodeAx25Packet(packets[0])
      case None => None
      case Some((_, payload)) =>
        match DecodedPayloads(packets[1..])
        case None => None
        case Some(rest) => Some(payload + rest)
  }

  lemma {:induction false} DecodedPayloadsOfChunks(packets: seq<seq<byte>>, chunks: seq<seq<byte>>)
    requires |packets| == |chunks|
    requires forall k :: 0 <= k < |packets| ==>
      Ax25.DecodeAx25Packet(packets[k]).Some? && Ax25.DecodeAx25Packet(packets[k]).value.1 == chunks[k]
    ensures DecodedPayloads(packets) == Some(Flatten(chunks))
  {
    if |packets| > 0 {
      assert forall k :: 0 <= k < |packets| - 1 ==> packets[1..][k] == packets[k + 1] && chunks[1..][k] == chunks[k + 1];
      DecodedPayloadsOfChunks(packets[1..], chunks[1..]);
    }
  }

  /** With the prescribed escaping, a receiver recovers the sample stream exactly. */
  lemma StandardPacketsRecoverSamples(source: string, dest: string, data: seq<byte>)
    requires Ax25.IsAscii(source) && Ax25.IsAscii(dest)
    ensures PacketsStandard(source, dest, data).Success?
    ensures DecodedPayloads(PacketsStandard(source, dest, data).value) == Some(data)
  {
    var ps := PacketsStandard(source, dest, data).value;
    var cs := Chunks(data);
    forall k | 0 <= k < |ps|
      ensures Ax25.DecodeAx25Packet(ps[k]).Some? && Ax25.DecodeAx25Packet(ps[k]).value.1 == cs[k]
    {
      Ax25.PacketRoundTrip(source, dest, cs[k]);
    }
    DecodedPayloadsOfChunks(ps, cs);
    ChunksConcatenate(data);
  }

  /**
   * Without a FEND byte in the samples or a grave accent in the callsigns, the
   * packets as written are the packets the KISS protocol prescribes.
   */
  lemma PacketsAgreeWithoutFend(source: string, dest: string, data: seq<byte>)
    requires Ax25.IsAscii(source) && Ax25.IsAscii(dest)
    requires '`' !in source && '`' !in dest
    requires Kiss.FEND !in data
    ensures Packets(source, dest, data) == PacketsStandard(source, dest, data)
  {
    var pa, pb := Packets(source, dest, data), PacketsStandard(source, dest, data);
    var a, b := pa.value, pb.value;
    var cs := Chunks(data);
    forall k | 0 <= k < |a| ensures a[k] == b[k] {
      var c := cs[k];
      ChunkWithoutFend(data, k);
      Ax25.AsWrittenAgreesWithoutFend(source, dest, c);
      assert Ax25.EncodeAx25Packet(source, dest, c) == Success(a[k]);
      assert Ax25.EncodeAx25PacketStandard(source, dest, c) == Success(b[k]);
    }
    assert a == b;
  }

  lemma ChunkWithoutFend(data: seq<byte>, k: nat)
    requires Kiss.FEND !in data && k < |Chunks(data)|
    ensures Kiss.FEND !in Chunks(data)[k]
  {
    var c := Chunks(data)[k];
    forall i | 0 <= i < |c| ensures c[i] != Kiss.FEND {
      assert c[i] == data[k * AX25_MAX_PAYLOAD + i];
    }
  }
}
