# Weather SSTV: Martin M1 tone sequence and AX.25/KISS packetising

This project models the pure logic of `application.py`, the weather-image SSTV
service, and proves properties of that model.

- **Tone sequence (`MartinM1`).** `byte_to_freq` maps a pixel intensity 0..255
  linearly onto 1500..2300 Hz. `MartinM1.gen_image_tuples` emits a leading
  horizontal sync and a 1462 Hz / 0.5 ms separator. Then, for each of the 256
  rows, it emits three 320-pixel scan lines in the order green, blue, red. Each
  pixel is one 0.146 ms tone, and every line is closed by another sync and
  separator. The raster is a 256 × 320 grid of RGB byte triples, and
  frequencies are `real`. The horizontal sync comes from the SSTV base encoder,
  so the model takes it as a parameter `sync: seq<Tone>`.
- **Packet encoding (`Ax25`, `Kiss`).** `encode_ax25_packet` builds an AX.25
  UI frame in this order:
  - the destination address, then the source address; each is the callsign
    upper-cased, space-padded to six characters and shifted left one bit,
    followed by an SSID byte `0x60 | is_last`;
  - the control byte `0x03` and the PID byte `0xF0`;
  - the payload.

  The frame is wrapped as `C0 00 … C0`, and everything between the type byte
  and the closing `C0` is escaped by two whole-buffer `replace` calls. The model
  follows this code exactly.
- **Packetising (`Transmit`).** The loop in `transmit_sstv` cuts the sample
  bytes into `data[i:i+256]` slices for `i in range(0, len, 256)` and encodes
  every slice, in order. The model states this as a pure function from bytes
  to a sequence of packets.

The modules follow the program's structure. `Wrappers` and `Bytes` hold the
shared result types, the byte type and sequence flattening.

Behaviour of the code that the model keeps, including where it departs from
the usual description of Martin M1 or KISS:
- A sync/separator pair follows every scan line, not only every row. That gives
  1 + 3·256 = 769 pairs.
- `0xC0` is escaped as `DB DD DC`, not `DB DC` (see Findings).
- `encode_ax25_packet` checks neither the payload length nor the callsign
  length. A callsign longer than six characters gives an address longer than
  seven bytes.
- A callsign whose upper-cased form holds a character at or above code point
  128 makes `bytes(...)` raise. The model returns a `Failure` for it.
- With an empty sample stream the loop body never runs. In that case the
  callsigns are never encoded and no error can occur.

## Model

| member | source | states |
|---|---|---|
| MartinM1.ByteToFreq | application.py:39-41 | The tone lies in [1500, 2300] Hz. Intensity 0 gives exactly 1500 Hz and 255 exactly 2300 Hz (both directions). The intensity is recovered from the frequency as (f − 1500)·255/800. |
| MartinM1.ByteToFreqStrictlyIncreasing | application.py:39-41 | A brighter intensity always gives a strictly higher tone. |
| MartinM1.ImageTonesLength | application.py:64-90 | The sequence holds 3·256·320 pixel tones plus 769 sync/separator pulses, and nothing else. |
| MartinM1.PixelToneAt | application.py:70-88 | Scan line 3y+i (i = 0 green, 1 blue, 2 red) starts at a fixed offset. Its tone x is one 0.146 ms tone at `byte_to_freq` of that channel of pixel (x, y). |
| MartinM1.LeadingPulse | application.py:65-68 | The sequence opens with the sync tones followed by the 1462 Hz / 0.5 ms separator. |
| MartinM1.PulseAt | application.py:75-90 | Each of the 3·256 scan lines is followed by exactly the sync tones and the separator. |
| MartinM1.BlackRasterScansAtBlack | application.py:72-88 | For an all-black raster, every scan-line tone is 1500 Hz for 0.146 ms. |
| MartinM1.EmitLine | application.py:72-76 | The per-pixel loop appends the scan line left to right, then the sync and the separator. |
| MartinM1.GenImageTuples | application.py:64-90 | The generator's nested loops yield exactly the declarative Martin M1 tone sequence. |
| MartinM1.RowsIndex | application.py:70-90 | Inside the first n rows, tone j of scan line i of row y sits after y full rows and i lines of row y. Rows go top to bottom, and green, blue, red within a row. |
| MartinM1.RowsPrefix | application.py:70 | The rows are emitted in increasing y, so the first y+1 rows are a prefix of the first n rows. |
| Kiss.ReplaceMembers | application.py:112 | `bytes.replace` with a one-byte pattern. A byte is in the result iff it is a kept input byte (not the pattern), or it comes from the replacement and the pattern occurred. |
| Kiss.ReplaceAbsent | application.py:112 | A buffer without the pattern byte is returned unchanged. |
| Kiss.ReplaceConcat | application.py:112 | Replacing a one-byte pattern commutes with splitting the buffer. |
| Kiss.EscapeAsWrittenIsBytewise | application.py:112 | The two passes act byte by byte and in order: `C0` becomes `DB DD DC`, `DB` becomes `DB DD`, and every other byte is kept. |
| Kiss.EscapeAsWrittenShape | application.py:110-112 | The escaped body contains no `C0`, and every `DB` in it is immediately followed by `DD`. |
| Kiss.EscapeAsWrittenSingles | application.py:112 | Concrete outputs: `[C0]` gives `DB DD DC`, `[DB]` gives `DB DD`, `[DB DC]` gives `DB DD DC`, and `[C0 01 DB]` gives `DB DD DC 01 DB DD`. |
| Kiss.EscapeAsWrittenNotInjective | application.py:112 | The distinct bodies `[C0]` and `[DB DC]` escape to the same bytes. |
| Kiss.Escape | application.py:111 | The escaping the KISS protocol prescribes, which the comment describes, leaves no `C0` in the body and never shortens it. |
| Kiss.UnescapeEscape | application.py:111-112 | Unescaping the prescribed escaping returns the original body. |
| Kiss.EscapeUnescape | application.py:111-112 | Whatever `Unescape` accepts is exactly the escaping of its result. |
| Kiss.EscapeRoundTrip | application.py:111-112 | `Unescape(e) = body` holds iff `Escape(body) = e` (both directions). |
| Kiss.EscapeAsWrittenWithoutFend | application.py:112 | On bodies without `C0`, the two-pass escaping equals the prescribed one. |
| Kiss.DeframeFrame | application.py:110-112 | Deframing `C0 00 <escaped body> C0` returns the body. |
| Ax25.ShiftChars | application.py:99 | Succeeds iff every character is below 128. On success each byte is twice the character's code. On failure the error names a character of the input at or above 128. |
| Ax25.PaddedIsAscii | application.py:97 | Upper-casing and `ljust(6, ' ')` keep the length at max(6, len). They upper-case each character, pad only with spaces, and keep the ASCII range both ways. |
| Ax25.CallsignToAx25 | application.py:95-102 | Succeeds iff the callsign is ASCII. The address is max(6, len)+1 bytes long. Byte i is upper(c_i)<<1, the padding bytes are `0x40`, and the last byte is `0x60`/`0x61`, with bit 0 set iff `is_last`. |
| Ax25.AddressRoundTrip | application.py:95-102 | Decoding an encoded address gives back the padded upper-case callsign and the last-address flag. |
| Ax25.CallsignExamples | application.py:95-102 | "CQ" (not last) encodes to `86 A2 40 40 40 40 60`. "N0CALL" (not last) has SSID `0x60`. "n0call" (last) is upper-cased and ends in `0x61`. |
| Ax25.EncodeAx25Packet | application.py:92-113 | Succeeds iff both callsigns are ASCII, whatever the payload length. A failure from the destination callsign is reported first. On success the packet is `C0 00` + two-pass escape of (dest ++ src ++ `03 F0` ++ payload) + `C0`, and its body has no `C0` and only `DB DD` escapes. |
| Ax25.EncodeAx25PacketStandard | application.py:104-112 | The same frame with the prescribed escaping. Deframing it gives back the unescaped UI frame. |
| Ax25.PacketRoundTrip | application.py:104-112 | A packet with the prescribed escaping decodes to its address field (dest ++ src) and its exact payload. |
| Ax25.FirstOddOfFrame | application.py:99-107 | In a UI frame, the first byte with bit 0 set is the source SSID byte, so the address field ends there. |
| Ax25.AddressHasNoFend | application.py:99 | An ASCII callsign without a grave accent yields no `C0` address byte. |
| Ax25.AsWrittenAgreesWithoutFend | application.py:105-112 | Without `C0` in the payload and without a grave accent in either callsign, the packet as written equals the packet with the prescribed escaping. |
| Transmit.ChunksShape | application.py:169-171 | There are ceil(len/256) chunks. Each holds 1..256 bytes, and all but the last hold exactly 256. |
| Transmit.ChunksUnfold | application.py:169-171 | After the first 256-byte chunk come the chunks of the remaining bytes. |
| Transmit.ChunksConcatenate | application.py:169-171 | The chunks concatenate back to the sample bytes. |
| Transmit.EncodeAll | application.py:170-172 | Encoding the chunks in order succeeds iff every chunk encodes. Packet k is then the encoding of chunk k. Otherwise the error is that of the first chunk whose encoding fails, and every earlier chunk encoded. |
| Transmit.Packets | application.py:169-172 | The packets come in chunk order, ceil(len/256) of them, packet k encoding chunk k. The only failure is a non-ASCII callsign with a non-empty stream, and its error is the one the first chunk raises. |
| Transmit.PacketsStandard | application.py:169-172 | The same loop with the prescribed escaping, in chunk order. |
| Transmit.DecodedPayloadsOfChunks | application.py:170-172 | If every packet decodes to its chunk, the reassembled payload is the concatenation of the chunks. |
| Transmit.StandardPacketsRecoverSamples | application.py:165-172 | With the prescribed escaping, decoding every packet and concatenating the payloads gives back the sample bytes exactly. |
| Transmit.PacketsAgreeWithoutFend | application.py:169-172 | If the samples contain no `C0` and neither callsign contains a grave accent, the packets as written equal those with the prescribed escaping. |
| Transmit.ChunkWithoutFend | application.py:171 | A chunk of a stream without `C0` contains no `C0`. |

## Findings

| source | as written | input that shows it | evidently intended | confidence | as-written member | corrected member |
|---|---|---|---|---|---|---|
| application.py:112 | The second `replace` runs over the output of the first, so `C0` becomes `DB DD DC`. The body escaping is then not injective. | body `[C0]` and body `[DB DC]` both escape to `DB DD DC` | `C0` → `DB DC` and `DB` → `DB DD`, invertible, as the comment on line 111 and the KISS protocol say | high; not executed | Kiss.EscapeAsWrittenNotInjective | Kiss.EscapeRoundTrip |

The modelled program itself keeps the code's behaviour:
- `Ax25.EncodeAx25Packet` and `Transmit.Packets` use `Kiss.EscapeAsWritten`.

The corrected definition `Kiss.Escape` is what the receiving side of the model uses:
- `Ax25.EncodeAx25PacketStandard`, `Ax25.PacketRoundTrip`, `Transmit.PacketsStandard` and `Transmit.StandardPacketsRecoverSamples` are built on it;
- `Ax25.AsWrittenAgreesWithoutFend` and `Transmit.PacketsAgreeWithoutFend` show that the two coincide whenever no `C0` byte is framed.

## Left out

- `download_image` and its retry loop are left out. They are HTTP, temporary-file and image-decoding I/O.
- The PIL `convert('RGB').resize((320, 256))` step is a foreign library. The model assumes the raster already is 256 rows of 320 RGB pixels (`MartinM1.IsFrame`).
- `horizontal_sync` belongs to the unseen SSTV base class. It is the parameter `sync`.
- The VIS header, FSK identification, VOX tones, `gen_samples` and the phase-continuous sine synthesis are left out. They live in the unseen SSTV library and are floating-point numerics.
- `encode_sstv_image` is left out because it only chains the above.
- `samples.tobytes()` is numpy's native-endian serialisation. The sample stream is an opaque `seq<byte>`.
- The serial port writes, `flush` and the 20 ms `time.sleep` pacing are left out as I/O and timing. So are logging, `argparse`, `main` and the `sstv_service` loop.
- MartinM1.ByteToFreq: frequencies and durations are exact reals, not IEEE doubles, so floating-point rounding of `800 * value / 255` is not modelled.
- Ax25.CallsignToAx25: Python's `str.upper` is modelled only on ASCII (a..z to A..Z). Non-ASCII characters are kept as they are and then rejected. The ten non-ASCII characters that Python upper-cases into ASCII would be accepted by the program but are reported as failures here: U+00DF ß (to "SS"), U+0131 dotless i (to "I"), U+017F long s (to "S"), and the ligatures U+FB00–U+FB06 ﬀ ﬁ ﬂ ﬃ ﬄ ﬅ ﬆ (to "FF", "FI", "FL", "FFI", "FFL", "ST", "ST").
- Transmit.Packets: when the callsigns are rejected, the program raises on the first packet before writing anything. The model returns the error without packets, which is the same outcome.
