/**
 * The Martin M1 tone sequence of `MartinM1.gen_image_tuples`: pixel
 * intensities mapped onto 1500..2300 Hz, scanned row by row in the channel
 * order green, blue, red, every scan line followed by a horizontal sync and a
 * 1462 Hz separator.
 */
module MartinM1 {
  import opened Bytes

  const FREQ_BLACK: real := 1500.0
  const FREQ_WHITE: real := 2300.0
  const FREQ_RANGE: real := FREQ_WHITE - FREQ_BLACK
  const FREQ_SEPARATOR: real := 1462.0
  const MSEC_SEPARATOR: real := 0.5
  const MSEC_PIXEL: real := 0.146
  const WIDTH: nat := 320
  const HEIGHT: nat := 256

  /** One constant-frequency segment of the signal. */
  datatype Tone = Tone(freqHz: real, durationMs: real)

  datatype Pixel = Pixel(r: byte, g: byte, b: byte)

  /** The colour channels, in the order each row transmits them. */
  datatype Channel = Green | Blue | Red

  /** A raster indexed `img[y][x]`, as `getpixel((x, y))` reads it. */
  type Raster = seq<seq<Pixel>>

  /** The raster the encoder works on after resizing: 256 rows of 320 pixels. */
  predicate IsFrame(img: Raster)
  {
    |img| == HEIGHT && forall y :: 0 <= y < |img| ==> |img[y]| == WIDTH
  }

  /** `byte_to_freq`: intensity 0..255 mapped linearly onto 1500..2300 Hz. */
  function ByteToFreq(v: byte): (f: real)
    ensures FREQ_BLACK <= f <= FREQ_WHITE
    ensures v == 0 <==> f == FREQ_BLACK
    ensures v == 255 <==> f == FREQ_WHITE
    ensures (f - FREQ_BLACK) * 255.0 / FREQ_RANGE == v as real
  {
    FREQ_BLACK + FREQ_RANGE * (v as real) / 255.0
  }

  /** Brighter pixels map to strictly higher tones. */
  lemma ByteToFreqStrictlyIncreasing(a: byte, b: byte)
    requires a < b
    ensures ByteToFreq(a) < ByteToFreq(b)
  {
    assert (b - a) as real > 0.0;
    assert ByteToFreq(b) - ByteToFreq(a) == FREQ_RANGE * ((b - a) as real) / 255.0;
  }

  function Intensity(p: Pixel, c: Channel): byte
  {
    match c
    case Green => p.g
    case Blue => p.b
    case Red => p.r
  }

  /** The channel of the `i`-th scan line of a row. */
  function ChannelAt(i: nat): Channel
    requires i < 3
  {
    if i == 0 then Green else if i == 1 then Blue else Red
  }

  /** The horizontal sync (supplied by the SSTV base encoder) followed by the separator tone. */
  function Pulse(sync: seq<Tone>): seq<Tone>
  {
    sync + [Tone(FREQ_SEPARATOR, MSEC_SEPARATOR)]
  }

  /** One tone per pixel of row `y`, left to right, for channel `c`. */
  function ScanLine(img: Raster, y: nat, c: Channel): seq<Tone>
    requires IsFrame(img) && y < HEIGHT
  {
    seq(WIDTH, x requires 0 <= x < WIDTH => Tone(ByteToFreq(Intensity(img[y][x], c)), MSEC_PIXEL))
  }

  /** A scan line and the pulse that closes it. */
  function Line(img: Raster, sync: seq<Tone>, y: nat, c: Channel): seq<Tone>
    requires IsFrame(img) && y < HEIGHT
  {
    ScanLine(img, y, c) + Pulse(sync)
  }

  /** Number of tones in one closed scan line. */
  function LineLength(sync: seq<Tone>): nat
  {
    WIDTH + |sync| + 1
  }

  /** The three closed scan lines of row `y`: green, blue, red. */
  function Row(img: Raster, sync: seq<Tone>, y: nat): seq<Tone>
    requires IsFrame(img) && y < HEIGHT
  {
    Line(img, sync, y, Green) + Line(img, sync, y, Blue) + Line(img, sync, y, Red)
  }

  /** The rows `0 .. n-1`, top to bottom. */
  function Rows(img: Raster, sync: seq<Tone>, n: nat): seq<Tone>
    requires IsFrame(img) && n <= HEIGHT
  {
    if n == 0 then [] else Rows(img, sync, n - 1) + Row(img, sync, n - 1)
  }

  /** The full tone sequence of `gen_image_tuples`: a leading pulse, then every row. */
  function ImageTones(img: Raster, sync: seq<Tone>): seq<Tone>
    requires IsFrame(img)
  {
    Pulse(sync) + Rows(img, sync, HEIGHT)
  }

  lemma {:induction false} RowsLength(img: Raster, sync: seq<Tone>, n: nat)
    requires IsFrame(img) && n <= HEIGHT
    ensures |Rows(img, sync, n)| == 3 * n * LineLength(sync)
  {
    if n > 0 {
      RowsLength(img, sync, n - 1);
      var L := LineLength(sync);
      assert 3 * n * L == 3 * (n - 1) * L + 3 * L;
    }
  }

  /**
   * Length of the sequence: 3 * 256 scan lines of 320 pixel tones, and
   * 1 + 3 * 256 = 769 sync/separator pulses.
   */
  lemma ImageTonesLength(img: Raster, sync: seq<Tone>)
    requires IsFrame(img)
    ensures |ImageTones(img, sync)| == 3 * HEIGHT * WIDTH + (3 * HEIGHT + 1) * |Pulse(sync)|
    ensures |ImageTones(img, sync)| == 245760 + 769 * (|sync| + 1)
  {
    RowsLength(img, sync, HEIGHT);
  }

  lemma MulDistributes(a: nat, b: nat, m: nat)
    ensures (a + b) * m == a * m + b * m
  {
  }

  /** Offset of the `i`-th closed scan line within its row. */
  function LineOffset(sync: seq<Tone>, i: nat): nat
    requires i < 3
  {
    if i == 0 then 0 else if i == 1 then LineLength(sync) else 2 * LineLength(sync)
  }

  /** Tone `j` of the `i`-th closed scan line of row `y`. */
  lemma RowIndex(img: Raster, sync: seq<Tone>, y: nat, i: nat, j: nat)
    requires IsFrame(img) && y < HEIGHT && i < 3 && j < LineLength(sync)
    ensures |Row(img, sync, y)| == 3 * LineLength(sync)
    ensures Row(img, sync, y)[LineOffset(sync, i) + j] == Line(img, sync, y, ChannelAt(i))[j]
  {
    var L := LineLength(sync);
    var row := Row(img, sync, y);
    var g, b, r := Line(img, sync, y, Green), Line(img, sync, y, Blue), Line(img, sync, y, Red);
    assert |g| == L && |b| == L && |r| == L;
    if i == 0 {
      assert row[j] == g[j];
    } else if i == 1 {
      assert row[L + j] == b[j];
    } else {
      assert row[2 * L + j] == r[j];
    }
  }

  /** The first `y + 1` rows are a prefix of the first `n` rows. */
  lemma {:induction false} RowsPrefix(img: Raster, sync: seq<Tone>, n: nat, y: nat)
    requires IsFrame(img) && y < n <= HEIGHT
    ensures |Rows(img, sync, y + 1)| <= |Rows(img, sync, n)|
    ensures Rows(img, sync, n)[..|Rows(img, sync, y + 1)|] == Rows(img, sync, y + 1)
  {
    if y + 1 < n {
      RowsPrefix(img, sync, n - 1, y);
      assert Rows(img, sync, n) == Rows(img, sync, n - 1) + Row(img, sync, n - 1);
    }
  }

  /** Tone `j` of the `i`-th closed scan line of row `y`, inside the first `n` rows. */
  lemma RowsIndex(img: Raster, sync: seq<Tone>, n: nat, y: nat, i: nat, j: nat)
    requires IsFrame(img) && n <= HEIGHT
    requires y < n && i < 3 && j < LineLength(sync)
    ensures |Rows(img, sync, y)| + LineOffset(sync, i) + j < |Rows(img, sync, n)|
    ensures Rows(img, sync, n)[|Rows(img, sync, y)| + LineOffset(sync, i) + j]
            == Line(img, sync, y, ChannelAt(i))[j]
  {
    var all, front, row := Rows(img, sync, n), Rows(img, sync, y), Row(img, sync, y);
    RowsPrefix(img, sync, n, y);
    RowIndex(img, sync, y, i, j);
    assert Rows(img, sync, y + 1) == front + row;
    PrefixConcatAt(all, front, row, LineOffset(sync, i) + j);
  }

  /** Where `front + row` is a prefix of `all`, position `k` of `row` sits at `|front| + k` of `all`. */
  lemma PrefixConcatAt<T>(all: seq<T>, front: seq<T>, row: seq<T>, k: nat)
    requires |front| + |row| <= |all| && all[..|front| + |row|] == front + row && k < |row|
    ensures |front| + k < |all| && all[|front| + k] == row[k]
  {
    assert all[..|front| + |row|][|front| + k] == all[|front| + k];
  }

  /** Index of the first tone of closed scan line `k`, where line `3y + i` is channel `i` of row `y`. */
  function LineStart(sync: seq<Tone>, k: nat): nat
  {
    |Pulse(sync)| + k * LineLength(sync)
  }

  /** Line `3y + i` starts after the leading pulse, `y` full rows and `i` lines of row `y`. */
  lemma LineStartInRow(img: Raster, sync: seq<Tone>, y: nat, i: nat)
    requires IsFrame(img) && y <= HEIGHT
    requires i < 3
    ensures LineStart(sync, 3 * y + i) == |Pulse(sync)| + |Rows(img, sync, y)| + LineOffset(sync, i)
  {
    RowsLength(img, sync, y);
    MulDistributes(3 * y, i, LineLength(sync));
  }

  /**
   * Pixel `x` of channel `i` in row `y` is one 0.146 ms tone at the frequency
   * of that channel's intensity, at offset `x` of its scan line.
   */
  lemma PixelToneAt(img: Raster, sync: seq<Tone>, y: nat, i: nat, x: nat)
    requires IsFrame(img) && y < HEIGHT && i < 3 && x < WIDTH
    ensures LineStart(sync, 3 * y + i) + x < |ImageTones(img, sync)|
    ensures ImageTones(img, sync)[LineStart(sync, 3 * y + i) + x]
            == Tone(ByteToFreq(Intensity(img[y][x], ChannelAt(i))), MSEC_PIXEL)
  {
    var P := Pulse(sync);
    var rows := Rows(img, sync, HEIGHT);
    LineStartInRow(img, sync, y, i);
    RowsIndex(img, sync, HEIGHT, y, i, x);
    var idx := |Rows(img, sync, y)| + LineOffset(sync, i) + x;
    assert ImageTones(img, sync) == P + rows;
    assert ImageTones(img, sync)[|P| + idx] == rows[idx];
  }

  /** The sequence opens with the sync tones and the separator. */
  lemma LeadingPulse(img: Raster, sync: seq<Tone>)
    requires IsFrame(img)
    ensures |Pulse(sync)| <= |ImageTones(img, sync)|
    ensures ImageTones(img, sync)[..|Pulse(sync)|] == Pulse(sync)
  {
  }

  /** Scan line `i` of row `y` is closed by exactly the sync tones and the separator. */
  lemma PulseAt(img: Raster, sync: seq<Tone>, y: nat, i: nat)
    requires IsFrame(img) && y < HEIGHT && i < 3
    ensures LineStart(sync, 3 * y + i) + LineLength(sync) <= |ImageTones(img, sync)|
    ensures ImageTones(img, sync)[LineStart(sync, 3 * y + i) + WIDTH .. LineStart(sync, 3 * y + i) + LineLength(sync)]
            == Pulse(sync)
  {
    var P := Pulse(sync);
    var L := LineLength(sync);
    var rows := Rows(img, sync, HEIGHT);
    var tones := ImageTones(img, sync);
    assert tones == P + rows;
    LineStartInRow(img, sync, y, i);
    var start := |Rows(img, sync, y)| + LineOffset(sync, i) + WIDTH;
    RowsIndex(img, sync, HEIGHT, y, i, L - 1);
    forall j | 0 <= j < |P| ensures rows[start + j] == P[j] {
      RowsIndex(img, sync, HEIGHT, y, i, WIDTH + j);
      assert Line(img, sync, y, ChannelAt(i))[WIDTH + j] == P[j];
    }
    assert rows[start .. start + |P|] == P;
    assert tones[|P| + start .. |P| + start + |P|] == rows[start .. start + |P|];
  }

  /** An all-black raster puts every scan-line tone at the black frequency. */
  lemma BlackRasterScansAtBlack(img: Raster, sync: seq<Tone>, y: nat, i: nat, x: nat)
    requires IsFrame(img) && forall row :: row in img ==> forall p :: p in row ==> p == Pixel(0, 0, 0)
    requires y < HEIGHT && i < 3 && x < WIDTH
    ensures LineStart(sync, 3 * y + i) + x < |ImageTones(img, sync)|
    ensures ImageTones(img, sync)[LineStart(sync, 3 * y + i) + x] == Tone(FREQ_BLACK, MSEC_PIXEL)
  {
    PixelToneAt(img, sync, y, i, x);
    assert img[y] in img && img[y][x] in img[y];
  }

  /** Appends one closed scan line to `prefix`, pixel by pixel, as the generator yields it. */
  method EmitLine(img: Raster, sync: seq<Tone>, y: nat, c: Channel, prefix: seq<Tone>) returns (tones: seq<Tone>)
    requires IsFrame(img) && y < HEIGHT
    ensures tones == prefix + Line(img, sync, y, c)
  {
    tones := prefix;
    assert |img[y]| == WIDTH;
    var x := 0;
    while x < WIDTH
      invariant 0 <= x <= WIDTH
      invariant tones == prefix + ScanLine(img, y, c)[..x]
    {
      var p := img[y][x];
      tones := tones + [Tone(ByteToFreq(Intensity(p, c)), MSEC_PIXEL)];
      assert ScanLine(img, y, c)[..x + 1] == ScanLine(img, y, c)[..x] + [ScanLine(img, y, c)[x]];
      x := x + 1;
    }
    assert ScanLine(img, y, c)[..WIDTH] == ScanLine(img, y, c);
    tones := tones + sync + [Tone(FREQ_SEPARATOR, MSEC_SEPARATOR)];
  }

  /** `gen_image_tuples`, loop by loop: it yields exactly the sequence `ImageTones` describes. */
  method GenImageTuples(img: Raster, sync: seq<Tone>) returns (tones: seq<Tone>)
    requires IsFrame(img)
    ensures tones == ImageTones(img, sync)
  {
    tones := sync + [Tone(FREQ_SEPARATOR, MSEC_SEPARATOR)];
    var y := 0;
    while y < HEIGHT
      invariant 0 <= y <= HEIGHT
      invariant tones == Pulse(sync) + Rows(img, sync, y)
    {
      tones := EmitLine(img, sync, y, Green, tones);
      tones := EmitLine(img, sync, y, Blue, tones);
      tones := EmitLine(img, sync, y, Red, tones);
      y := y + 1;
    }
  }
}
