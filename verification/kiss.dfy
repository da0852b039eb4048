/**
 * KISS byte stuffing: the escaping `encode_ax25_packet` applies to the body of
 * every frame, exactly as the program writes it (two whole-buffer `replace`
 * calls), next to the escaping the KISS protocol prescribes together with its
 * inverse.
 */
module Kiss {
  import opened Bytes
  import opened Wrappers

  const FEND: byte := 0xC0         // frame end
  const FESC: byte := 0xDB         // frame escape
  const TFEND: byte := 0xDC        // transposed frame end
  const TFESC: byte := 0xDD        // transposed frame escape
  const FTYPE_DATA: byte := 0x00   // frame type: data on port 0

  /**
   * Python's `bytes.replace` for a one-byte pattern: every occurrence of `b`,
   * scanned left to right, is replaced by `rep`; every other byte is kept.
   */
  function Replace(s: seq<byte>, b: byte, rep: seq<byte>): seq<byte>
  {
    if |s| == 0 then [] else ReplaceOne(s[0], b, rep) + Replace(s[1..], b, rep)
  }

  function ReplaceOne(x: byte, b: byte, rep: seq<byte>): seq<byte>
  {
    if x == b then rep else [x]
  }

  /** The bytes of a replaced buffer: the kept bytes, and the replacement if the pattern occurred. */
  lemma {:induction false} ReplaceMembers(s: seq<byte>, b: byte, rep: seq<byte>, x: byte)
    ensures x in Replace(s, b, rep) <==> (x in s && x != b) || (b in s && x in rep)
  {
    if |s| > 0 {
      ReplaceMembers(s[1..], b, rep, x);
      assert s == [s[0]] + s[1..];
    }
  }

  /** A buffer without the pattern is left unchanged. */
  lemma {:induction false} ReplaceAbsent(s: seq<byte>, b: byte, rep: seq<byte>)
    requires b !in s
    ensures Replace(s, b, rep) == s
  {
    if |s| > 0 {
      assert s == [s[0]] + s[1..];
      ReplaceAbsent(s[1..], b, rep);
    }
  }

  /** Replacing bytes commutes with cutting the buffer in two. */
  lemma {:induction false} ReplaceConcat(s: seq<byte>, t: seq<byte>, b: byte, rep: seq<byte>)
    ensures Replace(s + t, b, rep) == Replace(s, b, rep) + Replace(t, b, rep)
  {
    if |s| == 0 {
      assert s + t == t;
    } else {
      var st := s + t;
      assert st[0] == s[0];
      assert st[1..] == s[1..] + t;
      ReplaceConcat(s[1..], t, b, rep);
    }
  }

  // ---------------------------------------------------------------------------
  // Escaping as the program writes it
  // ---------------------------------------------------------------------------

  /**
   * The body escaping of `encode_ax25_packet`: first every FEND becomes
   * FESC TFEND, then, over the whole result, every FESC becomes FESC TFESC,
   * including the FESC the first pass has just produced.
   */
  function EscapeAsWritten(body: seq<byte>): seq<byte>
  {
    Replace(Replace(body, FEND, [FESC, TFEND]), FESC, [FESC, TFESC])
  }

  /** What one input byte turns into under the two passes. */
  function EscapeByteAsWritten(b: byte): seq<byte>
  {
    if b == FEND then [FESC, TFESC, TFEND]
    else if b == FESC then [FESC, TFESC]
    else [b]
  }

  /** Byte-by-byte reference for the two-pass escaping. */
  function EscapeEachAsWritten(body: seq<byte>): seq<byte>
  {
    if |body| == 0 then [] else EscapeByteAsWritten(body[0]) + EscapeEachAsWritten(body[1..])
  }

  /** The two whole-buffer passes act byte by byte: FEND -> DB DD DC, FESC -> DB DD, others unchanged, in order. */
  lemma {:induction false} EscapeAsWrittenIsBytewise(body: seq<byte>)
    ensures EscapeAsWritten(body) == EscapeEachAsWritten(body)
  {
    if |body| > 0 {
      var h, t := body[0], body[1..];
      assert body == [h] + t;
      ReplaceConcat([h], t, FEND, [FESC, TFEND]);
      var first := Replace([h], FEND, [FESC, TFEND]);
      ReplaceConcat(first, Replace(t, FEND, [FESC, TFEND]), FESC, [FESC, TFESC]);
      if h == FEND {
        assert first == [FESC, TFEND];
        ReplaceConcat([FESC], [TFEND], FESC, [FESC, TFESC]);
        assert [FESC, TFEND] == [FESC] + [TFEND];
      }
      EscapeAsWrittenIsBytewise(t);
    }
  }

  /** Every FESC of the as-written output is followed by TFESC. */
  predicate EscapesFollowedByTfesc(e: seq<byte>)
  {
    forall i :: 0 <= i < |e| && e[i] == FESC ==> i + 1 < |e| && e[i + 1] == TFESC
  }

  lemma {:induction false} EscapeEachAsWrittenShape(body: seq<byte>)
    ensures FEND !in EscapeEachAsWritten(body)
    ensures EscapesFollowedByTfesc(EscapeEachAsWritten(body))
  {
    if |body| > 0 {
      EscapeEachAsWrittenShape(body[1..]);
      var head := EscapeByteAsWritten(body[0]);
      var e := head + EscapeEachAsWritten(body[1..]);
      forall i | 0 <= i < |e| && e[i] == FESC
        ensures i + 1 < |e| && e[i + 1] == TFESC
      {
        if i >= |head| {
          assert e[i] == EscapeEachAsWritten(body[1..])[i - |head|];
        }
      }
    }
  }

  /**
   * Shape of the as-written escaped body: no FEND survives, and every FESC is
   * immediately followed by TFESC (also the FESC that opens the DB DD DC
   * triple produced from a FEND).
   */
  lemma EscapeAsWrittenShape(body: seq<byte>)
    ensures FEND !in EscapeAsWritten(body)
    ensures EscapesFollowedByTfesc(EscapeAsWritten(body))
  {
    EscapeAsWrittenIsBytewise(body);
    EscapeEachAsWrittenShape(body);
  }

  /** The concrete outputs of the two passes on single bytes. */
  lemma EscapeAsWrittenSingles()
    ensures EscapeAsWritten([FEND]) == [FESC, TFESC, TFEND]
    ensures EscapeAsWritten([FESC]) == [FESC, TFESC]
    ensures EscapeAsWritten([FESC, TFEND]) == [FESC, TFESC, TFEND]
    ensures EscapeAsWritten([0xC0, 0x01, 0xDB]) == [0xDB, 0xDD, 0xDC, 0x01, 0xDB, 0xDD]
  {
    EscapeAsWrittenIsBytewise([FEND]);
    EscapeEachCons(FEND, []);
    EscapeAsWrittenIsBytewise([FESC]);
    EscapeEachCons(FESC, []);
    EscapeAsWrittenIsBytewise([FESC, TFEND]);
    EscapeEachCons(TFEND, []);
    EscapeEachCons(FESC, [TFEND]);
    EscapeAsWrittenIsBytewise([0xC0, 0x01, 0xDB]);
    EscapeEachCons(0xDB, []);
    EscapeEachCons(0x01, [0xDB]);
    EscapeEachCons(0xC0, [0x01, 0xDB]);
  }

  lemma EscapeEachCons(h: byte, t: seq<byte>)
    ensures EscapeEachAsWritten([h] + t) == EscapeByteAsWritten(h) + EscapeEachAsWritten(t)
  {
    assert ([h] + t)[1..] == t;
  }

  /**
   * The as-written escaping loses information: a lone FEND and the pair
   * FESC TFEND produce the same bytes, so no receiver can tell them apart.
   */
  lemma EscapeAsWrittenNotInjective()
    ensures [FEND] != [FESC, TFEND]
    ensures EscapeAsWritten([FEND]) == EscapeAsWritten([FESC, TFEND])
  {
    EscapeAsWrittenSingles();
  }

  // ---------------------------------------------------------------------------
  // Escaping as the KISS protocol prescribes it
  // ---------------------------------------------------------------------------

  /** KISS transposition of one byte: FEND -> FESC TFEND, FESC -> FESC TFESC. */
  function EscapeByte(b: byte): seq<byte>
  {
    if b == FEND then [FESC, TFEND]
    else if b == FESC then [FESC, TFESC]
    else [b]
  }

  /** KISS escaping of a frame body, byte by byte and in order. */
  function Escape(body: seq<byte>): (e: seq<byte>)
    ensures FEND !in e
    ensures |e| >= |body|
  {
    if |body| == 0 then [] else EscapeByte(body[0]) + Escape(body[1..])
  }

  /** Undoes KISS escaping; `None` for a stray FEND or a FESC not followed by TFEND/TFESC. */
  function Unescape(e: seq<byte>): (r: Option<seq<byte>>)
    ensures r.Some? ==> |r.value| <= |e|
  {
    if |e| == 0 then Some([])
    else if e[0] == FEND then None
    else if e[0] == FESC then
      if |e| < 2 then None
      else if e[1] == TFEND then Prepend(FEND, Unescape(e[2..]))
      else if e[1] == TFESC then Prepend(FESC, Unescape(e[2..]))
      else None
    else Prepend(e[0], Unescape(e[1..]))
  }

  function Prepend(b: byte, r: Option<seq<byte>>): Option<seq<byte>>
  {
    match r
    case None => None
    case Some(t) => Some([b] + t)
  }

  /** The prescribed escaping is inverted exactly by `Unescape`. */
  lemma {:induction false} UnescapeEscape(body: seq<byte>)
    ensures Unescape(Escape(body)) == Some(body)
  {
    if |body| > 0 {
      var h, t := body[0], body[1..];
      UnescapeEscape(t);
      var e := Escape(body);
      assert e == EscapeByte(h) + Escape(t);
      if h == FEND || h == FESC {
        assert e[2..] == Escape(t);
      } else {
        assert e[1..] == Escape(t);
      }
      assert body == [h] + t;
    }
  }

  /** Whatever `Unescape` accepts is the escaping of what it returns. */
  lemma {:induction false} EscapeUnescape(e: seq<byte>, body: seq<byte>)
    requires Unescape(e) == Some(body)
    ensures Escape(body) == e
  {
    if |e| > 0 {
      if e[0] == FESC {
        var t := Unescape(e[2..]).value;
        EscapeUnescape(e[2..], t);
        assert body[1..] == t;
        assert e == e[..2] + e[2..];
      } else {
        var t := Unescape(e[1..]).value;
        EscapeUnescape(e[1..], t);
        assert body[1..] == t;
        assert e == [e[0]] + e[1..];
      }
    }
  }

  /** Both directions: `Unescape(e)` yields `body` exactly when `e` is the escaping of `body`. */
  lemma EscapeRoundTrip(e: seq<byte>, body: seq<byte>)
    ensures Unescape(e) == Some(body) <==> Escape(body) == e
  {
    if Unescape(e) == Some(body) {
      EscapeUnescape(e, body);
    }
    if Escape(body) == e {
      UnescapeEscape(body);
    }
  }

  /** Where no FEND occurs, the as-written escaping coincides with the prescribed one. */
  lemma {:induction false} EscapeAsWrittenWithoutFend(body: seq<byte>)
    requires FEND !in body
    ensures EscapeAsWritten(body) == Escape(body)
  {
    EscapeAsWrittenIsBytewise(body);
    EscapeEachAgrees(body);
  }

  lemma {:induction false} EscapeEachAgrees(body: seq<byte>)
    requires FEND !in body
    ensures EscapeEachAsWritten(body) == Escape(body)
  {
    if |body| > 0 {
      assert body[0] in body;
      assert forall x :: x in body[1..] ==> x in body;
      EscapeEachAgrees(body[1..]);
    }
  }

  // ---------------------------------------------------------------------------
  // Delimiting
  // ---------------------------------------------------------------------------

  /** A data frame: FEND, type byte 0x00, the escaped body, FEND. */
  function Frame(escaped: seq<byte>): seq<byte>
  {
    [FEND, FTYPE_DATA] + escaped + [FEND]
  }

  /** Receives one KISS data frame and returns its unescaped body. */
  function Deframe(k: seq<byte>): (r: Option<seq<byte>>)
    ensures r.Some? ==> |k| >= 3 && k[0] == FEND && k[1] == FTYPE_DATA && k[|k| - 1] == FEND
  {
    if |k| >= 3 && k[0] == FEND && k[1] == FTYPE_DATA && k[|k| - 1] == FEND
    then Unescape(k[2..|k| - 1])
    else None
  }

  /** Deframing a frame built with the prescribed escaping returns its body. */
  lemma DeframeFrame(body: seq<byte>)
    ensures Deframe(Frame(Escape(body))) == Some(body)
  {
    var k := Frame(Escape(body));
    assert k[2..|k| - 1] == Escape(body);
    UnescapeEscape(body);
  }
}
