/** Decoding with the tables, encoding scalar values, and the UTF-8 to UTF-16 conversion built from both. */
module Utf8Transcode {
  import opened Basics
  import opened NatMath
  import opened Utf8Tables
  import opened Utf8Automaton

  /** Unicode scalar values. */
  predicate IsScalar(v: nat)
  {
    v < 0xD800 || 0xE000 <= v <= 0x10FFFF
  }

  // ---- get_code_units ----

  /** The one- to four-byte encoding; nothing is written above 0x10FFFF. */
  function Encode8(v: nat): seq<nat>
  {
    if v <= 0x7F then [v]
    else if v <= 0x7FF then [BitOr(0xC0, v / 0x40 % 0x20), BitOr(0x80, v % 0x40)]
    else if v <= 0xFFFF then
      [BitOr(0xE0, v / 0x1000 % 0x10), BitOr(0x80, v / 0x40 % 0x40), BitOr(0x80, v % 0x40)]
    else if v <= 0x10FFFF then
      [BitOr(0xF0, v / 0x40000 % 0x08), BitOr(0x80, v / 0x1000 % 0x40), BitOr(0x80, v / 0x40 % 0x40), BitOr(0x80, v % 0x40)]
    else []
  }

  /** One unit below 0x10000, a surrogate pair above; each unit is cut to 16 bits. */
  function Encode16(v: nat): (units: seq<nat>)
    ensures 1 <= |units| <= 2
  {
    if v < 0x10000 then [v] else [(0xD7C0 + v / 0x400) % 0x10000, (0xDC00 + v % 0x400) % 0x10000]
  }

  lemma SmallPowers()
    ensures Pow(2, 3) == 8 && Pow(2, 4) == 0x10 && Pow(2, 5) == 0x20 && Pow(2, 6) == 0x40
  {
    assert Pow(2, 3) == 8 && Pow(2, 4) == 2 * Pow(2, 3);
    assert Pow(2, 5) == 2 * Pow(2, 4) && Pow(2, 6) == 2 * Pow(2, 5);
  }

  lemma LeadingBits(x: nat, y: nat)
    ensures x < 0x20 ==> BitOr(0xC0, x) == 0xC0 + x
    ensures x < 0x10 ==> BitOr(0xE0, x) == 0xE0 + x
    ensures x < 0x08 ==> BitOr(0xF0, x) == 0xF0 + x
    ensures y < 0x40 ==> BitOr(0x80, y) == 0x80 + y
  {
    hide BitOr, Pow;
    SmallPowers();
    if x < 0x20 {
      BitOrDisjoint(6, 5, x);
    }
    if x < 0x10 {
      BitOrDisjoint(14, 4, x);
    }
    if x < 0x08 {
      BitOrDisjoint(30, 3, x);
    }
    if y < 0x40 {
      BitOrDisjoint(2, 6, y);
    }
  }

  /** The code point of a character: the payload bits of section 3 of RFC 3629. */
  function CodePoint(c: seq<nat>): nat
    requires IsByteSeq(c) && IsChar(c)
  {
    match |c|
    case 1 => c[0]
    case 2 => (c[0] - 0xC0) * 0x40 + (c[1] - 0x80)
    case 3 => ((c[0] - 0xE0) * 0x40 + (c[1] - 0x80)) * 0x40 + (c[2] - 0x80)
    case 4 => (((c[0] - 0xF0) * 0x40 + (c[1] - 0x80)) * 0x40 + (c[2] - 0x80)) * 0x40 + (c[3] - 0x80)
  }

  predicate IsByteSeq(c: seq<nat>)
  {
    forall i :: 0 <= i < |c| ==> c[i] < 256
  }

  /** The six-bit groups of a code point, lowest first. */
  lemma Sextets(v: nat)
    ensures v == v % 0x40 + 0x40 * (v / 0x40)
    ensures v / 0x40 == v / 0x40 % 0x40 + 0x40 * (v / 0x1000)
    ensures v / 0x1000 == v / 0x1000 % 0x40 + 0x40 * (v / 0x40000)
  {
    DivDiv(v, 0x40, 0x40);
    DivDiv(v, 0x1000, 0x40);
  }

  lemma SextetsUnique(v: nat, d0: nat, d1: nat, d2: nat, d3: nat)
    requires d0 < 0x40 && d1 < 0x40 && d2 < 0x40
    requires v == d0 + 0x40 * (d1 + 0x40 * (d2 + 0x40 * d3))
    ensures v % 0x40 == d0 && v / 0x40 % 0x40 == d1 && v / 0x1000 % 0x40 == d2 && v / 0x40000 == d3
    ensures v / 0x40 == d1 + 0x40 * (d2 + 0x40 * d3) && v / 0x1000 == d2 + 0x40 * d3
  {
    DivModUnique(v, 0x40, d1 + 0x40 * (d2 + 0x40 * d3), d0);
    DivModUnique(v, 0x1000, d2 + 0x40 * d3, d0 + 0x40 * d1);
    DivModUnique(v, 0x40000, d3, d0 + 0x40 * d1 + 0x1000 * d2);
  }

  /** The encoding without bit operations. */
  lemma Encode8Sums(v: nat)
    ensures Encode8(v) ==
            if v <= 0x7F then [v]
            else if v <= 0x7FF then [0xC0 + v / 0x40, 0x80 + v % 0x40]
            else if v <= 0xFFFF then [0xE0 + v / 0x1000, 0x80 + v / 0x40 % 0x40, 0x80 + v % 0x40]
            else if v <= 0x10FFFF then
              [0xF0 + v / 0x40000, 0x80 + v / 0x1000 % 0x40, 0x80 + v / 0x40 % 0x40, 0x80 + v % 0x40]
            else []
  {
    hide Encode8;
    if v <= 0x7F || v > 0x10FFFF {
      Encode8Ends(v);
    } else if v <= 0x7FF {
      Encode8Pair(v);
    } else if v <= 0xFFFF {
      Encode8Triple(v);
    } else {
      Encode8Quad(v);
    }
  }

  lemma Encode8Ends(v: nat)
    ensures v <= 0x7F ==> Encode8(v) == [v]
    ensures v > 0x10FFFF ==> Encode8(v) == []
  {
  }

  lemma Encode8Pair(v: nat)
    requires 0x7F < v <= 0x7FF
    ensures Encode8(v) == [0xC0 + v / 0x40, 0x80 + v % 0x40]
  {
    hide BitOr;
    assert v / 0x40 % 0x20 == v / 0x40;
    LeadingBits(v / 0x40, v % 0x40);
  }

  lemma Encode8Triple(v: nat)
    requires 0x7FF < v <= 0xFFFF
    ensures Encode8(v) == [0xE0 + v / 0x1000, 0x80 + v / 0x40 % 0x40, 0x80 + v % 0x40]
  {
    hide BitOr;
    assert v / 0x1000 % 0x10 == v / 0x1000;
    LeadingBits(v / 0x1000, v / 0x40 % 0x40);
    LeadingBits(0, v % 0x40);
  }

  lemma Encode8Quad(v: nat)
    requires 0xFFFF < v <= 0x10FFFF
    ensures Encode8(v) == [0xF0 + v / 0x40000, 0x80 + v / 0x1000 % 0x40, 0x80 + v / 0x40 % 0x40, 0x80 + v % 0x40]
  {
    hide BitOr;
    assert v / 0x40000 % 0x08 == v / 0x40000;
    LeadingBits(v / 0x40000, v / 0x1000 % 0x40);
    LeadingBits(0, v / 0x40 % 0x40);
    LeadingBits(0, v % 0x40);
  }

  /** Every scalar value is encoded as one character that stands for it. */
  lemma EncodedIsChar(v: nat)
    requires IsScalar(v)
    ensures IsByteSeq(Encode8(v)) && IsChar(Encode8(v)) && CodePoint(Encode8(v)) == v
  {
    Encode8Sums(v);
    hide Encode8;
    Sextets(v);
  }

  /** Every character is the encoding of a scalar value. */
  lemma CharIsEncoded(c: seq<byte>)
    requires IsChar(c)
    ensures IsScalar(CodePoint(c)) && Encode8(CodePoint(c)) == c
  {
    hide Encode8;
    Encode8Sums(CodePoint(c));
    if |c| == 2 {
      PairIsEncoded(c);
    } else if |c| == 3 {
      TripleIsEncoded(c);
    } else if |c| == 4 {
      QuadIsEncoded(c);
    }
  }

  lemma PairIsEncoded(c: seq<byte>)
    requires IsChar(c) && |c| == 2
    ensures var v := CodePoint(c);
            0x7F < v <= 0x7FF && c == [0xC0 + v / 0x40, 0x80 + v % 0x40]
  {
    SextetsUnique(CodePoint(c), c[1] - 0x80, c[0] - 0xC0, 0, 0);
  }

  lemma TripleIsEncoded(c: seq<byte>)
    requires IsChar(c) && |c| == 3
    ensures var v := CodePoint(c);
            0x7FF < v <= 0xFFFF && IsScalar(v) && c == [0xE0 + v / 0x1000, 0x80 + v / 0x40 % 0x40, 0x80 + v % 0x40]
  {
    SextetsUnique(CodePoint(c), c[2] - 0x80, c[1] - 0x80, c[0] - 0xE0, 0);
  }

  lemma QuadIsEncoded(c: seq<byte>)
    requires IsChar(c) && |c| == 4
    ensures var v := CodePoint(c);
            && 0xFFFF < v <= 0x10FFFF
            && c == [0xF0 + v / 0x40000, 0x80 + v / 0x1000 % 0x40, 0x80 + v / 0x40 % 0x40, 0x80 + v % 0x40]
  {
    SextetsUnique(CodePoint(c), c[3] - 0x80, c[2] - 0x80, c[1] - 0x80, c[0] - 0xF0);
  }

  // ---- advance_with_big_table ----

  /** What decoding leaves: the unread octets, the code point collected, and the final state (BGN or ERR). */
  datatype Decoded = Decoded(rest: seq<byte>, cdpt: nat, state: nat)

  /** (cdpt << 6) | (unit & 0x3F) in 32 bits. */
  function ShiftIn(cdpt: nat, unit: byte): nat
  {
    BitOr(cdpt * 0x40 % 0x1_0000_0000, unit % 0x40)
  }

  lemma ShiftInAdds(cdpt: nat, unit: byte)
    requires cdpt < 0x400_0000
    ensures ShiftIn(cdpt, unit) == cdpt * 0x40 + unit % 0x40
  {
    hide BitOr, Pow;
    SmallPowers();
    BitOrDisjoint(cdpt, 6, unit % 0x40);
  }

  /** The decoding loop: running out of octets inside a character is an error. */
  function DecodeLoop(s: seq<byte>, cdpt: nat, curr: nat): (d: Decoded)
    requires IsState(curr)
    ensures |d.rest| <= |s| && IsState(d.state) && d.state <= ERR
    decreases |s|
  {
    if curr <= ERR then Decoded(s, cdpt, curr)
    else if s == [] then Decoded(s, cdpt, ERR)
    else
      CategoryByRange(s[0]);
      DecodeLoop(s[1..], ShiftIn(cdpt, s[0]), Transition(curr + OctetCategory(s[0])))
  }

  function Decode(s: seq<byte>): (d: Decoded)
    requires s != []
    ensures |d.rest| < |s| && IsState(d.state) && d.state <= ERR
  {
    FirstState(s[0]);
    DecodeLoop(s[1..], FirstOctet(s[0]).0, FirstOctet(s[0]).1)
  }

  /** One turn of the loop in a partial state. */
  lemma DecodeTurn(s: seq<byte>, cdpt: nat, curr: nat)
    requires IsState(curr) && curr > ERR && cdpt < 0x400_0000
    ensures DecodeLoop(s, cdpt, curr) ==
            if s == [] then Decoded(s, cdpt, ERR)
            else if Continues(curr, s[0]) then DecodeLoop(s[1..], cdpt * 0x40 + s[0] % 0x40, AfterTail(curr))
            else Decoded(s[1..], ShiftIn(cdpt, s[0]), ERR)
  {
    hide OctetCategory, Transition, FirstOctet;
    if s != [] {
      CategoryByRange(s[0]);
      StepFromPartial(curr, s[0]);
      ShiftInAdds(cdpt, s[0]);
    }
  }

  lemma DecodeOneTail(s: seq<byte>, cdpt: nat)
    requires cdpt < 0x400_0000
    ensures var d := DecodeLoop(s, cdpt, CS1);
            && (d.state == BGN <==> s != [] && Tail(s[0]))
            && (d.state == BGN ==> d.rest == s[1..] && d.cdpt == Append6(cdpt, s[0]))
  {
    hide OctetCategory, Transition, FirstOctet, ShiftIn;
    DecodeTurn(s, cdpt, CS1);
  }

  lemma DecodeTwoTails(s: seq<byte>, cdpt: nat)
    requires cdpt < 0x1_0000
    ensures var d := DecodeLoop(s, cdpt, CS2);
            && (d.state == BGN <==> |s| > 1 && Tail(s[0]) && Tail(s[1]))
            && (d.state == BGN ==> d.rest == s[2..] && d.cdpt == Append6(Append6(cdpt, s[0]), s[1]))
  {
    hide OctetCategory, Transition, FirstOctet, ShiftIn, DecodeLoop;
    DecodeTurn(s, cdpt, CS2);
    if s != [] {
      DecodeOneTail(s[1..], cdpt * 0x40 + s[0] % 0x40);
    }
  }

  /** A code point with six more bits from a tail octet. */
  function Append6(cdpt: nat, b: nat): nat
  {
    cdpt * 0x40 + b % 0x40
  }

  /** Decoding succeeds exactly on a character, consumes it, and yields its code point. */
  lemma DecodesCharacter(s: seq<byte>)
    requires s != []
    ensures var d, n := Decode(s), CharLength(s[0]);
            && (d.state == BGN <==> 0 < n <= |s| && IsChar(s[..n]))
            && (d.state == BGN ==> d.rest == s[n..] && d.cdpt == CodePoint(s[..n]))
  {
    FirstOctetByRange(s[0]);
    FirstState(s[0]);
    hide OctetCategory, Transition, FirstOctet;
    if CharLength(s[0]) > 1 {
      DecodesLong(s);
    }
  }

  lemma DecodesLong(s: seq<byte>)
    requires s != [] && CharLength(s[0]) > 1
    ensures var d, n := Decode(s), CharLength(s[0]);
            && (d.state == BGN <==> n <= |s| && IsChar(s[..n]))
            && (d.state == BGN ==> d.rest == s[n..] && d.cdpt == CodePoint(s[..n]))
  {
    var n := CharLength(s[0]);
    FirstState(s[0]);
    FirstPayload(s[0]);
    hide OctetCategory, Transition, FirstOctet, IsChar, CharLength, Continues, CodePoint, ShiftIn, DecodeLoop, AfterTail,
         Accumulated;
    var p := FirstOctet(s[0]).0;
    DecodeFromPayload(s, n, p, FirstOctet(s[0]).1);
    if n <= |s| {
      CharBySecond(s);
      if IsChar(s[..n]) {
        CodePointAccumulates(s[..n]);
        SamePrefix(s, n, p);
      }
    }
  }

  lemma DecodeFromPayload(s: seq<byte>, n: nat, p: nat, q: nat)
    requires s != [] && 2 <= n <= 4 && p < 0x20 && IsState(q) && q > ERR
    requires AfterTail(q) == if n == 2 then BGN else if n == 3 then CS1 else CS2
    ensures var d := DecodeLoop(s[1..], p, q);
            && (d.state == BGN <==> |s| > 1 && Continues(q, s[1]) && TailsFrom(s, 2, n))
            && (d.state == BGN ==> n <= |s| && d.rest == s[n..] && d.cdpt == Accumulated(s, n, p))
  {
    hide OctetCategory, Transition, FirstOctet, Continues, ShiftIn, DecodeLoop, AfterTail, Accumulated;
    DecodeTurn(s[1..], p, q);
    if |s| > 1 {
      assert s[1..][1..] == s[2..];
      DecodeAfterSecond(s, n, p);
    }
  }

  /** The code point accumulated over the octets 1 to n - 1, starting from the payload p. */
  function Accumulated(s: seq<nat>, n: nat, p: nat): nat
    requires 2 <= n <= |s|
    decreases n
  {
    if n == 2 then Append6(p, s[1]) else Append6(Accumulated(s, n - 1, p), s[n - 1])
  }

  lemma SamePrefix(s: seq<byte>, n: nat, p: nat)
    requires 2 <= n <= |s|
    ensures Accumulated(s[..n], n, p) == Accumulated(s, n, p)
  {
    PrefixAccumulates(s[..n], s, n, p);
  }

  lemma {:induction false} PrefixAccumulates(c: seq<byte>, s: seq<byte>, n: nat, p: nat)
    requires 2 <= n <= |c| <= |s| && (forall i :: 0 <= i < n ==> c[i] == s[i])
    ensures Accumulated(c, n, p) == Accumulated(s, n, p)
    decreases n
  {
    if n > 2 {
      PrefixAccumulates(c, s, n - 1, p);
    }
  }

  /** After the second octet only plain tails remain. */
  lemma DecodeAfterSecond(s: seq<byte>, n: nat, p: nat)
    requires |s| > 1 && 2 <= n <= 4 && p < 0x20
    ensures var d := DecodeLoop(s[2..], Append6(p, s[1]), if n == 2 then BGN else if n == 3 then CS1 else CS2);
            && (d.state == BGN <==> TailsFrom(s, 2, n))
            && (d.state == BGN ==> d.rest == s[n..] && d.cdpt == Accumulated(s, n, p))
  {
    hide OctetCategory, Transition, FirstOctet, ShiftIn;
    if n == 3 {
      DecodeOneTail(s[2..], Append6(p, s[1]));
    } else if n == 4 {
      DecodeTwoTails(s[2..], Append6(p, s[1]));
      if |s| > 3 {
        assert Accumulated(s, 3, p) == Append6(Append6(p, s[1]), s[2]);
      }
    }
  }

  lemma FirstPayload(b: byte)
    ensures var n := CharLength(b);
            n > 1 ==> FirstOctet(b).0 == b - (if n == 2 then 0xC0 else if n == 3 then 0xE0 else 0xF0) < 0x20
  {
    FirstOctetByRange(b);
    hide FirstOctet;
  }

  /** The code point of a longer character, as the loop accumulates it. */
  lemma CodePointAccumulates(c: seq<byte>)
    requires IsChar(c) && |c| > 1
    ensures CodePoint(c) == Accumulated(c, |c|, FirstOctet(c[0]).0)
  {
    FirstPayload(c[0]);
    hide FirstOctet;
    LengthOfChar(c);
    TailPayload(c, 1);
    if |c| > 2 {
      TailPayload(c, 2);
      if |c| > 3 {
        TailPayload(c, 3);
        assert Accumulated(c, 3, FirstOctet(c[0]).0) == Append6(Accumulated(c, 2, FirstOctet(c[0]).0), c[2]);
      }
    }
  }

  lemma TailPayload(c: seq<byte>, i: nat)
    requires IsChar(c) && 0 < i < |c|
    ensures c[i] % 0x40 == c[i] - 0x80
  {
  }

  // ---- sequences of scalar values ----

  predicate AllScalars(vs: seq<nat>)
  {
    forall i :: 0 <= i < |vs| ==> IsScalar(vs[i])
  }

  function Utf8(vs: seq<nat>): seq<nat>
  {
    if vs == [] then [] else Encode8(vs[0]) + Utf8(vs[1..])
  }

  /** The encodings of a text are those of its values, in order. */
  lemma {:induction false} Utf8Joins(a: seq<nat>, b: seq<nat>)
    ensures Utf8(a + b) == Utf8(a) + Utf8(b)
    decreases |a|
  {
    hide Encode8;
    if a == [] {
      assert a + b == b;
    } else {
      Utf8Joins(a[1..], b);
      assert (a + b)[1..] == a[1..] + b;
      assert Encode8(a[0]) + (Utf8(a[1..]) + Utf8(b)) == Encode8(a[0]) + Utf8(a[1..]) + Utf8(b);
    }
  }

  lemma {:induction false} Utf16Joins(a: seq<nat>, b: seq<nat>)
    ensures Utf16(a + b) == Utf16(a) + Utf16(b)
    decreases |a|
  {
    hide Encode16;
    if a == [] {
      assert a + b == b;
    } else {
      Utf16Joins(a[1..], b);
      assert (a + b)[1..] == a[1..] + b;
      assert Encode16(a[0]) + (Utf16(a[1..]) + Utf16(b)) == Encode16(a[0]) + Utf16(a[1..]) + Utf16(b);
    }
  }

  function Utf16(vs: seq<nat>): seq<nat>
  {
    if vs == [] then [] else Encode16(vs[0]) + Utf16(vs[1..])
  }

  /** The units the next octet or character becomes, and what is left; None is the exception. */
  function NextUnits(s: seq<byte>): (u: (Option<seq<nat>>, seq<byte>))
    requires s != []
    ensures |u.1| < |s|
  {
    if s[0] < 0x80 then (Some([s[0] as nat]), s[1..])
    else
      var d := Decode(s);
      (if d.state == ERR then None else Some(Encode16(d.cdpt)), d.rest)
  }

  /** code_cvt_from_utf8_to_utf16: octets below 0x80 are copied, everything else is decoded. */
  function Transcode(s: seq<byte>): (out: Option<seq<nat>>)
    decreases |s|
  {
    if s == [] then Some([])
    else
      var (units, rest) := NextUnits(s);
      if units.None? then None else Prepend(units.value, Transcode(rest))
  }

  function Prepend(written: seq<nat>, rest: Option<seq<nat>>): Option<seq<nat>>
  {
    if rest.None? then None else Some(written + rest.value)
  }

  /** The copying of octets below 0x80 is what the table would have done, so every step decodes one character. */
  lemma NextIsCharacter(s: seq<byte>)
    requires s != []
    ensures var (units, rest) := NextUnits(s);
            var n := CharLength(s[0]);
            && (units.Some? <==> 0 < n <= |s| && IsChar(s[..n]))
            && (units.Some? ==> rest == s[n..] && units.value == Encode16(CodePoint(s[..n])) && |units.value| <= n)
  {
    hide OctetCategory, Transition, FirstOctet, Decode;
    DecodesCharacter(s);
    if s[0] < 0x80 {
      assert s[..1] == [s[0]];
    }
  }

  /** The conversion succeeds exactly on well-formed UTF-8. */
  lemma {:induction false} TranscodesExactlyUtf8(s: seq<byte>)
    ensures Transcode(s).Some? <==> IsUtf8(s)
    decreases |s|
  {
    TranscodesAccepted(s);
    AcceptsExactlyUtf8(s);
  }

  lemma {:induction false} TranscodesAccepted(s: seq<byte>)
    ensures Transcode(s).Some? <==> Run(BGN, s) == BGN
    decreases |s|
  {
    hide OctetCategory, Transition, FirstOctet, IsChar, NextUnits;
    if s != [] {
      NextIsCharacter(s);
      FromBegin(s);
      TranscodesAccepted(NextUnits(s).1);
    }
  }

  /** What is converted is the UTF-8 encoding of some scalar values, and the output is their UTF-16 encoding. */
  lemma {:induction false} TranscodePreservesScalars(s: seq<byte>) returns (vs: seq<nat>)
    requires Transcode(s).Some?
    ensures AllScalars(vs) && s == Utf8(vs) && Transcode(s).value == Utf16(vs)
    decreases |s|
  {
    hide OctetCategory, Transition, FirstOctet, IsChar, NextUnits, Encode8, Encode16, CodePoint;
    if s == [] {
      vs := [];
    } else {
      NextIsCharacter(s);
      var n := CharLength(s[0]);
      var v := CodePoint(s[..n]);
      CharIsEncoded(s[..n]);
      var rest := TranscodePreservesScalars(s[n..]);
      vs := [v] + rest;
      assert vs[1..] == rest;
      assert s == s[..n] + s[n..];
    }
  }

  /** Decoding undoes encoding: the encoding of any scalar values is converted to their UTF-16 encoding. */
  lemma {:induction false} TranscodesEncoded(vs: seq<nat>)
    requires AllScalars(vs)
    ensures IsByteSeq(Utf8(vs)) && Transcode(Utf8(vs)) == Some(Utf16(vs))
    decreases |vs|
  {
    hide OctetCategory, Transition, FirstOctet, NextUnits, Encode8, Encode16, CodePoint;
    if vs != [] {
      TranscodesEncoded(vs[1..]);
      EncodedIsChar(vs[0]);
      var c, s := Encode8(vs[0]), Utf8(vs);
      assert forall i :: 0 <= i < |s| ==> s[i] == if i < |c| then c[i] else Utf8(vs[1..])[i - |c|];
      LengthOfChar(c);
      NextIsCharacter(s);
      assert s[..|c|] == c && s[|c|..] == Utf8(vs[1..]);
    }
  }

  lemma LengthOfChar(c: seq<byte>)
    requires IsChar(c)
    ensures c != [] && CharLength(c[0]) == |c|
  {
  }

  /** UTF-16 units: a value above 0xFFFF becomes a high and a low surrogate from which it can be read back. */
  lemma SurrogatesReadBack(v: nat)
    requires IsScalar(v)
    ensures v < 0x10000 ==> Encode16(v) == [v] && !(0xD800 <= v <= 0xDFFF)
    ensures v >= 0x10000 ==>
              var u := Encode16(v);
              && |u| == 2 && 0xD800 <= u[0] <= 0xDBFF && 0xDC00 <= u[1] <= 0xDFFF
              && v == 0x10000 + (u[0] - 0xD800) * 0x400 + (u[1] - 0xDC00)
  {
  }

  // ---- the loops ----

  /** advance_with_big_table: moves the position past one character and returns its code point and the final state. */
  method AdvanceWithBigTable(src: seq<byte>, start: nat) returns (pos: nat, cdpt: nat, curr: nat)
    requires start < |src|
    ensures start < pos <= |src| && Decoded(src[pos..], cdpt, curr) == Decode(src[start..])
  {
    hide OctetCategory, Transition, FirstOctet, ShiftIn;
    FirstState(src[start]);
    cdpt := FirstOctet(src[start]).0;
    curr := FirstOctet(src[start]).1;
    pos := start + 1;
    while 12 < curr
      invariant start < pos <= |src| && IsState(curr)
      invariant DecodeLoop(src[pos..], cdpt, curr) == Decode(src[start..])
      decreases |src| - pos
    {
      if pos < |src| {
        var unit := src[pos];
        pos := pos + 1;
        CategoryByRange(unit);
        cdpt := ShiftIn(cdpt, unit);
        curr := Transition(curr + OctetCategory(unit));
      } else {
        curr := 12;
        return;
      }
    }
  }

  /** How many octets below 0x80 stand at the front, counting at most n of them. */
  function LeadingAscii(s: seq<byte>, n: nat): (k: nat)
    ensures k <= n && k <= |s|
    ensures forall i :: 0 <= i < k ==> s[i] < 0x80
    ensures k < n && k < |s| ==> s[k] >= 0x80
    decreases n
  {
    if n == 0 || s == [] || s[0] >= 0x80 then 0 else 1 + LeadingAscii(s[1..], n - 1)
  }

  /**
   The SSE step: 16 octets are widened and stored, 16 / unitBytes units at a time for units of 2 or 4 bytes; both
   positions move over the leading ASCII octets only.
   */
  method ConvertAsciiWithSse(src: seq<byte>, p: nat, dst: array<nat>, n: nat, unitBytes: nat)
    returns (q: nat, next: nat)
    requires p + 16 <= |src| && n + 16 <= dst.Length && unitBytes in {2, 4}
    modifies dst
    ensures var k := LeadingAscii(src[p..], 16);
            && q == p + k && next == n + k
            && dst[..next] == old(dst[..n]) + Widened(src[p..q])
  {
    hide LeadingAscii;
    StoreWidened(src, p, dst, n, 16 / unitBytes);
    var incr := LeadingAscii(src[p..], 16);
    q, next := p + incr, n + incr;
    WidenedRun(src, p, incr, dst[..], n);
    assert dst[..next] == dst[..][..next] && dst[..][..n] == dst[..n];
  }

  method StoreWidened(src: seq<byte>, p: nat, dst: array<nat>, n: nat, lanes: nat)
    requires p + 16 <= |src| && n + 16 <= dst.Length && lanes in {4, 8}
    modifies dst
    ensures dst[..n] == old(dst[..n])
    ensures forall i :: n <= i < n + 16 ==> dst[i] == src[p + (i - n)]
  {
    var j := 0;
    while j != 16
      invariant j <= 16 && (j == 0 || j == lanes || j == 2 * lanes || j == 3 * lanes || j == 4 * lanes)
      invariant forall i :: 0 <= i < n ==> dst[i] == old(dst[i])
      invariant forall i :: n <= i < n + j ==> dst[i] == src[p + (i - n)]
      decreases 16 - j
    {
      forall i | n + j <= i < n + j + lanes {
        dst[i] := src[p + (i - n)];
      }
      j := j + lanes;
    }
  }

  lemma WidenedRun(src: seq<byte>, p: nat, k: nat, units: seq<nat>, n: nat)
    requires p + k <= |src| && n + k <= |units|
    requires forall i :: n <= i < n + k ==> units[i] == src[p + (i - n)]
    ensures units[..n + k] == units[..n] + Widened(src[p..p + k])
  {
    assert units[n..n + k] == Widened(src[p..p + k]);
    assert units[..n + k] == units[..n] + units[n..n + k];
  }

  /** Octets as code units. */
  function Widened(s: seq<byte>): (units: seq<nat>)
    ensures |units| == |s| && forall i :: 0 <= i < |s| ==> units[i] == s[i]
  {
    seq(|s|, i requires 0 <= i < |s| => s[i])
  }

  /** Copying a run of ASCII octets is what the scalar loop would do with them one at a time. */
  lemma {:induction false} PrependAscii(written: seq<nat>, s: seq<byte>, k: nat)
    requires k <= |s| && forall i :: 0 <= i < k ==> s[i] < 0x80
    ensures Prepend(written, Transcode(s)) == Prepend(written + Widened(s[..k]), Transcode(s[k..]))
    decreases k
  {
    if k == 0 {
      assert written + Widened(s[..0]) == written && s[0..] == s;
    } else {
      PrependNext(written, s);
      PrependAscii(written + [s[0] as nat], s[1..], k - 1);
      assert s[1..][k - 1..] == s[k..];
      assert written + [s[0] as nat] + Widened(s[1..][..k - 1]) == written + Widened(s[..k]);
    }
  }

  /**
   The conversion into a destination with one unit per source octet; ok is false where the source throws. The first
   loop, in builds with SSE, runs while more than 16 octets remain; the second is the scalar loop.
   */
  method CodeCvtFromUtf8ToUtf16(sse: bool, src: seq<byte>, dst: array<nat>) returns (ok: bool, n: nat)
    requires |src| <= dst.Length
    modifies dst
    ensures ok <==> IsUtf8(src)
    ensures ok ==> n <= dst.Length && Transcode(src) == Some(dst[..n])
  {
    hide OctetCategory, Transition, FirstOctet, Decode, IsUtf8, Encode16, Transcode, Prepend, NextUnits, LeadingAscii,
         Widened;
    TranscodesExactlyUtf8(src);
    var p := 0;
    n := 0;
    ok := true;
    PrependNothing(src);
    assert dst[..0] == [];
    while sse && p + 16 < |src|
      invariant p <= |src| && n <= p
      invariant Transcode(src) == Prepend(dst[..n], Transcode(src[p..]))
      decreases |src| - p
    {
      if src[p] < 0x80 {
        PrependAscii(dst[..n], src[p..], LeadingAscii(src[p..], 16));
        var q, next := ConvertAsciiWithSse(src, p, dst, n, 2);
        assert src[p..q] == src[p..][..q - p] && src[p..][q - p..] == src[q..];
        p, n := q, next;
      } else {
        ok, p, n := ConvertOne(src, p, dst, n);
        if !ok {
          return;
        }
      }
    }
    while p < |src|
      invariant p <= |src| && n <= p
      invariant Transcode(src) == Prepend(dst[..n], Transcode(src[p..]))
      decreases |src| - p
    {
      if src[p] < 0x80 {
        PrependAscii(dst[..n], src[p..], 1);
        p, n := CopyOne(src, p, dst, n);
      } else {
        ok, p, n := ConvertOne(src, p, dst, n);
        if !ok {
          return;
        }
      }
    }
    PrependToNothing(dst[..n], src[p..]);
  }

  method CopyOne(src: seq<byte>, p: nat, dst: array<nat>, n: nat) returns (q: nat, next: nat)
    requires p < |src| && n < dst.Length
    modifies dst
    ensures q == p + 1 && next == n + 1 && src[p..][1..] == src[q..]
    ensures dst[..next] == old(dst[..n]) + Widened(src[p..][..1])
  {
    dst[n] := src[p];
    q, next := p + 1, n + 1;
  }

  /** One character from 0x80 up, through the table. */
  method ConvertOne(src: seq<byte>, p: nat, dst: array<nat>, n: nat) returns (ok: bool, q: nat, next: nat)
    requires p < |src| && src[p] >= 0x80 && n <= p && |src| <= dst.Length
    modifies dst
    ensures p < q <= |src| && (ok ==> n <= next <= q)
    ensures !ok ==> Prepend(old(dst[..n]), Transcode(src[p..])) == None
    ensures ok ==> Prepend(old(dst[..n]), Transcode(src[p..])) == Prepend(dst[..next], Transcode(src[q..]))
  {
    hide OctetCategory, Transition, FirstOctet, Decode, Encode16, Transcode, Prepend, IsChar;
    ghost var s, written := src[p..], dst[..n];
    NextIsCharacter(s);
    PrependNext(written, s);
    var cdpt, state;
    q, cdpt, state := AdvanceWithBigTable(src, p);
    next := n;
    ok := state != 12;
    if ok {
      next := GetCodeUnits(cdpt, dst, n);
    }
  }

  lemma PrependToNothing(written: seq<nat>, s: seq<byte>)
    requires s == []
    ensures Prepend(written, Transcode(s)) == Some(written)
  {
    assert written + [] == written;
  }

  lemma PrependNothing(s: seq<byte>)
    ensures s[0..] == s && Transcode(s) == Prepend([], Transcode(s))
  {
    hide NextUnits;
    if Transcode(s).Some? {
      assert [] + Transcode(s).value == Transcode(s).value;
    }
  }

  lemma PrependNext(written: seq<nat>, s: seq<byte>)
    requires s != []
    ensures var (units, rest) := NextUnits(s);
            Prepend(written, Transcode(s))
            == if units.None? then None else Prepend(written + units.value, Transcode(rest))
  {
    hide NextUnits;
    var (units, rest) := NextUnits(s);
    if units.Some? && Transcode(rest).Some? {
      assert written + (units.value + Transcode(rest).value) == written + units.value + Transcode(rest).value;
    }
  }

  /** get_code_units for 16-bit units: stores one or two units and returns the position behind them. */
  method GetCodeUnits(cdpt: nat, dst: array<nat>, at: nat) returns (next: nat)
    requires at + |Encode16(cdpt)| <= dst.Length
    modifies dst
    ensures next == at + |Encode16(cdpt)|
    ensures dst[..next] == old(dst[..at]) + Encode16(cdpt)
  {
    if cdpt < 0x10000 {
      dst[at] := cdpt;
      next := at + 1;
    } else {
      dst[at] := (0xD7C0 + cdpt / 0x400) % 0x10000;
      dst[at + 1] := (0xDC00 + cdpt % 0x400) % 0x10000;
      next := at + 2;
    }
  }

  // ---- octets of type signed char ----

  /** An octet of type signed char converted to a 16-bit unit. */
  function SignExtended(b: byte): nat
  {
    if b < 0x80 then b else 0xFF00 + b
  }

  function AllSignExtended(s: seq<byte>): (units: seq<nat>)
    ensures |units| == |s| && forall i :: 0 <= i < |s| ==> units[i] == SignExtended(s[i])
  {
    seq(|s|, i requires 0 <= i < |s| => SignExtended(s[i]))
  }

  predicate AllAscii(s: seq<byte>)
  {
    forall i :: 0 <= i < |s| ==> s[i] < 0x80
  }

  /** What the conversion of signed octets delivers. None: it does not return. */
  function SignedOutput(sse: bool, s: seq<byte>): Option<seq<nat>>
  {
    if sse && LeadingAscii(s, |s|) + 16 < |s| then None else Some(AllSignExtended(s))
  }

  lemma {:induction false} LeadingOfRest(s: seq<byte>, k: nat, n: nat)
    requires k <= LeadingAscii(s, |s|)
    ensures LeadingAscii(s, |s|) == k + LeadingAscii(s[k..], |s| - k)
    ensures LeadingAscii(s, n) == if LeadingAscii(s, |s|) <= n then LeadingAscii(s, |s|) else n
    decreases |s|, k
  {
    LeadingCapped(s, n);
    if k == 0 {
      assert s[0..] == s;
    } else {
      LeadingOfRest(s[1..], k - 1, n);
      assert s[1..][k - 1..] == s[k..];
    }
  }

  lemma {:induction false} LeadingCapped(s: seq<byte>, n: nat)
    ensures LeadingAscii(s, n) == if LeadingAscii(s, |s|) <= n then LeadingAscii(s, |s|) else n
    decreases n
  {
    if n != 0 && s != [] && s[0] < 0x80 {
      LeadingCapped(s[1..], n - 1);
    }
  }

  /**
   The conversion where octets are of type signed char: every octet passes the test for ASCII, so the table is never
   used. stuck is true where the first loop reaches an octet from 0x80 up: the step then moves neither position, and the
   loop does not end.
   */
  method CodeCvtFromSignedUtf8(sse: bool, src: seq<byte>, dst: array<nat>) returns (stuck: bool, n: nat)
    requires |src| <= dst.Length
    modifies dst
    ensures stuck <==> SignedOutput(sse, src).None?
    ensures !stuck ==> n <= dst.Length && SignedOutput(sse, src) == Some(dst[..n])
  {
    hide LeadingAscii;
    var p := 0;
    n := 0;
    while sse && p + 16 < |src|
      invariant p <= |src| && n == p && p <= LeadingAscii(src, |src|)
      invariant dst[..n] == AllSignExtended(src[..p])
      decreases |src| - p
    {
      var q, next := ConvertSigned(src, p, dst, n);
      if q == p {
        return true, n;
      }
      p, n := q, next;
    }
    stuck := false;
    n := CopySigned(src, p, dst);
  }

  /** One step of the first loop: it stands still exactly in front of an octet from 0x80 up. */
  method ConvertSigned(src: seq<byte>, p: nat, dst: array<nat>, n: nat) returns (q: nat, next: nat)
    requires p + 16 < |src| && n == p && n + 16 <= dst.Length && p <= LeadingAscii(src, |src|)
    requires dst[..n] == AllSignExtended(src[..p])
    modifies dst
    ensures p <= q == next <= LeadingAscii(src, |src|) && (q == p <==> LeadingAscii(src, |src|) == p)
    ensures q <= |src| && next <= dst.Length && dst[..next] == AllSignExtended(src[..q])
  {
    hide LeadingAscii, AllSignExtended, Widened;
    LeadingOfRest(src, p, 16);
    LeadingCapped(src[p..], 16);
    q, next := ConvertAsciiWithSse(src, p, dst, n, 2);
    SignedRun(src, p, q);
  }

  /** A run of ASCII octets is stored the same way whether it is widened or sign-extended. */
  lemma SignedRun(src: seq<byte>, p: nat, q: nat)
    requires p <= q <= LeadingAscii(src, |src|)
    ensures AllSignExtended(src[..q]) == AllSignExtended(src[..p]) + Widened(src[p..q])
  {
    hide LeadingAscii, AllSignExtended, Widened;
    var joined := AllSignExtended(src[..p]) + Widened(src[p..q]);
    forall i | 0 <= i < q ensures AllSignExtended(src[..q])[i] == joined[i] {
      assert src[..q][i] == src[i];
    }
  }

  /** The scalar loop. */
  method CopySigned(src: seq<byte>, start: nat, dst: array<nat>) returns (n: nat)
    requires start <= |src| <= dst.Length && dst[..start] == AllSignExtended(src[..start])
    modifies dst
    ensures n == |src| && dst[..n] == AllSignExtended(src)
  {
    n := start;
    while n < |src|
      invariant start <= n <= |src|
      invariant dst[..n] == AllSignExtended(src[..n])
    {
      dst[n] := SignExtended(src[n]);
      n := n + 1;
    }
    assert src[..n] == src;
  }

  /** Decoding a longer character shortens the text. */
  lemma UnitsOfChar(c: seq<byte>)
    requires IsChar(c)
    ensures |Encode16(CodePoint(c))| <= |c|
    ensures |c| > 1 ==> |Encode16(CodePoint(c))| < |c|
  {
  }

  lemma {:induction false} TranscodedLength(s: seq<byte>)
    requires Transcode(s).Some?
    ensures |Transcode(s).value| <= |s|
    ensures !AllAscii(s) ==> |Transcode(s).value| < |s|
    decreases |s|
  {
    hide OctetCategory, Transition, FirstOctet, IsChar, NextUnits, Encode16, CodePoint;
    if s != [] {
      NextIsCharacter(s);
      var n := CharLength(s[0]);
      UnitsOfChar(s[..n]);
      TranscodedLength(s[n..]);
      if AllAscii(s[n..]) && n == 1 && s[0] < 0x80 {
        assert forall i :: 0 < i < |s| ==> s[i] == s[n..][i - 1];
      }
    }
  }

  lemma {:induction false} AsciiTranscodes(s: seq<byte>)
    requires AllAscii(s)
    ensures Transcode(s) == Some(Widened(s))
  {
    PrependNothing(s);
    PrependAscii([], s, |s|);
    assert s[..|s|] == s && s[|s|..] == [];
    assert [] + Widened(s) == Widened(s);
    PrependToNothing(Widened(s), s[|s|..]);
  }

  /**
   With octets of type signed char the conversion delivers the UTF-16 encoding of its input if and only if every octet
   is below 0x80, with and without SSE.
   */
  lemma SignedConvertsIff(sse: bool, s: seq<byte>)
    ensures SignedOutput(sse, s).Some? && SignedOutput(sse, s) == Transcode(s) <==> AllAscii(s)
  {
    hide Transcode;
    if AllAscii(s) {
      AsciiTranscodes(s);
      assert AllSignExtended(s) == Widened(s);
    } else if Transcode(s).Some? {
      TranscodedLength(s);
    }
  }

  /** What signed octets give, octet by octet: stuck where an octet from 0x80 up has 16 or more octets behind it. */
  lemma SignedOutputIs(sse: bool, s: seq<byte>)
    ensures SignedOutput(sse, s).None? <==> sse && exists k :: 0 <= k < |s| - 16 && s[k] >= 0x80
    ensures SignedOutput(sse, s).Some? ==>
              var units := SignedOutput(sse, s).value;
              |units| == |s| && forall i :: 0 <= i < |s| ==> units[i] == if s[i] < 0x80 then s[i] else 0xFF00 + s[i] as nat
  {
    hide LeadingAscii;
  }

  /** The first example of section 7 of RFC 3629: "A", U+2262, U+0391, "."; and U+10348 as a surrogate pair. */
  lemma Rfc3629Example()
    ensures Transcode([0x41, 0xE2, 0x89, 0xA2, 0xCE, 0x91, 0x2E]) == Some([0x41, 0x2262, 0x391, 0x2E])
    ensures Transcode([0xF0, 0x90, 0x8D, 0x88]) == Some([0xD800, 0xDF48])
  {
    hide Transcode, Utf8, Utf16, Encode8;
    Encode8Ends(0x41);
    Encode8Triple(0x2262);
    Encode8Pair(0x391);
    Encode8Ends(0x2E);
    Encode8Quad(0x10348);
    TranscodesEncoded([0x41, 0x2262, 0x391, 0x2E]);
    TranscodesEncoded([0x10348]);
    SingleScalar(0x41);
    SingleScalar(0x2262);
    SingleScalar(0x391);
    SingleScalar(0x2E);
    SingleScalar(0x10348);
    JoinFour(0x41, 0x2262, 0x391, 0x2E);
    assert Utf8([0x41, 0x2262, 0x391, 0x2E]) == [0x41, 0xE2, 0x89, 0xA2, 0xCE, 0x91, 0x2E];
    assert Utf16([0x41, 0x2262, 0x391, 0x2E]) == [0x41, 0x2262, 0x391, 0x2E];
  }

  lemma JoinFour(a: nat, b: nat, c: nat, d: nat)
    ensures Utf8([a, b, c, d]) == Utf8([a]) + Utf8([b]) + Utf8([c]) + Utf8([d])
    ensures Utf16([a, b, c, d]) == Utf16([a]) + Utf16([b]) + Utf16([c]) + Utf16([d])
  {
    hide Utf8, Utf16;
    assert [a, b, c, d] == [a] + [b] + [c] + [d];
    Utf8Joins([a] + [b] + [c], [d]);
    Utf8Joins([a] + [b], [c]);
    Utf8Joins([a], [b]);
    Utf16Joins([a] + [b] + [c], [d]);
    Utf16Joins([a] + [b], [c]);
    Utf16Joins([a], [b]);
  }

  /** U+00E9, encoded as C3 A9, becomes FFC3 FFA9; in front of 15 or more octets the loop with SSE does not end. */
  lemma SignedMisconverts(rest: seq<byte>)
    requires |rest| >= 15
    ensures Transcode([0xC3, 0xA9]) == Some([0xE9])
    ensures SignedOutput(false, [0xC3, 0xA9]) == SignedOutput(true, [0xC3, 0xA9]) == Some([0xFFC3, 0xFFA9])
    ensures SignedOutput(true, [0xC3, 0xA9] + rest) == None
  {
    hide Transcode, LeadingAscii, AllSignExtended;
    TranscodesEncoded([0xE9]);
    EncodedE9();
    StartsHigh([0xC3, 0xA9]);
    StartsHigh([0xC3, 0xA9] + rest);
    assert AllSignExtended([0xC3, 0xA9]) == [0xFFC3, 0xFFA9];
  }

  lemma EncodedE9()
    ensures Utf8([0xE9]) == [0xC3, 0xA9] && Utf16([0xE9]) == [0xE9]
  {
    hide Encode8, Utf8, Utf16;
    Encode8Pair(0xE9);
    SingleScalar(0xE9);
  }

  lemma SingleScalar(v: nat)
    ensures Utf8([v]) == Encode8(v) && Utf16([v]) == Encode16(v)
  {
    hide Encode8, Encode16;
    assert [v][1..] == [];
    assert Encode8(v) + [] == Encode8(v) && Encode16(v) + [] == Encode16(v);
  }

  lemma StartsHigh(s: seq<byte>)
    requires s != [] && s[0] >= 0x80
    ensures LeadingAscii(s, |s|) == 0
  {
  }
}
