/** The recogniser that the tables define accepts exactly the byte sequences of the RFC 3629 grammar. */
module Utf8Automaton {
  import opened Basics
  import opened Utf8Tables

  /** Running the automaton over a byte sequence. */
  function Run(state: nat, s: seq<byte>): (final: nat)
    requires IsState(state)
    ensures IsState(final)
    decreases |s|
  {
    if s == [] then state
    else
      CategoryByRange(s[0]);
      Run(Transition(state + OctetCategory(s[0])), s[1..])
  }

  // ---- the grammar of section 4 of RFC 3629 ----

  predicate Tail(b: byte)
  {
    0x80 <= b <= 0xBF
  }

  /** UTF8-char: the one- to four-byte forms, without overlong forms, surrogates or values above 0x10FFFF. */
  predicate IsChar(c: seq<byte>)
  {
    match |c|
    case 1 => c[0] <= 0x7F
    case 2 => 0xC2 <= c[0] <= 0xDF && Tail(c[1])
    case 3 =>
      && (|| (c[0] == 0xE0 && 0xA0 <= c[1] <= 0xBF)
          || (0xE1 <= c[0] <= 0xEC && Tail(c[1]))
          || (c[0] == 0xED && 0x80 <= c[1] <= 0x9F)
          || (0xEE <= c[0] <= 0xEF && Tail(c[1])))
      && Tail(c[2])
    case 4 =>
      && (|| (c[0] == 0xF0 && 0x90 <= c[1] <= 0xBF)
          || (0xF1 <= c[0] <= 0xF3 && Tail(c[1]))
          || (c[0] == 0xF4 && 0x80 <= c[1] <= 0x8F))
      && Tail(c[2]) && Tail(c[3])
    case _ => false
  }

  function Flatten<T>(parts: seq<seq<T>>): seq<T>
  {
    if parts == [] then [] else parts[0] + Flatten(parts[1..])
  }

  ghost predicate AllChars(parts: seq<seq<byte>>)
  {
    forall i :: 0 <= i < |parts| ==> IsChar(parts[i])
  }

  /** UTF8-octets: a concatenation of characters. */
  ghost predicate IsUtf8(s: seq<byte>)
  {
    exists parts: seq<seq<byte>> :: AllChars(parts) && Flatten(parts) == s
  }

  // ---- one transition ----

  /** The octets a partial sequence can continue with, by its state. */
  predicate Continues(state: nat, b: byte)
  {
    if state == P3A then 0xA0 <= b <= 0xBF
    else if state == P3B then 0x80 <= b <= 0x9F
    else if state == P4A then 0x90 <= b <= 0xBF
    else if state == P4B then 0x80 <= b <= 0x8F
    else Tail(b)
  }

  /** The state after a continuation octet. */
  function AfterTail(state: nat): nat
  {
    if state == CS1 then BGN else if state == CS3 || state == P4A || state == P4B then CS2 else CS1
  }

  lemma StepFromBegin(b: byte)
    ensures OctetCategory(b) < 12
    ensures Transition(BGN + OctetCategory(b)) == FirstOctet(b).1
  {
    FirstOctetConsistent(b);
  }

  /** A partial sequence goes on through its continuation octets only; every other octet leads to ERR. */
  lemma StepFromPartial(state: nat, b: byte)
    requires IsState(state) && state != BGN
    ensures OctetCategory(b) < 12
    ensures Transition(state + OctetCategory(b)) == if state != ERR && Continues(state, b) then AfterTail(state) else ERR
  {
    CategoryByRange(b);
    TransitionByRow(state, OctetCategory(b));
    hide OctetCategory, Transition, TransitionRow;
    PartialRow(state, OctetCategory(b));
  }

  /** The rows other than BGN, by category. */
  lemma PartialRow(state: nat, category: nat)
    requires IsState(state) && state != BGN && category < 12
    ensures TransitionRow(state)[category] ==
            if state != ERR && (if state == P3A then category == CR3
                                else if state == P3B then category == CR1 || category == CR2
                                else if state == P4A then category == CR2 || category == CR3
                                else if state == P4B then category == CR1
                                else category == CR1 || category == CR2 || category == CR3)
            then AfterTail(state) else ERR
  {
  }

  /** ERR is absorbing. */
  lemma {:induction false} ErrAbsorbs(s: seq<byte>)
    ensures Run(ERR, s) == ERR
  {
    hide OctetCategory, Transition, FirstOctet;
    if s != [] {
      StepFromPartial(ERR, s[0]);
      ErrAbsorbs(s[1..]);
    }
  }

  lemma RunStep(state: nat, s: seq<byte>)
    requires IsState(state) && s != []
    ensures OctetCategory(s[0]) < 12
    ensures Run(state, s) == Run(Transition(state + OctetCategory(s[0])), s[1..])
  {
    hide OctetCategory, Transition, FirstOctet;
    CategoryByRange(s[0]);
  }

  /** The suffixes that bring a partial sequence back to BGN. */
  lemma FromPartial(state: nat, s: seq<byte>)
    requires IsState(state) && state != BGN && state != ERR
    ensures Run(state, s) == BGN <==> s != [] && Continues(state, s[0]) && Run(AfterTail(state), s[1..]) == BGN
  {
    hide OctetCategory, Transition, FirstOctet;
    if s != [] {
      RunStep(state, s);
      StepFromPartial(state, s[0]);
      ErrAbsorbs(s[1..]);
    }
  }

  // ---- characters ----

  /** How many octets a sequence with this first octet has; 0 if it cannot start one. */
  function CharLength(b: byte): nat
  {
    if b < 0x80 then 1 else if b < 0xC2 then 0 else if b < 0xE0 then 2 else if b < 0xF0 then 3
    else if b < 0xF5 then 4 else 0
  }

  predicate TailsFrom(s: seq<byte>, i: nat, n: nat)
  {
    n <= |s| && forall k :: i <= k < n ==> Tail(s[k])
  }

  /** A character is a first octet, a second octet that continues it, and plain tails. */
  lemma CharBySecond(s: seq<byte>)
    requires s != [] && 2 <= CharLength(s[0]) <= |s|
    ensures var n := CharLength(s[0]);
            IsChar(s[..n]) <==> Continues(FirstOctet(s[0]).1, s[1]) && TailsFrom(s, 2, n)
  {
    FirstOctetByRange(s[0]);
    hide FirstOctet;
  }

  lemma FirstState(b: byte)
    ensures var n, q := CharLength(b), FirstOctet(b).1;
            && IsState(q) && (n == 0 <==> q == ERR) && (n == 1 <==> q == BGN) && n <= 4
            && (n > 1 ==> AfterTail(q) == if n == 2 then BGN else if n == 3 then CS1 else CS2)
  {
    FirstOctetByRange(b);
    hide FirstOctet;
  }

  /** From BGN the automaton returns to BGN exactly through one character followed by an accepted rest. */
  lemma FromBegin(s: seq<byte>)
    requires s != []
    ensures Run(BGN, s) == BGN <==>
            var n := CharLength(s[0]);
            0 < n <= |s| && IsChar(s[..n]) && Run(BGN, s[n..]) == BGN
  {
    hide OctetCategory, Transition, FirstOctet;
    var n := CharLength(s[0]);
    FirstState(s[0]);
    RunStep(BGN, s);
    StepFromBegin(s[0]);
    if n == 0 {
      ErrAbsorbs(s[1..]);
    } else if n > 1 {
      FromFirst(s, n);
    }
  }

  lemma FromFirst(s: seq<byte>, n: nat)
    requires s != [] && 2 <= n == CharLength(s[0])
    requires IsState(FirstOctet(s[0]).1)
    ensures Run(FirstOctet(s[0]).1, s[1..]) == BGN <==> n <= |s| && IsChar(s[..n]) && Run(BGN, s[n..]) == BGN
  {
    hide OctetCategory, Transition, FirstOctet, IsChar;
    FirstState(s[0]);
    FromPartial(FirstOctet(s[0]).1, s[1..]);
    FromSecond(s, n);
    if n <= |s| {
      CharBySecond(s);
    }
    assert |s| > 1 ==> s[1..][1..] == s[2..];
  }

  lemma FromSecond(s: seq<byte>, n: nat)
    requires s != [] && 2 <= n <= 4
    ensures |s| > 1 ==>
            (Run(if n == 2 then BGN else if n == 3 then CS1 else CS2, s[2..]) == BGN
             <==> TailsFrom(s, 2, n) && Run(BGN, s[n..]) == BGN)
  {
    hide OctetCategory, Transition, FirstOctet;
    if n > 2 && |s| > 1 {
      FromPartial(if n == 3 then CS1 else CS2, s[2..]);
      if |s| > 2 {
        assert s[2..][1..] == s[3..];
        if n == 4 {
          FromPartial(CS1, s[3..]);
          if |s| > 3 {
            assert s[3..][1..] == s[4..];
          }
        }
      }
    }
  }

  // ---- the language ----

  lemma {:induction false} AcceptsParts(parts: seq<seq<byte>>)
    requires AllChars(parts)
    ensures Run(BGN, Flatten(parts)) == BGN
    decreases |parts|
  {
    if parts != [] {
      assert AllChars(parts[1..]);
      AcceptsParts(parts[1..]);
      var c, s := parts[0], Flatten(parts);
      assert s == c + Flatten(parts[1..]) && IsChar(c);
      assert s[..|c|] == c && s[|c|..] == Flatten(parts[1..]);
      FromBegin(s);
    }
  }

  /** The characters an accepted sequence consists of. */
  lemma {:induction false} PartsOf(s: seq<byte>) returns (parts: seq<seq<byte>>)
    requires Run(BGN, s) == BGN
    ensures AllChars(parts) && Flatten(parts) == s
    decreases |s|
  {
    hide OctetCategory, Transition, FirstOctet, IsChar;
    if s == [] {
      parts := [];
    } else {
      FromBegin(s);
      var n := CharLength(s[0]);
      var rest := PartsOf(s[n..]);
      parts := [s[..n]] + rest;
      assert parts[1..] == rest;
    }
  }

  /** Language equality: from BGN the automaton ends in BGN on exactly the well-formed UTF-8 sequences. */
  lemma AcceptsExactlyUtf8(s: seq<byte>)
    ensures Run(BGN, s) == BGN <==> IsUtf8(s)
  {
    hide OctetCategory, Transition, FirstOctet;
    if Run(BGN, s) == BGN {
      var parts := PartsOf(s);
    }
    if IsUtf8(s) {
      var parts: seq<seq<byte>> :| AllChars(parts) && Flatten(parts) == s;
      AcceptsParts(parts);
    }
  }
}
