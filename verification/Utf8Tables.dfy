/** The tables of the UTF-8 recogniser, row by row, and what they say range by range. */
module Utf8Tables {
  import opened Basics

  // ---- octet categories ----

  const ILL: nat := 0
  const ASC: nat := 1
  const CR1: nat := 2
  const CR2: nat := 3
  const CR3: nat := 4
  const L2A: nat := 5
  const L3A: nat := 6
  const L3B: nat := 7
  const L3C: nat := 8
  const L4A: nat := 9
  const L4B: nat := 10
  const L4C: nat := 11

  // ---- states: offsets of rows of the transition table ----

  const BGN: nat := 0
  const ERR: nat := 12
  const CS1: nat := 24
  const CS2: nat := 36
  const CS3: nat := 48
  const P3A: nat := 60
  const P3B: nat := 72
  const P4A: nat := 84
  const P4B: nat := 96

  predicate IsState(s: nat)
  {
    || s == BGN || s == ERR || s == CS1 || s == CS2 || s == CS3
    || s == P3A || s == P3B || s == P4A || s == P4B
  }

  /** Row `hi` of maOctetCategory: the categories of the sixteen octets whose high half is `hi`. */
  function CategoryRow(hi: nat): (row: seq<nat>)
    requires hi < 16
    ensures |row| == 16
  {
    if hi < 8 then [ASC, ASC, ASC, ASC, ASC, ASC, ASC, ASC, ASC, ASC, ASC, ASC, ASC, ASC, ASC, ASC]
    else if hi == 8 then [CR1, CR1, CR1, CR1, CR1, CR1, CR1, CR1, CR1, CR1, CR1, CR1, CR1, CR1, CR1, CR1]
    else if hi == 9 then [CR2, CR2, CR2, CR2, CR2, CR2, CR2, CR2, CR2, CR2, CR2, CR2, CR2, CR2, CR2, CR2]
    else if hi < 12 then [CR3, CR3, CR3, CR3, CR3, CR3, CR3, CR3, CR3, CR3, CR3, CR3, CR3, CR3, CR3, CR3]
    else if hi == 12 then [ILL, ILL, L2A, L2A, L2A, L2A, L2A, L2A, L2A, L2A, L2A, L2A, L2A, L2A, L2A, L2A]
    else if hi == 13 then [L2A, L2A, L2A, L2A, L2A, L2A, L2A, L2A, L2A, L2A, L2A, L2A, L2A, L2A, L2A, L2A]
    else if hi == 14 then [L3A, L3B, L3B, L3B, L3B, L3B, L3B, L3B, L3B, L3B, L3B, L3B, L3B, L3C, L3B, L3B]
    else [L4A, L4B, L4B, L4B, L4C, ILL, ILL, ILL, ILL, ILL, ILL, ILL, ILL, ILL, ILL, ILL]
  }

  function OctetCategory(b: byte): (c: nat)
  {
    CategoryRow(b / 16)[b % 16]
  }

  /** The row of maTransitions at offset `state`. */
  function TransitionRow(state: nat): (row: seq<nat>)
    requires IsState(state)
    ensures |row| == 12
  {
    if state == BGN then [ERR, BGN, ERR, ERR, ERR, CS1, P3A, CS2, P3B, P4A, CS3, P4B]
    else if state == ERR then [ERR, ERR, ERR, ERR, ERR, ERR, ERR, ERR, ERR, ERR, ERR, ERR]
    else if state == CS1 then [ERR, ERR, BGN, BGN, BGN, ERR, ERR, ERR, ERR, ERR, ERR, ERR]
    else if state == CS2 then [ERR, ERR, CS1, CS1, CS1, ERR, ERR, ERR, ERR, ERR, ERR, ERR]
    else if state == CS3 then [ERR, ERR, CS2, CS2, CS2, ERR, ERR, ERR, ERR, ERR, ERR, ERR]
    else if state == P3A then [ERR, ERR, ERR, ERR, CS1, ERR, ERR, ERR, ERR, ERR, ERR, ERR]
    else if state == P3B then [ERR, ERR, CS1, CS1, ERR, ERR, ERR, ERR, ERR, ERR, ERR, ERR]
    else if state == P4A then [ERR, ERR, ERR, CS2, CS2, ERR, ERR, ERR, ERR, ERR, ERR, ERR]
    else [ERR, ERR, CS2, ERR, ERR, ERR, ERR, ERR, ERR, ERR, ERR, ERR]
  }

  /** maTransitions, indexed by state offset plus category. */
  function Transition(index: nat): (s: nat)
    requires index < 108
    ensures IsState(s)
  {
    TransitionRow(index / 12 * 12)[index % 12]
  }

  /** Row `hi` of m_first_octet: payload bits and next state of an octet that starts a sequence. */
  function FirstOctetRow(hi: nat): (row: seq<(nat, nat)>)
    requires hi < 16
    ensures |row| == 16
  {
    if hi < 8 then seq(16, i requires 0 <= i < 16 => (16 * hi + i, BGN))
    else if hi < 12 then seq(16, i requires 0 <= i < 16 => (16 * (hi - 8) + i, ERR))
    else if hi == 12 then
      [(0xC0, ERR), (0xC1, ERR), (0x02, CS1), (0x03, CS1), (0x04, CS1), (0x05, CS1), (0x06, CS1), (0x07, CS1),
       (0x08, CS1), (0x09, CS1), (0x0A, CS1), (0x0B, CS1), (0x0C, CS1), (0x0D, CS1), (0x0E, CS1), (0x0F, CS1)]
    else if hi == 13 then
      [(0x10, CS1), (0x11, CS1), (0x12, CS1), (0x13, CS1), (0x14, CS1), (0x15, CS1), (0x16, CS1), (0x17, CS1),
       (0x18, CS1), (0x19, CS1), (0x1A, CS1), (0x1B, CS1), (0x1C, CS1), (0x1D, CS1), (0x1E, CS1), (0x1F, CS1)]
    else if hi == 14 then
      [(0x00, P3A), (0x01, CS2), (0x02, CS2), (0x03, CS2), (0x04, CS2), (0x05, CS2), (0x06, CS2), (0x07, CS2),
       (0x08, CS2), (0x09, CS2), (0x0A, CS2), (0x0B, CS2), (0x0C, CS2), (0x0D, P3B), (0x0E, CS2), (0x0F, CS2)]
    else
      [(0x00, P4A), (0x01, CS3), (0x02, CS3), (0x03, CS3), (0x04, P4B), (0xF5, ERR), (0xF6, ERR), (0xF7, ERR),
       (0xF8, ERR), (0xF9, ERR), (0xFA, ERR), (0xFB, ERR), (0xFC, ERR), (0xFD, ERR), (0xFE, ERR), (0xFF, ERR)]
  }

  function FirstOctet(b: byte): (nat, nat)
  {
    FirstOctetRow(b / 16)[b % 16]
  }

  /** maFirstOctetMask, indexed by category. */
  const FIRST_OCTET_MASK: seq<nat> := [0xFF, 0x7F, 0x3F, 0x3F, 0x3F, 0x1F, 0x0F, 0x0F, 0x0F, 0x07, 0x07, 0x07]

  // ---- what the tables say ----

  lemma CategoryByRange(b: byte)
    ensures OctetCategory(b) ==
            if b < 0x80 then ASC else if b < 0x90 then CR1 else if b < 0xA0 then CR2 else if b < 0xC0 then CR3
            else if b < 0xC2 then ILL else if b < 0xE0 then L2A
            else if b == 0xE0 then L3A else if b == 0xED then L3C else if b < 0xF0 then L3B
            else if b == 0xF0 then L4A else if b < 0xF4 then L4B else if b == 0xF4 then L4C else ILL
  {
    hide CategoryRow;
    assert b == b / 16 * 16 + b % 16;
    CategoryInRow(b / 16, b % 16);
  }

  /** The categories row by row. */
  lemma CategoryInRow(hi: nat, lo: nat)
    requires hi < 16 && lo < 16
    ensures CategoryRow(hi)[lo] ==
            if hi < 8 then ASC else if hi == 8 then CR1 else if hi == 9 then CR2 else if hi < 12 then CR3
            else if hi == 12 then (if lo < 2 then ILL else L2A)
            else if hi == 13 then L2A
            else if hi == 14 then (if lo == 0 then L3A else if lo == 13 then L3C else L3B)
            else if lo == 0 then L4A else if lo < 4 then L4B else if lo == 4 then L4C else ILL
  {
    hide CategoryRow;
    if hi < 12 || hi == 13 {
      CategoryInUniformRow(hi, lo);
    } else if hi == 12 {
      CategoryInRowC(lo);
    } else if hi == 14 {
      CategoryInRowE(lo);
    } else {
      CategoryInRowF(lo);
    }
  }

  lemma CategoryInUniformRow(hi: nat, lo: nat)
    requires (hi < 12 || hi == 13) && lo < 16
    ensures CategoryRow(hi)[lo] ==
            if hi < 8 then ASC else if hi == 8 then CR1 else if hi == 9 then CR2 else if hi < 12 then CR3 else L2A
  {
  }

  lemma CategoryInRowC(lo: nat)
    requires lo < 16
    ensures CategoryRow(12)[lo] == if lo < 2 then ILL else L2A
  {
  }

  lemma CategoryInRowE(lo: nat)
    requires lo < 16
    ensures CategoryRow(14)[lo] == if lo == 0 then L3A else if lo == 13 then L3C else L3B
  {
  }

  lemma CategoryInRowF(lo: nat)
    requires lo < 16
    ensures CategoryRow(15)[lo] == if lo == 0 then L4A else if lo < 4 then L4B else if lo == 4 then L4C else ILL
  {
  }

  /** The next state for a state and an octet, read off the transition table. */
  lemma TransitionByRow(state: nat, category: nat)
    requires IsState(state) && category < 12
    ensures state + category < 108 && Transition(state + category) == TransitionRow(state)[category]
  {
    assert (state + category) / 12 * 12 == state && (state + category) % 12 == category;
  }

  /**
   The first-octet table agrees with the other three for every octet: its state is the transition out of BGN and its
   payload is the octet masked for its category.
   */
  lemma FirstOctetConsistent(b: byte)
    ensures var c := OctetCategory(b);
            && c < 12
            && FirstOctet(b).1 == Transition(BGN + c)
            && FirstOctet(b).0 == b % (FIRST_OCTET_MASK[c] + 1)
  {
    CategoryByRange(b);
    var c := OctetCategory(b);
    TransitionByRow(BGN, c);
    FirstOctetByRange(b);
    MaskedByRange(b, FIRST_OCTET_MASK[c]);
  }

  lemma MaskedByRange(b: byte, mask: nat)
    requires mask == if b < 0x80 then 0x7F else if b < 0xC0 then 0x3F else if b < 0xC2 then 0xFF
                     else if b < 0xE0 then 0x1F else if b < 0xF0 then 0x0F else if b < 0xF5 then 0x07 else 0xFF
    ensures b % (mask + 1) == if b < 0x80 then b else if b < 0xC0 then b - 0x80 else if b < 0xC2 then b
                              else if b < 0xE0 then b - 0xC0 else if b < 0xF0 then b - 0xE0
                              else if b < 0xF5 then b - 0xF0 else b
  {
  }

  lemma FirstOctetByRange(b: byte)
    ensures FirstOctet(b) ==
            if b < 0x80 then (b, BGN) else if b < 0xC0 then (b - 0x80, ERR) else if b < 0xC2 then (b, ERR)
            else if b < 0xE0 then (b - 0xC0, CS1)
            else if b < 0xF0 then (b - 0xE0, if b == 0xE0 then P3A else if b == 0xED then P3B else CS2)
            else if b < 0xF5 then (b - 0xF0, if b == 0xF0 then P4A else if b == 0xF4 then P4B else CS3)
            else (b, ERR)
  {
    hide FirstOctetRow;
    assert b == b / 16 * 16 + b % 16;
    FirstOctetInRow(b / 16, b % 16);
  }

  lemma FirstOctetInRow(hi: nat, lo: nat)
    requires hi < 16 && lo < 16
    ensures FirstOctetRow(hi)[lo] ==
            if hi < 8 then (16 * hi + lo, BGN) else if hi < 12 then (16 * (hi - 8) + lo, ERR)
            else if hi == 12 then (if lo < 2 then (0xC0 + lo, ERR) else (lo, CS1))
            else if hi == 13 then (0x10 + lo, CS1)
            else if hi == 14 then (lo, if lo == 0 then P3A else if lo == 13 then P3B else CS2)
            else if lo < 5 then (lo, if lo == 0 then P4A else if lo == 4 then P4B else CS3)
            else (0xF0 + lo, ERR)
  {
  }
}
