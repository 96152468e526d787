/**
 * The per-sample status word.  Bytes, lowest first:
 *   byte 0 (bits  0- 7): gathered rejection, the usable/unusable decision per channel
 *   byte 1 (bits  8-15): rejection by the automatic filters, per channel
 *   byte 2 (bits 16-23): rejection transferred from a critical channel
 *   byte 3 (bits 24-31): manual mask
 * The column holding the word is an unbounded integer in the program; every
 * value it can take fits into 64 bits (the widest one, set at load time, uses 48).
 */
module FlagWord {

  type Word = bv64

  /** Number of frequency channels of a data file. */
  const CHANNELS: nat := 4

  const MASK_BITS: Word := 0xFF00_0000
  const TRANSFER_BITS: Word := 0x00FF_0000

  function Gathered(f: Word): Word { f & 0xFF }
  function Filtered(f: Word): Word { (f >> 8) & 0xFF }
  function Transferred(f: Word): Word { (f >> 16) & 0xFF }
  function Masked(f: Word): Word { (f >> 24) & 0xFF }
  /** Bits above the 32-bit layout. */
  function High(f: Word): Word { f >> 32 }

  /**
   * Bit of channel c within a byte, the program's `1 << c`.  Spelled out per
   * channel because a shift by a symbolic amount is costly for the solver.
   */
  function ChannelBit(c: nat): (b: Word)
    requires c < CHANNELS
    ensures b != 0 && b & 0xF == b
  {
    if c == 0 then 1 else if c == 1 then 2 else if c == 2 then 4 else 8
  }

  /** Filter-rejection bit (byte 1) of channel c. */
  function FilterBit(c: nat): (b: Word)
    requires c < CHANNELS
    ensures Filtered(b) == ChannelBit(c) && Gathered(b) == 0
    ensures Transferred(b) == 0 && Masked(b) == 0 && High(b) == 0
  {
    if c == 0 then 0x100 else if c == 1 then 0x200 else if c == 2 then 0x400 else 0x800
  }

  /** Transfer-rejection bit (byte 2) of channel c, the program's `(1 << c) << 16`. */
  function TransferBit(c: nat): (b: Word)
    requires c < CHANNELS
    ensures Transferred(b) == ChannelBit(c) && Gathered(b) == 0
    ensures Filtered(b) == 0 && Masked(b) == 0 && High(b) == 0
  {
    if c == 0 then 0x1_0000 else if c == 1 then 0x2_0000 else if c == 2 then 0x4_0000 else 0x8_0000
  }

  /** Manual-mask bit (byte 3) of channel c, the program's `(1 << c) << 24`. */
  function MaskBit(c: nat): (b: Word)
    requires c < CHANNELS
    ensures Masked(b) == ChannelBit(c) && Gathered(b) == 0
    ensures Filtered(b) == 0 && Transferred(b) == 0 && High(b) == 0
  {
    if c == 0 then 0x0100_0000 else if c == 1 then 0x0200_0000 else if c == 2 then 0x0400_0000 else 0x0800_0000
  }

  /**
   * The program's `m & 0xFF` on an integer: the low eight bits of its
   * two's-complement form.  Bit j is the parity of m divided (rounding down)
   * by 2^j, so negative values keep their low bits too.
   */
  function LowByte(m: int): (b: Word)
    ensures b & 0xFF == b
  {
    (if m % 2 == 1 then 0x01 else 0) | (if (m / 2) % 2 == 1 then 0x02 else 0)
    | (if (m / 4) % 2 == 1 then 0x04 else 0) | (if (m / 8) % 2 == 1 then 0x08 else 0)
    | (if (m / 16) % 2 == 1 then 0x10 else 0) | (if (m / 32) % 2 == 1 then 0x20 else 0)
    | (if (m / 64) % 2 == 1 then 0x40 else 0) | (if (m / 128) % 2 == 1 then 0x80 else 0)
  }

  /** Higher bits are dropped; negative values keep their two's-complement low bits. */
  lemma LowByteExamples()
    ensures LowByte(0x1FF) == 0xFF && LowByte(-1) == 0xFF
  {
  }

  predicate Has(f: Word, bits: Word) { f & bits != 0 }

  /** f with `bits` OR-ed in; named so that quantified facts about rows stay cheap. */
  function SetBits(f: Word, bits: Word): Word { f | bits }

  /** OR-ing in two sets of bits gives the same word in either order. */
  lemma OrCommute(w: Word, x: Word, y: Word)
    ensures (w | x) | y == (w | y) | x
  {
  }

  /** OR-ing in the same bits twice changes nothing the second time. */
  lemma OrTwice(w: Word, x: Word)
    ensures (w | x) | x == w | x
  {
  }

  lemma OrZero(w: Word)
    ensures w | 0 == w
  {
  }

  /** Mask byte m copied into the mask byte and the gathered byte, as manual masking does. */
  function MaskWord(m: Word): (w: Word)
    requires m & 0xFF == m
    ensures Masked(w) == m && Gathered(w) == m
    ensures Filtered(w) == 0 && Transferred(w) == 0 && High(w) == 0
  {
    m | (m << 24)
  }

  /** A word is determined by its four bytes and the bits above them. */
  lemma WordFromBytes(f: Word, g: Word)
    requires Gathered(f) == Gathered(g) && Filtered(f) == Filtered(g)
    requires Transferred(f) == Transferred(g) && Masked(f) == Masked(g) && High(f) == High(g)
    ensures f == g
  {
  }

  /** Setting the filter bit of channel c adds c to the filter byte and touches nothing else. */
  lemma SetFilterBitBytes(x: Word, c: nat)
    requires c < CHANNELS
    ensures var y := SetBits(x, FilterBit(c));
      && Gathered(y) == Gathered(x) && Transferred(y) == Transferred(x)
      && Masked(y) == Masked(x) && High(y) == High(x)
      && Filtered(y) == Filtered(x) | ChannelBit(c)
      && Filtered(y) & 0xF0 == Filtered(x) & 0xF0
  {
    SetFilterBitLowBytes(x, c);
    SetFilterBitUpperBytes(x, c);
    SetFilterBitFilterByte(x, c);
  }

  lemma SetFilterBitLowBytes(x: Word, c: nat)
    requires c < CHANNELS
    ensures Gathered(SetBits(x, FilterBit(c))) == Gathered(x)
    ensures Transferred(SetBits(x, FilterBit(c))) == Transferred(x)
  {
  }

  lemma SetFilterBitUpperBytes(x: Word, c: nat)
    requires c < CHANNELS
    ensures Masked(SetBits(x, FilterBit(c))) == Masked(x)
    ensures High(SetBits(x, FilterBit(c))) == High(x)
  {
  }

  lemma SetFilterBitFilterByte(x: Word, c: nat)
    requires c < CHANNELS
    ensures Filtered(SetBits(x, FilterBit(c))) == Filtered(x) | ChannelBit(c)
    ensures Filtered(SetBits(x, FilterBit(c))) & 0xF0 == Filtered(x) & 0xF0
  {
  }

  /** Whether a word carries a channel's filter bit is read off its filter byte. */
  lemma FilterBitInByte(x: Word, d: nat)
    requires d < CHANNELS
    ensures Has(x, FilterBit(d)) <==> Filtered(x) & ChannelBit(d) != 0
  {
  }

  /** Whether a word carries a channel's gathered bit is read off its gathered byte. */
  lemma ChannelBitInByte(x: Word, d: nat)
    requires d < CHANNELS
    ensures Has(x, ChannelBit(d)) <==> Gathered(x) & ChannelBit(d) != 0
  {
  }

  /** Whether a word carries a channel's transfer bit is read off its transfer byte. */
  lemma TransferBitInByte(x: Word, d: nat)
    requires d < CHANNELS
    ensures Has(x, TransferBit(d)) <==> Transferred(x) & ChannelBit(d) != 0
  {
  }

  /** Whether a word carries a channel's mask bit is read off its mask byte. */
  lemma MaskBitInByte(x: Word, d: nat)
    requires d < CHANNELS
    ensures Has(x, MaskBit(d)) <==> Masked(x) & ChannelBit(d) != 0
  {
  }

  lemma AndDistributes(f: Word, a: Word, b: Word)
    ensures f & (a | b) == (f & a) | (f & b)
  {
  }

  lemma OrIsZero(x: Word, y: Word)
    ensures x | y == 0 <==> x == 0 && y == 0
  {
  }

  /** A word shares no bit with a union exactly when it shares none with either part. */
  lemma AndOrZero(f: Word, a: Word, b: Word)
    ensures f & (a | b) == 0 <==> f & a == 0 && f & b == 0
  {
    AndDistributes(f, a, b);
    OrIsZero(f & a, f & b);
  }

  /** Words with the same filter byte carry the same filter bits. */
  lemma SameFilterByte(x: Word, y: Word, d: nat)
    requires d < CHANNELS && Filtered(x) == Filtered(y)
    ensures Has(x, FilterBit(d)) <==> Has(y, FilterBit(d))
  {
    FilterBitInByte(x, d);
    FilterBitInByte(y, d);
  }

  lemma SetFilterBitHas(x: Word, c: nat, d: nat)
    requires c < CHANNELS && d < CHANNELS
    ensures Has(SetBits(x, FilterBit(c)), FilterBit(d)) <==> c == d || Has(x, FilterBit(d))
  {
    var y := SetBits(x, FilterBit(c));
    FilterBitInByte(x, d);
    FilterBitInByte(y, d);
    SetFilterBitFilterByte(x, c);
    OrChannelBit(Filtered(x), c, d);
  }

  /** Adding channel c's bit to a byte adds exactly channel c. */
  lemma OrChannelBit(a: Word, c: nat, d: nat)
    requires c < CHANNELS && d < CHANNELS
    ensures (a | ChannelBit(c)) & ChannelBit(d) != 0 <==> a & ChannelBit(d) != 0 || c == d
  {
  }

  lemma MaskWordOr(m: Word, n: Word)
    requires m & 0xFF == m && n & 0xFF == n
    ensures MaskWord(m | n) == MaskWord(m) | MaskWord(n)
  {
  }

  /** Filter bits of different channels are disjoint. */
  lemma FilterBitsDistinct(c: nat, d: nat)
    requires c < CHANNELS && d < CHANNELS
    ensures Has(FilterBit(c), FilterBit(d)) <==> c == d
  {
  }

  // ---------------------------------------------------------------------------
  // Whole-word stages of the filter pass.  Each stage's effect is stated byte by
  // byte in a separate lemma; one lemma per byte keeps the bit-vector proofs small.

  /** Reset before filtering: keep the mask byte, copy it into the gathered byte, clear the rest. */
  function ResetWord(f: Word): Word {
    var m := f & MASK_BITS;
    m | (m >> 24)
  }

  lemma ResetWordBytes(f: Word)
    ensures Masked(ResetWord(f)) == Masked(f) && Gathered(ResetWord(f)) == Masked(f)
    ensures Filtered(ResetWord(f)) == 0 && Transferred(ResetWord(f)) == 0 && High(ResetWord(f)) == 0
  {
    ResetMasked(f);
    ResetGathered(f);
    ResetCleared(f);
  }

  lemma ResetMasked(f: Word) ensures Masked(ResetWord(f)) == Masked(f) {}
  lemma ResetGathered(f: Word) ensures Gathered(ResetWord(f)) == Masked(f) {}
  lemma ResetCleared(f: Word)
    ensures Filtered(ResetWord(f)) == 0 && Transferred(ResetWord(f)) == 0 && High(ResetWord(f)) == 0
  {}

  /** Transfer from critical channel c: a word carrying c's filter bit gets the whole transfer byte. */
  function TransferWord(f: Word, c: nat): Word
    requires c < CHANNELS
  {
    if Has(f, FilterBit(c)) then SetBits(f, TRANSFER_BITS) else f
  }

  lemma TransferWordBytes(f: Word, c: nat)
    requires c < CHANNELS
    ensures Transferred(TransferWord(f, c)) == if Has(f, FilterBit(c)) then 0xFF else Transferred(f)
    ensures Gathered(TransferWord(f, c)) == Gathered(f) && Filtered(TransferWord(f, c)) == Filtered(f)
    ensures Masked(TransferWord(f, c)) == Masked(f) && High(TransferWord(f, c)) == High(f)
  {
    SetTransferBytes(f);
  }

  lemma SetTransferBytes(f: Word)
    ensures Transferred(SetBits(f, TRANSFER_BITS)) == 0xFF
    ensures Gathered(SetBits(f, TRANSFER_BITS)) == Gathered(f)
    ensures Filtered(SetBits(f, TRANSFER_BITS)) == Filtered(f)
    ensures Masked(SetBits(f, TRANSFER_BITS)) == Masked(f)
    ensures High(SetBits(f, TRANSFER_BITS)) == High(f)
  {
    SetTransferMiddle(f);
    SetTransferOuter(f);
  }

  lemma SetTransferMiddle(f: Word)
    ensures Transferred(SetBits(f, TRANSFER_BITS)) == 0xFF
    ensures Filtered(SetBits(f, TRANSFER_BITS)) == Filtered(f)
  {}

  lemma SetTransferOuter(f: Word)
    ensures Gathered(SetBits(f, TRANSFER_BITS)) == Gathered(f)
    ensures Masked(SetBits(f, TRANSFER_BITS)) == Masked(f)
    ensures High(SetBits(f, TRANSFER_BITS)) == High(f)
  {}

  /** Gather: the gathered byte becomes the OR of the mask, transfer and filter bytes; bits above 31 are dropped. */
  function GatherWord(f: Word): Word {
    var gathered := ((f >> 24) & 0xFF) | ((f >> 16) & 0xFF) | ((f >> 8) & 0xFF);
    (f & 0xFFFF_FF00) | gathered
  }

  lemma GatherWordBytes(f: Word)
    ensures Gathered(GatherWord(f)) == Masked(f) | Transferred(f) | Filtered(f)
    ensures Filtered(GatherWord(f)) == Filtered(f) && Transferred(GatherWord(f)) == Transferred(f)
    ensures Masked(GatherWord(f)) == Masked(f) && High(GatherWord(f)) == 0
  {
    GatherGathered(f);
    GatherFiltered(f);
    GatherTransferred(f);
    GatherMasked(f);
    GatherHigh(f);
  }

  lemma GatherGathered(f: Word) ensures Gathered(GatherWord(f)) == Masked(f) | Transferred(f) | Filtered(f) {}
  lemma GatherFiltered(f: Word) ensures Filtered(GatherWord(f)) == Filtered(f) {}
  lemma GatherTransferred(f: Word) ensures Transferred(GatherWord(f)) == Transferred(f) {}
  lemma GatherMasked(f: Word) ensures Masked(GatherWord(f)) == Masked(f) {}
  lemma GatherHigh(f: Word) ensures High(GatherWord(f)) == 0 {}

  /** Gathering twice gives the same word as gathering once (the program gathers once per channel). */
  lemma GatherIdempotent(f: Word)
    ensures GatherWord(GatherWord(f)) == GatherWord(f)
  {
    GatherWordBytes(f);
    GatherWordBytes(GatherWord(f));
    WordFromBytes(GatherWord(GatherWord(f)), GatherWord(f));
  }

  /** Resetting twice gives the same word as resetting once. */
  lemma ResetIdempotent(f: Word)
    ensures ResetWord(ResetWord(f)) == ResetWord(f)
  {
    ResetWordBytes(f);
    ResetWordBytes(ResetWord(f));
    WordFromBytes(ResetWord(ResetWord(f)), ResetWord(f));
  }
}
