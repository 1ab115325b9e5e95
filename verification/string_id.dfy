/**
 The `FXBSTR_ID(c1, c2, c3, c4)` macro: four characters folded big-endian
 into a `uint32_t` tag, `c1` in the top byte.

 Each argument is converted to `uint32_t`, shifted left in 32-bit arithmetic
 and the four words are OR-ed together. A character argument is an 8-bit
 pattern; whether `char` is signed is the platform's choice, so the
 conversion takes it as a parameter: a signed `char` with its top bit set
 converts to a word whose upper 24 bits are all ones.
 */
module StringId {

  /** The macro once its four arguments have been converted to `uint32_t`. */
  function FxbstrId(w1: bv32, w2: bv32, w3: bv32, w4: bv32): bv32 {
    (w1 << 24) | (w2 << 16) | (w3 << 8) | w4
  }

  /** `(uint32_t)c` for a `char` holding the bit pattern `c`. */
  function CharToUint32(c: bv8, charIsSigned: bool): (w: bv32)
    ensures w & 0xFF == c as bv32
    ensures !charIsSigned || c < 0x80 ==> w == c as bv32
    ensures charIsSigned && c >= 0x80 ==> w >> 8 == 0xFF_FFFF
  {
    if charIsSigned && c >= 0x80 then (c as bv32) | 0xFFFF_FF00 else c as bv32
  }

  /** `FXBSTR_ID` applied to four characters. */
  function CharsId(c1: bv8, c2: bv8, c3: bv8, c4: bv8, charIsSigned: bool): (r: bv32)
    ensures TagByte(r, 3) == c4
    ensures NoSignSpill(c4, charIsSigned) ==> TagByte(r, 2) == c3
  {
    FxbstrId(CharToUint32(c1, charIsSigned), CharToUint32(c2, charIsSigned),
             CharToUint32(c3, charIsSigned), CharToUint32(c4, charIsSigned))
  }

  /** Byte `i` of a tag, counting from the most significant (0) to the least (3). */
  function TagByte(id: bv32, i: nat): bv8
    requires i < 4
  {
    var shifted := if i == 0 then id >> 24 else if i == 1 then id >> 16 else if i == 2 then id >> 8 else id;
    (shifted & 0xFF) as bv8
  }

  /** Characters whose conversion does not sign-extend. */
  predicate NoSignSpill(c: bv8, charIsSigned: bool) {
    !charIsSigned || c < 0x80
  }

  /** Each character can be read back from its own byte of the tag, so distinct tags come from distinct words. */
  lemma CharsIdRoundTrip(c1: bv8, c2: bv8, c3: bv8, c4: bv8, charIsSigned: bool)
    requires NoSignSpill(c2, charIsSigned) && NoSignSpill(c3, charIsSigned) && NoSignSpill(c4, charIsSigned)
    ensures var id := CharsId(c1, c2, c3, c4, charIsSigned);
            TagByte(id, 0) == c1 && TagByte(id, 1) == c2 && TagByte(id, 2) == c3 && TagByte(id, 3) == c4
  {
  }

  /** The tag is the base-256 number c1 c2 c3 c4. */
  lemma CharsIdValue(c1: bv8, c2: bv8, c3: bv8, c4: bv8, charIsSigned: bool)
    requires NoSignSpill(c2, charIsSigned) && NoSignSpill(c3, charIsSigned) && NoSignSpill(c4, charIsSigned)
    ensures CharsId(c1, c2, c3, c4, charIsSigned)
            == (c1 as bv32) * 0x100_0000 + (c2 as bv32) * 0x1_0000 + (c3 as bv32) * 0x100 + (c4 as bv32)
  {
  }

  /** A signed last character with its top bit set overwrites the three bytes above it. */
  lemma SignedLastCharSpills(c1: bv8, c2: bv8, c3: bv8, c4: bv8)
    requires c4 >= 0x80
    ensures var id := CharsId(c1, c2, c3, c4, true);
            TagByte(id, 0) == 0xFF && TagByte(id, 1) == 0xFF && TagByte(id, 2) == 0xFF && TagByte(id, 3) == c4
  {
  }
}
