/** Two 32-bit values packed into one 64-bit word. */
module Packed {
  import opened Bytes

  // (i64(high) << 32) | (i64(low) & 0xFFFFFFFF): the operands share no bit, so the or is a sum.
  function Pack(high: int, low: int): (w: int)
    requires IsI32(high) && IsI32(low)
    ensures IsI64(w)
  {
    TWO_32 * high + low % TWO_32
  }

  // i32(u64(word) >> 32)
  function High(word: int): (v: int)
    requires IsI64(word)
    ensures IsI32(v)
  {
    Signed32((if word < 0 then word + 2 * TWO_63 else word) / TWO_32)
  }

  // i32(word)
  function Low(word: int): (v: int)
    requires IsI64(word)
    ensures IsI32(v)
  {
    Signed32(word % TWO_32)
  }

  /** Both extractors invert the packing, for every pair including negatives. */
  lemma Unpacks(high: int, low: int)
    requires IsI32(high) && IsI32(low)
    ensures High(Pack(high, low)) == high && Low(Pack(high, low)) == low
  {
    var u := low % TWO_32;
    var word := Pack(high, low);
    assert word / TWO_32 == high && word % TWO_32 == u;
    if word < 0 {
      assert (word + 2 * TWO_63) / TWO_32 == high + TWO_32;
    }
  }

  /** Every 64-bit word is the packing of its two halves. */
  lemma Repacks(word: int)
    requires IsI64(word)
    ensures Pack(High(word), Low(word)) == word
  {
    var h, l := word / TWO_32, word % TWO_32;
    assert word == TWO_32 * h + l;
    assert (if word < 0 then word + 2 * TWO_63 else word) / TWO_32 == if word < 0 then h + TWO_32 else h;
  }
}
