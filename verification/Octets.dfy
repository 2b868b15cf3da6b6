/** Bytes as numbers and as elements of the coding field. */
module Octets {
  import opened BitOps

  function ToSymbol(b: Byte): bv8 {
    b as bv8
  }

  function ToByte(s: bv8): Byte {
    s as int
  }

  lemma ByteRoundTrip(b: Byte)
    ensures ToByte(ToSymbol(b)) == b
  {
    IntRoundTrip(b);
  }

  lemma NibbleRoundTrip(b: int)
    requires 0 <= b < 16
    ensures (b as bv8) as int == b
  {}

  lemma IntRoundTrip(b: int)
    requires 0 <= b < 256
    ensures (b as bv8) as int == b
  {
    var high, low := b / 16, b % 16;
    NibbleRoundTrip(high);
    NibbleRoundTrip(low);
    assert ((high as bv8) * 16 + (low as bv8)) as int == b;
  }

  lemma SymbolRoundTrip(s: bv8)
    ensures ToSymbol(ToByte(s)) == s
  {}
}
