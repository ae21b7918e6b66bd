/** JavaScript strings as sequences of UTF-16 code units, and the size of their UTF-8 encoding. */
module Utf16 {

  type CodeUnit = x: int | 0 <= x < 0x1_0000
  type Text = seq<CodeUnit>

  predicate IsHighSurrogate(u: CodeUnit) {
    0xd800 <= u <= 0xdbff
  }

  predicate IsLowSurrogate(u: CodeUnit) {
    0xdc00 <= u <= 0xdfff
  }

  // Long writes are cut into chunks of this many units.
  const MAX_CHUNK_CHARS := 8192

  // A unit on its own; a surrogate without its partner is encoded as U+FFFD.
  function UnitBytes(u: CodeUnit): nat {
    if u < 0x80 then 1 else if u < 0x800 then 2 else 3
  }

  predicate StartsWithPair(t: Text) {
    |t| >= 2 && IsHighSurrogate(t[0]) && IsLowSurrogate(t[1])
  }

  // `Buffer.byteLength(t, "utf8")`
  function ByteLength(t: Text): nat {
    if t == [] then 0
    else if StartsWithPair(t) then 4 + ByteLength(t[2..])
    else UnitBytes(t[0]) + ByteLength(t[1..])
  }

  function TotalBytes(texts: seq<Text>): nat {
    if texts == [] then 0 else ByteLength(texts[0]) + TotalBytes(texts[1..])
  }

  // The boundary between `a` and `b` separates the halves of a surrogate pair.
  predicate CutsPair(a: Text, b: Text) {
    a != [] && b != [] && IsHighSurrogate(a[|a| - 1]) && IsLowSurrogate(b[0])
  }

  /** Byte lengths add up across a cut exactly when the cut does not separate a surrogate pair; when
      it does, the two halves are counted as two replacement characters. */
  lemma {:induction false} ByteLengthOfCut(a: Text, b: Text)
    ensures ByteLength(a) + ByteLength(b) == ByteLength(a + b) + (if CutsPair(a, b) then 2 else 0)
    decreases |a|
  {
    if a == [] {
      assert a + b == b;
    } else if StartsWithPair(a) {
      assert (a + b)[2..] == a[2..] + b;
      ByteLengthOfCut(a[2..], b);
    } else if |a| == 1 && CutsPair(a, b) {
      assert (a + b)[2..] == b[1..] && a[1..] == [];
      assert !StartsWithPair(b);
    } else {
      assert (a + b)[1..] == a[1..] + b;
      ByteLengthOfCut(a[1..], b);
    }
  }
}
