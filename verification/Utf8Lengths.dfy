/** The byte counts of a session (src/main/terminal-host/session.ts) are those of UTF-8. */
module Utf8Lengths {
  import opened Bytes
  import opened Utf16
  import opened UriEncoding
  import opened TitleEncoding

  // A character as one unit or as a surrogate pair.
  function UnitsOf(c: char): Text {
    var n := c as int;
    if n < 0x1_0000 then [n] else [0xd800 + (n - 0x1_0000) / 0x400, 0xdc00 + (n - 0x1_0000) % 0x400]
  }

  function Units(s: string): Text {
    if s == "" then [] else UnitsOf(s[0]) + Units(s[1..])
  }

  lemma CharLength(c: char)
    ensures ByteLength(UnitsOf(c)) == |Utf8Char(c)|
    ensures !IsHighSurrogate(UnitsOf(c)[|UnitsOf(c)| - 1])
  {
    var n, units := c as int, UnitsOf(c);
    ContinuationLength(n, Following(n));
    if n < 0x1_0000 {
      assert units[1..] == [];
      assert ByteLength(units) == UnitBytes(n) + ByteLength([]);
    } else {
      assert units[2..] == [];
      assert ByteLength(units) == 4 + ByteLength([]);
    }
  }

  lemma {:induction false} ContinuationLength(n: nat, count: nat)
    ensures |Continuation(n, count)| == count
  {
    if count > 0 {
      ContinuationLength(n / 64, count - 1);
    }
  }

  /** The size of a text in bytes is the length of its UTF-8 form. */
  lemma {:induction false} ByteLengthIsUtf8(s: string)
    ensures ByteLength(Units(s)) == |Utf8(s)|
  {
    hide ByteLength, UnitsOf, Utf8Char;
    if s == "" {
      assert ByteLength([]) == 0 by { NoBytes(); }
    } else {
      CharLength(s[0]);
      ByteLengthIsUtf8(s[1..]);
      ByteLengthOfCut(UnitsOf(s[0]), Units(s[1..]));
    }
  }

  lemma NoBytes()
    ensures ByteLength([]) == 0
  {
  }
}
