/** `encodeURIComponent` and `decodeURIComponent`: percent-encoding of the UTF-8 bytes of characters
    (RFC 3986, section 2.1). A string is a sequence of Unicode scalar values. */
module UriEncoding {
  import opened Wrappers
  import opened JsMap

  predicate Unescaped(c: char) {
    'A' <= c <= 'Z' || 'a' <= c <= 'z' || '0' <= c <= '9' || c in "-_.!~*'()"
  }

  function HexDigit(n: nat): char
    requires n < 16
  {
    "0123456789ABCDEF"[n]
  }

  function HexValue(c: char): Option<nat> {
    if '0' <= c <= '9' then Some(c as nat - '0' as nat)
    else if 'A' <= c <= 'F' then Some(c as nat - 'A' as nat + 10)
    else if 'a' <= c <= 'f' then Some(c as nat - 'a' as nat + 10)
    else None
  }

  function Escape(b: nat): string
    requires b < 256
  {
    ['%', HexDigit(b / 16), HexDigit(b % 16)]
  }

  // The last `count` UTF-8 bytes of character n, six bits each, and the bits before those.
  function Tail(n: nat, count: nat): string {
    if count == 0 then "" else Tail(n / 64, count - 1) + Escape(0x80 + n % 64)
  }

  function Shifted(n: nat, count: nat): nat {
    if count == 0 then n else Shifted(n / 64, count - 1)
  }

  // How many bytes follow the first, and what marks the first.
  function Following(n: nat): nat {
    if n < 0x80 then 0 else if n < 0x800 then 1 else if n < 0x10000 then 2 else 3
  }

  function Mark(following: nat): nat {
    if following == 0 then 0 else if following == 1 then 0xC0 else if following == 2 then 0xE0 else 0xF0
  }

  function FirstByte(c: char): (b: nat)
    ensures b < 256
  {
    var n := c as nat;
    assert Shifted(n, Following(n)) + Mark(Following(n)) < 256 by { FirstFits(c); }
    Mark(Following(n)) + Shifted(n, Following(n))
  }

  lemma FirstFits(c: char)
    ensures var n := c as nat;
      Shifted(n, Following(n)) < match Following(n) case 0 => 0x80 case 1 => 32 case 2 => 16 case _ => 8
  {
    var n := c as nat;
    assert Shifted(n, 1) == Shifted(n / 64, 0);
    assert Shifted(n, 2) == Shifted(n / 64, 1) == Shifted(n / 64 / 64, 0);
    assert Shifted(n, 3) == Shifted(n / 64, 2) == Shifted(n / 64 / 64, 1) == Shifted(n / 64 / 64 / 64, 0);
  }

  // The UTF-8 bytes of a character, each escaped.
  function EscapeChar(c: char): string {
    Escape(FirstByte(c)) + Tail(c as nat, Following(c as nat))
  }

  function EncodeChar(c: char): string {
    if Unescaped(c) then [c] else EscapeChar(c)
  }

  function Encode(s: string): string {
    if s == "" then "" else EncodeChar(s[0]) + Encode(s[1..])
  }

  // The byte that s starts with, escaped, and what follows it.
  function ReadByte(s: string): Option<(nat, string)> {
    if |s| < 3 || s[0] != '%' then None
    else
      var high, low := HexValue(s[1]), HexValue(s[2]);
      if high.None? || low.None? then None else Some((16 * high.value + low.value, s[3..]))
  }

  // A continuation byte's six bits, added to those before.
  function ReadMore(bits: nat, s: string): Option<(nat, string)> {
    var b := ReadByte(s);
    if b.None? || !(0x80 <= b.value.0 < 0xC0) then None else Some((64 * bits + (b.value.0 - 0x80), b.value.1))
  }

  function ReadMany(count: nat, bits: nat, s: string): Option<(nat, string)> {
    if count == 0 then Some((bits, s))
    else
      var more := ReadMore(bits, s);
      if more.None? then None else ReadMany(count - 1, more.value.0, more.value.1)
  }

  // The character that s starts with, escaped as UTF-8 in its shortest form.
  function ReadChar(s: string): Option<(char, string)> {
    var first := ReadByte(s);
    if first.None? then None
    else
      var (b, rest) := first.value;
      if b < 0x80 then Some((b as char, rest))
      else if b < 0xC0 || b >= 0xF8 then None
      else
        var (count, bits, least) :=
          if b < 0xE0 then (1, b - 0xC0, 0x80) else if b < 0xF0 then (2, b - 0xE0, 0x800) else (3, b - 0xF0, 0x10000);
        var many := ReadMany(count, bits, rest);
        if many.None? then None
        else
          var (n, after) := many.value;
          if n < least || n >= 0x110000 || 0xD800 <= n < 0xE000 then None else Some((n as char, after))
  }

  lemma {:induction false} ReadManyShrinks(count: nat, bits: nat, s: string)
    ensures ReadMany(count, bits, s).Some? ==> |ReadMany(count, bits, s).value.1| <= |s|
  {
    if count > 0 && ReadMore(bits, s).Some? {
      ReadManyShrinks(count - 1, ReadMore(bits, s).value.0, ReadMore(bits, s).value.1);
    }
  }

  lemma ReadCharShrinks(s: string)
    ensures ReadChar(s).Some? ==> |ReadChar(s).value.1| < |s|
  {
    hide ReadMany;
    var first := ReadByte(s);
    if first.Some? {
      forall count: nat, bits: nat
        ensures ReadMany(count, bits, first.value.1).Some? ==> |ReadMany(count, bits, first.value.1).value.1| <= |first.value.1|
      {
        ReadManyShrinks(count, bits, first.value.1);
      }
    }
  }

  // None is the `URIError` of malformed input.
  function Decode(s: string): Option<string>
    decreases |s|
  {
    if s == "" then Some("")
    else if s[0] != '%' then
      var rest := Decode(s[1..]);
      if rest.None? then None else Some([s[0]] + rest.value)
    else
      ReadCharShrinks(s);
      var c := ReadChar(s);
      if c.None? then None
      else
        var rest := Decode(c.value.1);
        if rest.None? then None else Some([c.value.0] + rest.value)
  }

  lemma ByteReadsBack(b: nat, rest: string)
    requires b < 256
    ensures ReadByte(Escape(b) + rest) == Some((b, rest))
  {
    HexReadsBack(b / 16);
    HexReadsBack(b % 16);
    assert (Escape(b) + rest)[3..] == rest;
  }

  lemma HexReadsBack(n: nat)
    requires n < 16
    ensures HexValue(HexDigit(n)) == Some(n)
  {
  }

  lemma ManyReadBack(count: nat, bits: nat, low: nat, rest: string)
    requires low < 64
    ensures ReadMany(count + 1, bits, Escape(0x80 + low) + rest) == ReadMany(count, 64 * bits + low, rest)
    ensures ReadMany(0, bits, rest) == Some((bits, rest))
  {
    hide Escape, ReadByte;
    ByteReadsBack(0x80 + low, rest);
  }

  lemma {:induction false} TailReadsBack(n: nat, count: nat, more: nat, rest: string)
    ensures ReadMany(count + more, Shifted(n, count), Tail(n, count) + rest) == ReadMany(more, n, rest)
    decreases count
  {
    hide ReadMany, Escape;
    if count == 0 {
      assert "" + rest == rest;
    } else {
      var low := Escape(0x80 + n % 64);
      TailReadsBack(n / 64, count - 1, more + 1, low + rest);
      ManyReadBack(more, n / 64, n % 64, rest);
      assert Tail(n, count) + rest == Tail(n / 64, count - 1) + (low + rest);
    }
  }

  lemma CharReadsBack(c: char, rest: string)
    ensures ReadChar(EscapeChar(c) + rest) == Some((c, rest))
  {
    hide Escape, ReadByte, ReadMany, Tail, Shifted;
    var n := c as nat;
    var count := Following(n);
    FirstFits(c);
    assert EscapeChar(c) + rest == Escape(FirstByte(c)) + (Tail(n, count) + rest);
    ByteReadsBack(FirstByte(c), Tail(n, count) + rest);
    TailReadsBack(n, count, 0, rest);
    ManyReadBack(0, n, 0, rest);
    if count == 0 {
      assert Tail(n, 0) + rest == rest by { NoTail(n, rest); }
      assert Shifted(n, 0) == n by { NoTail(n, rest); }
    }
  }

  lemma NoTail(n: nat, rest: string)
    ensures Tail(n, 0) + rest == rest && Shifted(n, 0) == n
  {
    assert "" + rest == rest;
  }

  /** Decoding gives back what was encoded. */
  lemma {:induction false} EncodedReadsBack(s: string)
    ensures Decode(Encode(s)) == Some(s)
  {
    hide EscapeChar, ReadChar;
    if s == "" {
    } else {
      EncodedReadsBack(s[1..]);
      var rest := Encode(s[1..]);
      if Unescaped(s[0]) {
        assert ([s[0]] + rest)[1..] == rest;
      } else {
        EscapeStarts(s[0]);
        CharReadsBack(s[0], rest);
      }
      assert s == [s[0]] + s[1..];
    }
  }

  lemma EscapeStarts(c: char)
    ensures EscapeChar(c) != "" && EscapeChar(c)[0] == '%' && '/' !in EscapeChar(c)
  {
    hide Escape, Tail;
    EscapeHasNoSlash(FirstByte(c));
    TailHasNoSlash(c as nat, Following(c as nat));
  }

  lemma {:induction false} TailHasNoSlash(n: nat, count: nat)
    ensures '/' !in Tail(n, count)
    decreases count
  {
    hide Escape;
    if count == 0 {
    } else {
      TailHasNoSlash(n / 64, count - 1);
      EscapeHasNoSlash(0x80 + n % 64);
    }
  }

  lemma EscapeHasNoSlash(b: nat)
    requires b < 256
    ensures |Escape(b)| == 3 && Escape(b)[0] == '%' && '/' !in Escape(b)
  {
    HexReadsBack(b / 16);
    HexReadsBack(b % 16);
  }

  /** What is encoded has no slash, and is empty only for the empty string. */
  lemma {:induction false} EncodedHasNoSlash(s: string)
    ensures '/' !in Encode(s)
    ensures Encode(s) == "" <==> s == ""
  {
    hide EscapeChar;
    if s == "" {
    } else {
      EscapeStarts(s[0]);
      EncodedHasNoSlash(s[1..]);
    }
  }

  /** Encoding changes a string exactly when it has a character to escape, and then lengthens it. */
  lemma {:induction false} EncodedPlainIff(s: string)
    ensures Encode(s) == s <==> forall i :: 0 <= i < |s| ==> Unescaped(s[i])
    ensures Encode(s) != s <==> |Encode(s)| > |s|
    ensures |Encode(s)| >= |s|
  {
    hide EscapeChar, Unescaped;
    if s == "" {
    } else {
      var rest := s[1..];
      EncodedPlainIff(rest);
      EscapeIsLong(s[0]);
      assert s == [s[0]] + rest;
      if Unescaped(s[0]) {
        assert Encode(s)[1..] == Encode(rest);
      }
      assert forall i :: 0 <= i < |rest| ==> rest[i] == s[i + 1];
    }
  }

  lemma EscapeIsLong(c: char)
    ensures |EscapeChar(c)| >= 3
  {
    EscapeHasNoSlash(FirstByte(c));
  }

  // ----- which characters are escaped, and how -----

  predicate Kept(c: char) {
    || c in "ABCDEFGHIJKLMNOPQRSTUVWXYZ" || c in "abcdefghijklmnopqrstuvwxyz"
    || c in "0123456789" || c in "-_.!~*'()"
  }

  predicate UpperHex(c: char) {
    c in "0123456789ABCDEF"
  }

  // Every percent sign is followed by two upper-case hexadecimal digits, and everything else is kept as it is.
  predicate InForm(s: string) {
    || s == ""
    || (Kept(s[0]) && InForm(s[1..]))
    || (|s| >= 3 && s[0] == '%' && UpperHex(s[1]) && UpperHex(s[2]) && InForm(s[3..]))
  }

  lemma EscapeInForm(b: nat, rest: string)
    requires b < 256 && InForm(rest)
    ensures InForm(Escape(b) + rest)
  {
    var s := Escape(b) + rest;
    assert s[0] == '%' && s[1] == HexDigit(b / 16) && s[2] == HexDigit(b % 16) && s[3..] == rest;
    DigitIsUpper(b / 16);
    DigitIsUpper(b % 16);
  }

  lemma DigitIsUpper(n: nat)
    requires n < 16
    ensures UpperHex(HexDigit(n))
  {
    assert "0123456789ABCDEF"[n] in "0123456789ABCDEF";
  }

  lemma {:induction false} TailInForm(n: nat, count: nat, rest: string)
    requires InForm(rest)
    ensures InForm(Tail(n, count) + rest)
    decreases count
  {
    hide Escape, InForm;
    if count == 0 {
      assert "" + rest == rest;
    } else {
      EscapeInForm(0x80 + n % 64, rest);
      TailInForm(n / 64, count - 1, Escape(0x80 + n % 64) + rest);
      assert Tail(n / 64, count - 1) + (Escape(0x80 + n % 64) + rest) == Tail(n, count) + rest;
    }
  }

  lemma KeptCharacters(c: char)
    ensures Unescaped(c) <==> Kept(c)
  {
    CapitalLetters(c);
    SmallLetters(c);
    DecimalDigits(c);
  }

  lemma CapitalLetters(c: char)
    ensures 'A' <= c <= 'Z' <==> c in "ABCDEFGHIJKLMNOPQRSTUVWXYZ"
  {
  }

  lemma SmallLetters(c: char)
    ensures 'a' <= c <= 'z' <==> c in "abcdefghijklmnopqrstuvwxyz"
  {
  }

  lemma DecimalDigits(c: char)
    ensures '0' <= c <= '9' <==> c in "0123456789"
  {
  }

  lemma CharInForm(c: char, rest: string)
    requires InForm(rest)
    ensures InForm(EncodeChar(c) + rest)
  {
    hide InForm, Escape, Tail, Kept, Unescaped;
    var n := c as nat;
    KeptCharacters(c);
    if Unescaped(c) {
      KeptInForm(c, rest);
    } else {
      TailInForm(n, Following(n), rest);
      EscapeInForm(FirstByte(c), Tail(n, Following(n)) + rest);
      assert Escape(FirstByte(c)) + (Tail(n, Following(n)) + rest) == EscapeChar(c) + rest;
    }
  }

  lemma KeptInForm(c: char, rest: string)
    requires Kept(c) && InForm(rest)
    ensures InForm([c] + rest)
  {
    hide Kept;
    assert ([c] + rest)[1..] == rest;
  }

  /** Exactly the letters, digits and marks that `encodeURIComponent` keeps stay as they are; everything else becomes
      percent signs with two upper-case hexadecimal digits each. */
  lemma {:induction false} EncodedForm(s: string)
    ensures InForm(Encode(s))
    ensures Encode(s) == s <==> forall i :: 0 <= i < |s| ==> Kept(s[i])
  {
    hide EncodeChar, Kept, Unescaped;
    if s == "" {
    } else {
      hide InForm;
      EncodedForm(s[1..]);
      CharInForm(s[0], Encode(s[1..]));
    }
    PlainIfKept(s);
  }

  lemma PlainIfKept(s: string)
    ensures Encode(s) == s <==> forall i :: 0 <= i < |s| ==> Kept(s[i])
  {
    hide Encode, Kept, Unescaped;
    EncodedPlainIff(s);
    forall i | 0 <= i < |s|
      ensures Unescaped(s[i]) <==> Kept(s[i])
    {
      KeptCharacters(s[i]);
    }
  }
}
