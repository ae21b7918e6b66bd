/** Titles in UTF-8 (packages/shared/src/terminal-title-scanner.ts): the scanner takes the bytes 0x9c and
    0x9d for a terminator and an introducer, but they are also bytes of characters. */
module TitleEncoding {
  import opened Wrappers
  import opened Bytes
  import opened TerminalTitleScanner
  import opened UriEncoding

  // The last `count` bytes of the UTF-8 form of character n.
  function Continuation(n: nat, count: nat): seq<Byte> {
    if count == 0 then [] else Continuation(n / 64, count - 1) + [0x80 + n % 64]
  }

  function Utf8Char(c: char): seq<Byte> {
    [FirstByte(c)] + Continuation(c as nat, Following(c as nat))
  }

  function Utf8(s: string): seq<Byte> {
    if s == "" then [] else Utf8Char(s[0]) + Utf8(s[1..])
  }

  // One of the last `count` groups of six bits of n is x.
  predicate HasGroup(n: nat, count: nat, x: nat) {
    count > 0 && (n % 64 == x || HasGroup(n / 64, count - 1, x))
  }

  // The UTF-8 form of the character has the byte of the terminator, or of the introducer.
  predicate Cuts(c: char) {
    HasGroup(c as nat, Following(c as nat), 0x1c)
  }

  predicate Opening(c: char) {
    HasGroup(c as nat, Following(c as nat), 0x1d)
  }

  lemma {:induction false} ContinuationHas(n: nat, count: nat, b: Byte)
    ensures b in Continuation(n, count) <==> 0x80 <= b < 0xC0 && HasGroup(n, count, b - 0x80)
  {
    if count == 0 {
    } else {
      ContinuationHas(n / 64, count - 1, b);
    }
  }

  lemma CharHas(c: char, b: Byte)
    ensures 0x80 <= b < 0xC0 ==> (b in Utf8Char(c) <==> HasGroup(c as nat, Following(c as nat), b - 0x80))
    ensures b < 0x80 ==> (b in Utf8Char(c) <==> c as nat == b)
  {
    hide HasGroup, Continuation, Shifted;
    var n := c as nat;
    ContinuationHas(n, Following(n), b);
    FirstFits(c);
    NotShifted(n);
  }

  lemma NotShifted(n: nat)
    ensures Shifted(n, 0) == n
  {
  }

  lemma {:induction false} Utf8Has(s: string, b: Byte)
    ensures b in Utf8(s) <==> exists i :: 0 <= i < |s| && b in Utf8Char(s[i])
  {
    hide Utf8Char;
    if s == "" {
    } else {
      Utf8Has(s[1..], b);
      assert forall i :: 0 < i < |s| ==> s[1..][i - 1] == s[i];
    }
  }

  // A text has the byte of a control character only if it has that character, and the bytes of the
  // terminator and the introducer exactly if it has a character of that kind.
  lemma TextHas(s: string)
    ensures BEL in Utf8(s) ==> exists i :: 0 <= i < |s| && s[i] as nat == BEL
    ensures ESC in Utf8(s) ==> exists i :: 0 <= i < |s| && s[i] as nat == ESC
    ensures C1_ST in Utf8(s) <==> exists i :: 0 <= i < |s| && Cuts(s[i])
    ensures C1_OSC in Utf8(s) <==> exists i :: 0 <= i < |s| && Opening(s[i])
  {
    hide Utf8Char, HasGroup;
    Utf8Has(s, BEL);
    Utf8Has(s, ESC);
    Utf8Has(s, C1_ST);
    Utf8Has(s, C1_OSC);
    forall i | 0 <= i < |s|
      ensures BEL in Utf8Char(s[i]) <==> s[i] as nat == BEL
      ensures ESC in Utf8Char(s[i]) <==> s[i] as nat == ESC
      ensures C1_ST in Utf8Char(s[i]) <==> Cuts(s[i])
      ensures C1_OSC in Utf8Char(s[i]) <==> Opening(s[i])
    {
      CharHas(s[i], BEL);
      CharHas(s[i], ESC);
      CharHas(s[i], C1_ST);
      CharHas(s[i], C1_OSC);
    }
  }

  // ----- bytes without ESC -----

  lemma PlainStaysOnGround(s: seq<Byte>)
    requires ESC !in s && C1_OSC !in s
    ensures Run(Ground, s) == Ran(Ground, [])
  {
    hide Run, Read;
    RunBetween(s, 0, |s|);
    assert s[0..|s|] == s;
  }

  // What completes a sequence has its first bytes.
  lemma {:induction false} FirstDoneExtends(q: State, s: seq<Byte>)
    requires WellFormed(q) && q.Osc?
    ensures Run(q, s).done != [] ==> q.bytes <= Run(q, s).done[0].bytes
    decreases |s|
  {
    if s == [] {
    } else {
      var first := Read(q, s[0]);
      if first.state.Osc? {
        FirstDoneExtends(first.state, s[1..]);
      }
    }
  }

  // The first sequence after an introducer byte in plain bytes is one that it opens.
  lemma OpenedByByte(s: seq<Byte>, more: seq<Byte>)
    requires ESC !in s && C1_OSC in s
    ensures var done := Run(Ground, s + more).done; done != [] ==> [C1_OSC] <= done[0].bytes
  {
    hide Run, Read;
    var k := First(s, C1_OSC);
    var rest := s[k + 1..] + more;
    assert s + more == (s[..k] + [C1_OSC]) + rest;
    PlainStaysOnGround(s[..k]);
    RunSnoc(Ground, s[..k], C1_OSC);
    assert Read(Ground, C1_OSC) == Ran(Osc(1, [C1_OSC]), []) by { ReadIntroducer(); }
    RunAppend(Ground, s[..k] + [C1_OSC], rest);
    FirstDoneExtends(Osc(1, [C1_OSC]), rest);
    assert [] + Run(Osc(1, [C1_OSC]), rest).done == Run(Osc(1, [C1_OSC]), rest).done;
  }

  lemma ReadIntroducer()
    ensures WellFormed(Osc(1, [C1_OSC])) && Read(Ground, C1_OSC) == Ran(Osc(1, [C1_OSC]), [])
  {
  }

  function First(s: seq<Byte>, b: Byte): (k: nat)
    requires b in s
    ensures k < |s| && s[k] == b && b !in s[..k]
  {
    if s[0] == b then 0
    else
      var k := 1 + First(s[1..], b);
      assert s[..k] == [s[0]] + s[1..][..k - 1];
      k
  }

  // ----- a title after some output -----

  function Titled(payload: seq<Byte>): seq<Byte> {
    [ESC, RIGHT_BRACKET] + payload + [BEL]
  }

  lemma TitleBytesIff(out: seq<Byte>, payload: seq<Byte>)
    requires ESC !in out && ESC !in payload && BEL !in payload
    ensures Run(Ground, out + Titled(payload)).done == [Sequence(Titled(payload), payload)] <==>
            C1_OSC !in out && C1_ST !in payload
  {
    hide Run, Read;
    var whole := Sequence(Titled(payload), payload);
    assert whole.bytes[0] == ESC;
    if C1_OSC in out {
      OpenedByByte(out, Titled(payload));
      assert forall x: Sequence :: [C1_OSC] <= x.bytes ==> x != whole;
    } else {
      PlainStaysOnGround(out);
      RunAppend(Ground, out, Titled(payload));
      assert [] + Run(Ground, Titled(payload)).done == Run(Ground, Titled(payload)).done;
      if C1_ST in payload {
        CutTitle(payload);
      } else {
        assert forall i: nat :: i < |payload| ==> payload[i] in payload;
        RunTitle([ESC, RIGHT_BRACKET], payload, [BEL]);
      }
    }
  }

  // The first terminator byte in a payload cuts it there.
  lemma CutTitle(payload: seq<Byte>)
    requires ESC !in payload && BEL !in payload && C1_ST in payload
    ensures var done := Run(Ground, Titled(payload)).done; done != [] && |done[0].payload| < |payload|
  {
    hide Run, Read;
    var k := First(payload, C1_ST);
    var head, rest := payload[..k], payload[k + 1..] + [BEL];
    var cut := [ESC, RIGHT_BRACKET] + head + [C1_ST];
    assert Titled(payload) == cut + rest;
    assert forall i: nat :: i < |head| ==> head[i] in head && head[i] in payload;
    RunTitle([ESC, RIGHT_BRACKET], head, [C1_ST]);
    RunAppend(Ground, cut, rest);
  }

  /** When a title arrives as it was sent: after any output without escapes, and encoded in UTF-8 without
      control characters, it is the only sequence found if and only if no character of the output has the
      byte of an introducer and no character of the title has the byte of a terminator. */
  lemma TitleArrivesIff(output: string, title: string)
    requires forall c :: c in output ==> c as nat != ESC
    requires forall c :: c in title ==> c as nat != ESC && c as nat != BEL
    ensures Run(Ground, Utf8(output) + Titled(Utf8(title))).done == [Sequence(Titled(Utf8(title)), Utf8(title))] <==>
            (forall c :: c in output ==> !Opening(c)) && (forall c :: c in title ==> !Cuts(c))
  {
    hide Utf8, Run, Cuts, Opening, Titled;
    TextHas(output);
    TextHas(title);
    assert forall i :: 0 <= i < |output| ==> output[i] in output;
    assert forall i :: 0 <= i < |title| ==> title[i] in title;
    TitleBytesIff(Utf8(output), Utf8(title));
  }

  /** Quotation marks are such characters: an opening one in a title cuts it, and a closing one in output
      hides the next title. */
  lemma QuotationMarks(title: string)
    requires forall c :: c in title ==> c as nat != ESC && c as nat != BEL
    ensures var quoted := "\U{201C}" + title;
      Run(Ground, [] + Titled(Utf8(quoted))).done != [Sequence(Titled(Utf8(quoted)), Utf8(quoted))]
    ensures Run(Ground, Utf8("\U{201D}") + Titled(Utf8(title))).done != [Sequence(Titled(Utf8(title)), Utf8(title))]
  {
    hide Run, Titled;
    assert Cuts('\U{201C}') && Opening('\U{201D}');
    var quoted := "\U{201C}" + title;
    assert quoted[0] in quoted;
    assert Utf8("") == [];
    TitleArrivesIff("", quoted);
    TitleArrivesIff("\U{201D}", title);
    assert "\U{201D}"[0] in "\U{201D}";
  }

  lemma {:induction false} Utf8Append(a: string, b: string)
    ensures Utf8(a + b) == Utf8(a) + Utf8(b)
  {
    hide Utf8Char;
    if a == "" {
      assert a + b == b;
    } else {
      assert (a + b)[1..] == a[1..] + b;
      Utf8Append(a[1..], b);
      ConcatAssociates(Utf8Char(a[0]), Utf8(a[1..]), Utf8(b));
    }
  }

  lemma Utf8One(c: char)
    ensures Utf8([c]) == Utf8Char(c)
  {
    hide Utf8Char;
    assert [c][1..] == "";
  }

  lemma MarkBytes()
    ensures Utf8("\U{201C}") == [0xE2, 0x80, C1_ST]
    ensures Utf8("\U{201D}") == [0xE2, 0x80, C1_OSC]
  {
    Utf8One('\U{201C}');
    Utf8One('\U{201D}');
    MarkTail(0x201C);
    MarkTail(0x201D);
  }

  lemma MarkTail(n: nat)
    requires n == 0x201C || n == 0x201D
    ensures Continuation(n, 2) == [0x80, 0x80 + n % 64] && Shifted(n, 2) == 2
  {
    assert n / 64 == 0x80 && n / 64 % 64 == 0 && n / 64 / 64 == 2;
    assert Continuation(n / 64 / 64, 0) == [];
    assert Continuation(n / 64, 1) == Continuation(n / 64 / 64, 0) + [0x80] == [0x80];
    assert Shifted(n, 2) == Shifted(n / 64, 1) == Shifted(n / 64 / 64, 0);
  }

  // Text with no control character that ends or escapes anything.
  predicate Tame(s: string) {
    forall c :: c in s ==> c as nat != ESC && c as nat != BEL
  }

  lemma TameBytes(s: string)
    requires Tame(s)
    ensures ESC !in Utf8(s) && BEL !in Utf8(s)
    ensures (forall c :: c in s ==> !Cuts(c)) ==> C1_ST !in Utf8(s)
    ensures (forall c :: c in s ==> !Opening(c)) ==> C1_OSC !in Utf8(s)
  {
    hide Utf8, Cuts, Opening;
    TextHas(s);
    assert forall i :: 0 <= i < |s| ==> s[i] in s;
  }

  /** What a closing mark in the output makes of the next title: the only sequence found is opened by the mark, and
      its payload is the text since the mark, the introducer of the title and the title. */
  lemma ClosingMarkHides(output: string, since: string, title: string)
    requires Tame(output) && Tame(since) && Tame(title)
    requires (forall c :: c in output ==> !Opening(c)) && forall c :: c in since + title ==> !Cuts(c)
    ensures var payload := Utf8(since) + ([ESC, RIGHT_BRACKET] + Utf8(title));
      Run(Ground, Utf8(output + ("\U{201D}" + since)) + Titled(Utf8(title))).done ==
      [Sequence([C1_OSC] + payload + [BEL], payload)]
  {
    hide Run, Read, Utf8, Cuts, Opening;
    var payload := Utf8(since) + ([ESC, RIGHT_BRACKET] + Utf8(title));
    var plain := Utf8(output) + [0xE2, 0x80];
    Utf8Append(output, "\U{201D}" + since);
    Utf8Append("\U{201D}", since);
    MarkBytes();
    assert Utf8(output + ("\U{201D}" + since)) + Titled(Utf8(title)) == plain + ([C1_OSC] + payload + [BEL]);
    TameBytes(output);
    assert forall c :: c in since || c in title ==> c in since + title;
    TameBytes(since);
    TameBytes(title);
    PlainStaysOnGround(plain);
    OpensInside(Utf8(since), Utf8(title));
    RunTitle([C1_OSC], payload, [BEL]);
    RunAppend(Ground, plain, [C1_OSC] + payload + [BEL]);
  }

  lemma OpensInside(since: seq<Byte>, title: seq<Byte>)
    requires ESC !in since && BEL !in since && C1_ST !in since && ESC !in title && BEL !in title && C1_ST !in title
    ensures Opens([C1_OSC], since + ([ESC, RIGHT_BRACKET] + title))
  {
    var payload := since + ([ESC, RIGHT_BRACKET] + title);
    assert forall b :: b in payload ==> b in since || b == ESC || b == RIGHT_BRACKET || b in title;
    forall i: nat | i < |payload|
      ensures TerminatorAt(payload, i) == 0
    {
      assert payload[i] in payload;
      assert i < |since| ==> payload[i] == since[i];
      assert i >= |since| + 2 ==> payload[i] == title[i - |since| - 2];
    }
  }

  /** Right after the mark it updates no title, whatever the title is: decoded, the payload starts with ESC. */
  lemma HiddenTitleIsNoUpdate(title: string, decode: seq<Byte> -> string)
    requires decode([ESC, RIGHT_BRACKET] + Utf8(title)) == [ESC as char, ']'] + title
    ensures ParseTitlePayload(decode([ESC, RIGHT_BRACKET] + Utf8(title))) == None
  {
    hide Utf8, ParseTitlePayload;
    var payload := [ESC as char, ']'] + title;
    assert payload[0] == ESC as char;
    if ParseTitlePayload(payload) != None {
      OtherPayloadsIgnored(payload);
    }
  }

  /** What an opening mark makes of its title: the title ends before it, with two bytes of the mark. */
  lemma OpeningMarkCuts(before: string, rest: string)
    requires Tame(before) && Tame(rest)
    requires (forall c :: c in before ==> !Cuts(c)) && forall c :: c in rest ==> !Opening(c)
    ensures var payload := Utf8(before) + [0xE2, 0x80];
      Run(Ground, Titled(Utf8(before + ("\U{201C}" + rest)))).done ==
      [Sequence([ESC, RIGHT_BRACKET] + payload + [C1_ST], payload)]
  {
    hide Run, Read, Utf8, Cuts, Opening;
    var payload := Utf8(before) + [0xE2, 0x80];
    var cut, more := [ESC, RIGHT_BRACKET] + payload + [C1_ST], Utf8(rest) + [BEL];
    Utf8Append(before, "\U{201C}" + rest);
    Utf8Append("\U{201C}", rest);
    MarkBytes();
    assert Titled(Utf8(before + ("\U{201C}" + rest))) == cut + more;
    TameBytes(before);
    TameBytes(rest);
    assert forall i: nat :: i < |payload| ==> payload[i] in payload;
    RunTitle([ESC, RIGHT_BRACKET], payload, [C1_ST]);
    PlainStaysOnGround(more);
    RunAppend(Ground, cut, more);
  }
}
