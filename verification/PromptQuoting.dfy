/** Commands that hand a prompt or a file to an agent (packages/shared/src/agent-prompt-launch.ts), and
    the shells that read them: here-documents (POSIX Shell Command Language, section 2.7.4), command
    substitution (section 2.6.3), single quotes (section 2.2.2), and PowerShell's verbatim strings
    (PowerShell Language Specification, section 2.3.5.2). A missing suffix is the empty string. */
module PromptQuoting {
  import opened Wrappers
  import opened Bytes

  datatype Transport = Argv | Stdin

  // ----- the delimiter -----

  ghost predicate Includes(s: string, part: string) {
    exists i :: OccursAt(s, part, i)
  }

  predicate OccursAt(s: string, part: string, i: int) {
    0 <= i <= i + |part| <= |s| && s[i..i + |part|] == part
  }

  method IncludesText(s: string, part: string) returns (found: bool)
    ensures found <==> Includes(s, part)
  {
    for i := 0 to |s| + 1
      invariant forall k :: 0 <= k < i ==> !OccursAt(s, part, k)
    {
      if OccursAt(s, part, i) {
        return true;
      }
    }
    found := false;
  }

  function WithoutDashes(s: string): string {
    if s == "" then "" else (if s[0] == '-' then "" else [s[0]]) + WithoutDashes(s[1..])
  }

  function Extended(base: string, n: nat): string {
    if n == 0 then base else Extended(base, n - 1) + "_X"
  }

  function FirstDelimiter(randomId: string): string {
    "SUPERSET_PROMPT_" + WithoutDashes(randomId)
  }

  lemma {:induction false} DashesAppend(a: string, b: string)
    ensures WithoutDashes(a + b) == WithoutDashes(a) + WithoutDashes(b)
  {
    if a == "" {
      assert a + b == b;
    } else {
      var first := if a[0] == '-' then "" else [a[0]];
      assert (a + b)[1..] == a[1..] + b && (a + b)[0] == a[0];
      DashesAppend(a[1..], b);
      assert WithoutDashes(a + b) == first + WithoutDashes(a[1..] + b);
      hide WithoutDashes;
      ConcatAssociates(first, WithoutDashes(a[1..]), WithoutDashes(b));
    }
  }

  lemma {:induction false} Dashless(a: string)
    requires '-' !in a
    ensures WithoutDashes(a) == a
  {
    if a == "" {
    } else {
      Dashless(a[1..]);
      assert a == [a[0]] + a[1..];
    }
  }

  lemma DashLeftOut(a: string, b: string)
    requires '-' !in a
    ensures WithoutDashes(a) == a && WithoutDashes(a + ("-" + b)) == a + WithoutDashes(b)
  {
    hide WithoutDashes;
    Dashless(a);
    DashesAppend(a, "-" + b);
    DashesAppend("-", b);
    assert WithoutDashes("-") == "" by { OneDash(); }
    assert "" + WithoutDashes(b) == WithoutDashes(b);
  }

  lemma OneDash()
    ensures WithoutDashes("-") == ""
  {
    assert "-"[1..] == "";
    assert WithoutDashes("-") == "" + WithoutDashes("");
  }

  /** The first delimiter for a random UUID of five groups. */
  lemma DelimiterOfUuid(a: string, b: string, c: string, d: string, e: string)
    requires '-' !in a && '-' !in b && '-' !in c && '-' !in d && '-' !in e
    ensures FirstDelimiter(a + ("-" + (b + ("-" + (c + ("-" + (d + ("-" + e)))))))) ==
            "SUPERSET_PROMPT_" + (a + (b + (c + (d + e))))
  {
    hide WithoutDashes;
    DashLeftOut(a, b + ("-" + (c + ("-" + (d + ("-" + e))))));
    DashLeftOut(b, c + ("-" + (d + ("-" + e))));
    DashLeftOut(c, d + ("-" + e));
    DashLeftOut(d, e);
    DashLeftOut(e, "");
  }

  /** The search for a delimiter ends, with the shortest extension of the first that does not occur in
      the prompt. */
  method ResolveDelimiter(prompt: string, randomId: string) returns (delimiter: string)
    ensures !Includes(prompt, delimiter)
    ensures exists n: nat :: delimiter == Extended(FirstDelimiter(randomId), n)
              && forall k: nat :: k < n ==> Includes(prompt, Extended(FirstDelimiter(randomId), k))
  {
    delimiter := FirstDelimiter(randomId);
    ghost var n: nat := 0;
    var found := IncludesText(prompt, delimiter);
    while found
      invariant found <==> Includes(prompt, delimiter)
      invariant delimiter == Extended(FirstDelimiter(randomId), n)
      invariant forall k: nat :: k < n ==> Includes(prompt, Extended(FirstDelimiter(randomId), k))
      decreases |prompt| - |delimiter|
    {
      delimiter := delimiter + "_X";
      n := n + 1;
      found := IncludesText(prompt, delimiter);
    }
  }

  // Every extension adds an underscore and an X.
  lemma {:induction false} ExtendedBy(base: string, n: nat)
    ensures |Extended(base, n)| == |base| + 2 * n && base <= Extended(base, n)
    ensures forall i :: 0 <= i < n ==> Extended(base, n)[|base| + 2 * i] == '_' && Extended(base, n)[|base| + 2 * i + 1] == 'X'
    decreases n
  {
    if n == 0 {
    } else {
      ExtendedBy(base, n - 1);
    }
  }

  // What may stand between quotes on a line of its own.
  predicate Plain(s: string) {
    forall i :: 0 <= i < |s| ==> s[i] != '\n' && s[i] != '\''
  }

  lemma {:induction false} PlainDelimiter(randomId: string, n: nat)
    requires Plain(randomId)
    ensures Plain(Extended(FirstDelimiter(randomId), n))
    decreases n
  {
    if n == 0 {
      DashlessIsPlain(randomId);
    } else {
      PlainDelimiter(randomId, n - 1);
    }
  }

  lemma {:induction false} DashlessIsPlain(s: string)
    requires Plain(s)
    ensures Plain(WithoutDashes(s))
  {
    if s == "" {
    } else {
      DashlessIsPlain(s[1..]);
    }
  }

  // ----- here-documents and command substitution -----

  function FirstOf(s: string, c: char): (k: nat)
    ensures k <= |s| && (k < |s| ==> s[k] == c) && forall i :: 0 <= i < k ==> s[i] != c
  {
    if s == "" || s[0] == c then 0 else 1 + FirstOf(s[1..], c)
  }

  lemma FirstOfAt(s: string, c: char, k: nat)
    requires k <= |s| && (k < |s| ==> s[k] == c) && forall i :: 0 <= i < k ==> s[i] != c
    ensures FirstOf(s, c) == k
  {
  }

  // The lines up to one that is the delimiter alone, and what follows that line's text.
  function ReadHereDocument(text: string, delimiter: string): Option<(string, string)>
    decreases |text|
  {
    var k := FirstOf(text, '\n');
    if text[..k] == delimiter then Some(("", text[k..]))
    else if k == |text| then None
    else
      var more := ReadHereDocument(text[k + 1..], delimiter);
      if more.None? then None else Some((text[..k + 1] + more.value.0, more.value.1))
  }

  lemma FirstLine(prompt: string, tail: string)
    ensures var text, k := prompt + ("\n" + tail), FirstOf(prompt, '\n');
      && FirstOf(text, '\n') == k < |text| && text[..k] == prompt[..k]
      && (k == |prompt| ==> text[k + 1..] == tail && text[..k + 1] == prompt + "\n")
      && (k < |prompt| ==> text[k + 1..] == prompt[k + 1..] + ("\n" + tail) && text[..k + 1] == prompt[..k + 1])
  {
    hide FirstOf;
    var text, k := prompt + ("\n" + tail), FirstOf(prompt, '\n');
    assert forall i :: 0 <= i < k ==> text[i] == prompt[i];
    assert text[k] == '\n';
    FirstOfAt(text, '\n', k);
    if k == |prompt| {
      CutsAfter(prompt, "\n", tail);
    } else {
      CutsInside(prompt, "\n" + tail, k + 1);
    }
    CutsInside(prompt, "\n" + tail, k);
  }

  lemma CutsInside(a: string, b: string, k: nat)
    requires k <= |a|
    ensures (a + b)[..k] == a[..k] && (a + b)[k..] == a[k..] + b
  {
  }

  lemma CutsAfter(a: string, b: string, c: string)
    ensures (a + (b + c))[..|a| + |b|] == a + b && (a + (b + c))[|a| + |b|..] == c
  {
  }

  lemma LastLine(delimiter: string, rest: string)
    requires Plain(delimiter) && (rest != "" ==> rest[0] == '\n')
    ensures ReadHereDocument(delimiter + rest, delimiter) == Some(("", rest))
  {
    var text := delimiter + rest;
    FirstOfAt(text, '\n', |delimiter|);
    assert text[..|delimiter|] == delimiter && text[|delimiter|..] == rest;
  }

  /** The reader of a here-document gets the prompt and a newline, whatever the prompt's lines are. */
  lemma {:induction false} HereDocumentReadsBack(prompt: string, delimiter: string, rest: string)
    requires !Includes(prompt, delimiter) && Plain(delimiter) && (rest != "" ==> rest[0] == '\n')
    ensures ReadHereDocument(prompt + ("\n" + (delimiter + rest)), delimiter) == Some((prompt + "\n", rest))
    decreases |prompt|
  {
    hide Includes, FirstOf, Plain;
    var k := FirstOf(prompt, '\n');
    FirstLine(prompt, delimiter + rest);
    LineIncluded(prompt, k);
    LastLine(delimiter, rest);
    if k == |prompt| {
      assert (prompt + "\n") + "" == prompt + "\n";
    } else {
      TailIncludes(prompt, k + 1, delimiter);
      HereDocumentReadsBack(prompt[k + 1..], delimiter, rest);
      assert prompt[..k + 1] + (prompt[k + 1..] + "\n") == prompt + "\n";
    }
  }

  lemma LineIncluded(s: string, k: nat)
    requires k <= |s|
    ensures Includes(s, s[..k])
  {
    assert OccursAt(s, s[..k], 0);
  }

  lemma TailIncludes(s: string, k: nat, part: string)
    requires k <= |s|
    ensures Includes(s[k..], part) ==> Includes(s, part)
  {
    if i :| OccursAt(s[k..], part, i) {
      assert s[k..][i..i + |part|] == s[k + i..k + i + |part|];
      assert OccursAt(s, part, k + i);
    }
  }

  function StripNewlines(s: string): string {
    if s != "" && s[|s| - 1] == '\n' then StripNewlines(s[..|s| - 1]) else s
  }

  // The prompt part of a command that reads it from standard input.
  function HereDocument(prompt: string, delimiter: string): string {
    "<<'" + delimiter + "'\n" + prompt + "\n" + delimiter
  }

  // What a shell makes of it: the quoted delimiter, a newline, and the document.
  function ReadRedirection(text: string): Option<(string, string)> {
    if !("<<'" <= text) then None
    else
      var after := text[3..];
      var k := FirstOf(after, '\'');
      if |after| < k + 2 || after[k + 1] != '\n' then None else ReadHereDocument(after[k + 2..], after[..k])
  }

  lemma RedirectionReadsBack(prompt: string, delimiter: string, rest: string)
    requires !Includes(prompt, delimiter) && Plain(delimiter) && (rest != "" ==> rest[0] == '\n')
    ensures ReadRedirection(HereDocument(prompt, delimiter) + rest) == Some((prompt + "\n", rest))
  {
    hide ReadHereDocument, Includes;
    var text := HereDocument(prompt, delimiter) + rest;
    var document := prompt + ("\n" + (delimiter + rest));
    var after := delimiter + ("'\n" + document);
    assert text[3..] == after;
    FirstOfAt(after, '\'', |delimiter|);
    assert after[..|delimiter|] == delimiter && after[|delimiter| + 2..] == document;
    HereDocumentReadsBack(prompt, delimiter, rest);
  }

  // A quoted command substitution of `cat`, which copies its input: its output without the newlines
  // at the end, and what follows.
  function ReadCatSubstitution(text: string): Option<(string, string)> {
    var open, close := "\"$(cat ", "\n)\"";
    if !(open <= text) then None
    else
      var document := ReadRedirection(text[|open|..]);
      if document.None? || !(close <= document.value.1) then None
      else Some((StripNewlines(document.value.0), document.value.1[|close|..]))
  }

  lemma StrippedPrompt(prompt: string)
    ensures StripNewlines(prompt + "\n") == StripNewlines(prompt)
    ensures StripNewlines(prompt) == prompt <==> prompt == "" || prompt[|prompt| - 1] != '\n'
  {
    assert (prompt + "\n")[..|prompt|] == prompt;
    StripShortens(prompt);
    if prompt != "" {
      StripShortens(prompt[..|prompt| - 1]);
    }
  }

  lemma {:induction false} StripShortens(s: string)
    ensures |StripNewlines(s)| <= |s|
  {
    if s != "" && s[|s| - 1] == '\n' {
      StripShortens(s[..|s| - 1]);
    }
  }

  // ----- POSIX single quotes -----

  function QuoteSingleShell(value: string): string {
    if value == "" then "" else (if value[0] == '\'' then "'\\''" else [value[0]]) + QuoteSingleShell(value[1..])
  }

  // Reads the rest of a word of single-quoted and backslash-quoted characters, from inside quotes or
  // outside them, to its end.
  function ReadWord(s: string, quoted: bool): Option<(string, string)> {
    if quoted then
      if s == "" then None
      else if s[0] == '\'' then ReadWord(s[1..], false)
      else Prepend(s[0], ReadWord(s[1..], true))
    else if s == "" then Some(("", s))
    else if s[0] == '\'' then ReadWord(s[1..], true)
    else if s[0] == '\\' && |s| > 1 then
      if s[1] == '\n' then ReadWord(s[2..], false) else Prepend(s[1], ReadWord(s[2..], false))
    else Some(("", s))
  }

  function Prepend(c: char, r: Option<(string, string)>): Option<(string, string)> {
    if r.None? then None else Some(([c] + r.value.0, r.value.1))
  }

  // The end of a word that has no more quotes.
  predicate WordEnds(rest: string) {
    rest == "" || (rest[0] != '\'' && rest[0] != '\\')
  }

  lemma EscapedQuote(more: string)
    ensures ReadWord("'\\''" + more, true) == Prepend('\'', ReadWord(more, true))
  {
    var s := "'\\''" + more;
    var t := s[1..];
    var u := t[2..];
    assert t[0] == '\\' && t[1] == '\'' && u[0] == '\'' && u[1..] == more;
    assert ReadWord(s, true) == ReadWord(t, false);
    assert ReadWord(t, false) == Prepend('\'', ReadWord(u, false));
  }

  lemma {:induction false} QuotedReadsBack(value: string, rest: string)
    requires WordEnds(rest)
    ensures ReadWord(QuoteSingleShell(value) + ("'" + rest), true) == Some((value, rest))
  {
    var s := QuoteSingleShell(value) + ("'" + rest);
    if value == "" {
      assert s == "'" + rest && s[1..] == rest;
    } else {
      var more := QuoteSingleShell(value[1..]) + ("'" + rest);
      QuotedReadsBack(value[1..], rest);
      assert value == [value[0]] + value[1..];
      if value[0] == '\'' {
        assert s == "'\\''" + more;
        EscapedQuote(more);
      } else {
        assert s == [value[0]] + more && s[1..] == more;
      }
    }
  }

  /** A shell reads the quoted value back as given, whatever characters it has. */
  lemma ShellReadsBack(value: string, rest: string)
    requires WordEnds(rest)
    ensures ReadWord("'" + QuoteSingleShell(value) + "'" + rest, false) == Some((value, rest))
  {
    var s := "'" + QuoteSingleShell(value) + "'" + rest;
    assert s[1..] == QuoteSingleShell(value) + ("'" + rest);
    QuotedReadsBack(value, rest);
  }

  // ----- PowerShell verbatim strings -----

  predicate Typographic(c: char) {
    '\U{2018}' <= c <= '\U{201B}'
  }

  predicate SingleQuote(c: char) {
    c == '\'' || Typographic(c)
  }

  function QuoteSinglePowerShell(value: string): string {
    if value == "" then "" else (if value[0] == '\'' then "''" else [value[0]]) + QuoteSinglePowerShell(value[1..])
  }

  // Reads the rest of a verbatim string: two quotes in a row stand for the second of them, and one
  // ends the string.
  function ReadVerbatim(s: string): Option<(string, string)> {
    if s == "" then None
    else if !SingleQuote(s[0]) then Prepend(s[0], ReadVerbatim(s[1..]))
    else if |s| > 1 && SingleQuote(s[1]) then Prepend(s[1], ReadVerbatim(s[2..]))
    else Some(("", s[1..]))
  }

  predicate NoTypographicQuotes(s: string) {
    forall i :: 0 <= i < |s| ==> !Typographic(s[i])
  }

  // Two for each ordinary character, one for each quote.
  function Weight(s: string): nat {
    if s == "" then 0 else (if SingleQuote(s[0]) then 1 else 2) + Weight(s[1..])
  }

  lemma {:induction false} VerbatimWeight(s: string)
    ensures var r := ReadVerbatim(s); r.Some? ==> Weight(s) == 2 * |r.value.0| + 1 + Weight(r.value.1)
    decreases |s|
  {
    if s == "" {
    } else {
      if !SingleQuote(s[0]) {
        VerbatimWeight(s[1..]);
      } else if |s| > 1 && SingleQuote(s[1]) {
        assert s[1..][1..] == s[2..];
        VerbatimWeight(s[2..]);
      }
    }
  }

  lemma {:induction false} WeightOfQuoted(value: string, rest: string)
    ensures Weight(QuoteSinglePowerShell(value) + rest) <= 2 * |value| + Weight(rest)
    ensures NoTypographicQuotes(value) <==> Weight(QuoteSinglePowerShell(value) + rest) == 2 * |value| + Weight(rest)
  {
    var s := QuoteSinglePowerShell(value) + rest;
    if value == "" {
      assert s == rest;
    } else {
      var more := QuoteSinglePowerShell(value[1..]) + rest;
      WeightOfQuoted(value[1..], rest);
      assert value == [value[0]] + value[1..];
      if value[0] == '\'' {
        assert s == "''" + more;
        assert s[1..] == "'" + more && ("'" + more)[1..] == more;
        assert Weight("'" + more) == 1 + Weight(more);
      } else {
        assert s == [value[0]] + more && s[1..] == more;
      }
      assert NoTypographicQuotes(value) <==> !Typographic(value[0]) && NoTypographicQuotes(value[1..]);
    }
  }

  lemma {:induction false} VerbatimReadsBack(value: string, rest: string)
    requires NoTypographicQuotes(value) && (rest != "" ==> !SingleQuote(rest[0]))
    ensures ReadVerbatim(QuoteSinglePowerShell(value) + ("'" + rest)) == Some((value, rest))
  {
    var s := QuoteSinglePowerShell(value) + ("'" + rest);
    if value == "" {
      assert s == "'" + rest && s[1..] == rest;
    } else {
      var more := QuoteSinglePowerShell(value[1..]) + ("'" + rest);
      VerbatimReadsBack(value[1..], rest);
      assert value == [value[0]] + value[1..];
      if value[0] == '\'' {
        assert s == "''" + more && s[2..] == more;
      } else {
        assert s == [value[0]] + more && s[1..] == more;
      }
    }
  }

  function Verbatim(value: string): string {
    "'" + QuoteSinglePowerShell(value) + "'"
  }

  function ReadLiteral(s: string): Option<(string, string)> {
    if s != "" && s[0] == '\'' then ReadVerbatim(s[1..]) else None
  }

  /** PowerShell reads a verbatim string back as given exactly when the value has no typographic single
      quote: PowerShell takes those for quotes too, and only the ASCII one is doubled. */
  lemma PowerShellReadsBackIff(value: string, rest: string)
    requires rest != "" ==> !SingleQuote(rest[0])
    ensures ReadLiteral(Verbatim(value) + rest) == Some((value, rest)) <==> NoTypographicQuotes(value)
  {
    hide ReadVerbatim, QuoteSinglePowerShell, NoTypographicQuotes, Weight;
    var s := QuoteSinglePowerShell(value) + ("'" + rest);
    assert (Verbatim(value) + rest)[0] == '\'' && (Verbatim(value) + rest)[1..] == s;
    if NoTypographicQuotes(value) {
      VerbatimReadsBack(value, rest);
    }
    VerbatimWeight(s);
    WeightOfQuoted(value, "'" + rest);
    QuoteWeighsOne(rest);
  }

  lemma QuoteWeighsOne(rest: string)
    ensures Weight("'" + rest) == 1 + Weight(rest)
  {
    assert ("'" + rest)[1..] == rest;
  }

  // ----- the commands -----

  function JoinCommand(command: string, suffix: string): string {
    if suffix == "" then command else command + " " + suffix
  }

  function Suffix(suffix: string): string {
    if suffix == "" then "" else " " + suffix
  }

  // A suffix is a last argument, wherever the prompt comes from; without one nothing is added.
  lemma SuffixIsLast(command: string, suffix: string)
    ensures suffix != "" ==> JoinCommand(command, suffix) == command + (" " + suffix) && Suffix(suffix) == " " + suffix
    ensures JoinCommand(command, "") == command && Suffix("") == ""
  {
    assert command + (" " + suffix) == command + " " + suffix;
  }

  function PosixPromptCommand(command: string, suffix: string, transport: Transport, prompt: string, delimiter: string): string {
    if transport == Stdin then JoinCommand(command, suffix) + " " + HereDocument(prompt, delimiter)
    else command + " \"$(cat " + HereDocument(prompt, delimiter) + "\n)\"" + Suffix(suffix)
  }

  function PowerShellPromptCommand(command: string, suffix: string, transport: Transport, prompt: string): string {
    if transport == Stdin then Verbatim(prompt) + " | " + JoinCommand(command, suffix)
    else command + " " + Verbatim(prompt) + Suffix(suffix)
  }

  datatype CommandShell = Posix | PowerShell

  // What the agent gets. With `argv` a POSIX shell drops the newlines at the end of the prompt.
  function Delivered(prompt: string, transport: Transport): string {
    if transport == Stdin then prompt + "\n" else StripNewlines(prompt)
  }

  // How a POSIX shell reads what stands after the command and a space.
  function ReadPosixPrompt(text: string, transport: Transport): Option<(string, string)> {
    if transport == Stdin then ReadRedirection(text) else ReadCatSubstitution(text)
  }

  /** A POSIX shell hands over the prompt: on standard input with a newline after it; as an argument
      without the newlines at its end, so exactly as it is if and only if it does not end in one. */
  lemma PosixDelivers(command: string, suffix: string, transport: Transport, prompt: string, delimiter: string)
    requires !Includes(prompt, delimiter) && Plain(delimiter)
    ensures var before := if transport == Stdin then JoinCommand(command, suffix) else command;
      var after := if transport == Stdin then "" else Suffix(suffix);
      var text := PosixPromptCommand(command, suffix, transport, prompt, delimiter);
      && before + " " <= text
      && ReadPosixPrompt(text[|before| + 1..], transport) == Some((Delivered(prompt, transport), after))
    ensures Delivered(prompt, Argv) == prompt <==> prompt == "" || prompt[|prompt| - 1] != '\n'
  {
    hide ReadRedirection, HereDocument, StripNewlines, JoinCommand, Suffix;
    StrippedPrompt(prompt);
    var h := HereDocument(prompt, delimiter);
    var text := PosixPromptCommand(command, suffix, transport, prompt, delimiter);
    if transport == Stdin {
      RedirectionReadsBack(prompt, delimiter, "");
      assert text[|JoinCommand(command, suffix)| + 1..] == h + "";
    } else {
      var open, close := "\"$(cat ", "\n)\"";
      var after := Suffix(suffix);
      var argument := open + (h + (close + after));
      assert text == command + " " + argument;
      assert text[|command| + 1..] == argument && argument[|open|..] == h + (close + after);
      RedirectionReadsBack(prompt, delimiter, close + after);
      assert (close + after)[|close|..] == after;
    }
  }

  // The text is `before`, the literal, and `after`.
  lemma LiteralWithin(before: string, value: string, after: string, text: string)
    requires text == before + Verbatim(value) + after && (after != "" ==> !SingleQuote(after[0]))
    ensures before <= text
    ensures ReadLiteral(text[|before|..]) == Some((value, after)) <==> NoTypographicQuotes(value)
  {
    hide Verbatim, ReadLiteral, NoTypographicQuotes;
    assert text[|before|..] == Verbatim(value) + after;
    PowerShellReadsBackIff(value, after);
  }

  /** In the command for either transport, PowerShell reads the literal back as the prompt, with what follows left
      over, exactly when the prompt has no typographic single quote. On standard input the pipeline then adds
      a line end of its own. */
  lemma PowerShellDeliversIff(command: string, suffix: string, transport: Transport, prompt: string)
    ensures var text := PowerShellPromptCommand(command, suffix, transport, prompt);
      var before := if transport == Stdin then "" else command + " ";
      var after := if transport == Stdin then " | " + JoinCommand(command, suffix) else Suffix(suffix);
      && before <= text
      && (ReadLiteral(text[|before|..]) == Some((prompt, after)) <==> NoTypographicQuotes(prompt))
  {
    hide Verbatim, ReadLiteral, NoTypographicQuotes, JoinCommand;
    var text := PowerShellPromptCommand(command, suffix, transport, prompt);
    if transport == Stdin {
      assert text == "" + Verbatim(prompt) + (" | " + JoinCommand(command, suffix));
      LiteralWithin("", prompt, " | " + JoinCommand(command, suffix), text);
    } else {
      LiteralWithin(command + " ", prompt, Suffix(suffix), text);
    }
  }

  method BuildPromptCommandString(command: string, suffix: string, transport: Transport, prompt: string, randomId: string,
                                  shell: CommandShell)
    returns (text: string)
    ensures shell == PowerShell ==> text == PowerShellPromptCommand(command, suffix, transport, prompt)
    ensures shell == Posix ==>
      exists n: nat ::
        var delimiter := Extended(FirstDelimiter(randomId), n);
        && text == PosixPromptCommand(command, suffix, transport, prompt, delimiter)
        && !Includes(prompt, delimiter) && (Plain(randomId) ==> Plain(delimiter))
  {
    if shell == PowerShell {
      return PowerShellPromptCommand(command, suffix, transport, prompt);
    }
    var delimiter := ResolveDelimiter(prompt, randomId);
    ghost var n: nat :| delimiter == Extended(FirstDelimiter(randomId), n);
    if Plain(randomId) {
      PlainDelimiter(randomId, n);
    }
    text := PosixPromptCommand(command, suffix, transport, prompt, delimiter);
  }

  // The same for a file that holds the prompt.
  const GET_CONTENT := "Get-Content -Raw -LiteralPath "

  function PosixFileCommand(command: string, suffix: string, transport: Transport, filePath: string): string {
    var word := "'" + QuoteSingleShell(filePath) + "'";
    if transport == Stdin then JoinCommand(command, suffix) + " < " + word
    else command + " \"$(cat " + word + ")\"" + Suffix(suffix)
  }

  function PowerShellFileCommand(command: string, suffix: string, transport: Transport, filePath: string): string {
    if transport == Stdin then GET_CONTENT + Verbatim(filePath) + " | " + JoinCommand(command, suffix)
    else command + " (" + GET_CONTENT + Verbatim(filePath) + ")" + Suffix(suffix)
  }

  /** A POSIX shell reads the path in a command for a file back as given, whatever it is. */
  lemma PosixFilePath(command: string, suffix: string, transport: Transport, filePath: string)
    ensures var text := PosixFileCommand(command, suffix, transport, filePath);
      var before := if transport == Stdin then JoinCommand(command, suffix) + " < " else command + " \"$(cat ";
      var after := if transport == Stdin then "" else ")\"" + Suffix(suffix);
      before <= text && ReadWord(text[|before|..], false) == Some((filePath, after))
  {
    hide ReadWord, QuoteSingleShell, JoinCommand, Suffix;
    var text := PosixFileCommand(command, suffix, transport, filePath);
    var before := if transport == Stdin then JoinCommand(command, suffix) + " < " else command + " \"$(cat ";
    var after := if transport == Stdin then "" else ")\"" + Suffix(suffix);
    var word := "'" + QuoteSingleShell(filePath) + "'";
    assert text == before + (word + after);
    assert text[|before|..] == word + after;
    ShellReadsBack(filePath, after);
  }

  /** PowerShell reads it back exactly when it has no typographic single quote. */
  lemma PowerShellFilePathIff(command: string, suffix: string, transport: Transport, filePath: string)
    ensures var text := PowerShellFileCommand(command, suffix, transport, filePath);
      var before := if transport == Stdin then GET_CONTENT else command + " (" + GET_CONTENT;
      var after := if transport == Stdin then " | " + JoinCommand(command, suffix) else ")" + Suffix(suffix);
      && before <= text
      && (ReadLiteral(text[|before|..]) == Some((filePath, after)) <==> NoTypographicQuotes(filePath))
  {
    hide Verbatim, ReadLiteral, NoTypographicQuotes, JoinCommand, Suffix, GET_CONTENT;
    var text := PowerShellFileCommand(command, suffix, transport, filePath);
    if transport == Stdin {
      var after := " | " + JoinCommand(command, suffix);
      assert text == GET_CONTENT + Verbatim(filePath) + after;
      LiteralWithin(GET_CONTENT, filePath, after, text);
    } else {
      var before, after := command + " (" + GET_CONTENT, ")" + Suffix(suffix);
      assert text == before + Verbatim(filePath) + after;
      LiteralWithin(before, filePath, after, text);
    }
  }
}
