/**
 * Printing labels and reading them back.
 *
 * Any spelling of a label the decoder accepts, in a list printed with `", "`, comes back from the
 * lexer as exactly that label; the token printer's output is one such spelling.
 */
module LabelRoundTrip {
  import opened Text
  import opened LabelTokens

  // ---- tokens that survive concatenation ----------------------------------------------------

  /** No comma outside quotes. */
  predicate NoTopComma(q: Quote, s: string)
    decreases |s|
  {
    s == "" || (!(q == Out && s[0] == ',') && NoTopComma(Delta(q, s[0]), s[1..]))
  }

  lemma {:induction false} NoTopCommaConcat(q: Quote, a: string, b: string)
    ensures NoTopComma(q, a + b) <==> NoTopComma(q, a) && NoTopComma(Run(q, a), b)
    decreases |a|
  {
    if a == "" {
      assert a + b == b;
    } else {
      assert (a + b)[1..] == a[1..] + b;
      NoTopCommaConcat(Delta(q, a[0]), a[1..], b);
    }
  }

  /** A token as the lexer delivers it: trimmed, quotes closed, no comma outside them. */
  ghost predicate Atom(t: string) {
    t != "" && Trimmed(t) && Run(Out, t) == Out && NoTopComma(Out, t)
  }

  /** An atom that holds no comment even when white space precedes it. */
  ghost predicate Clean(t: string) {
    Atom(t) && NoComment(Out, true, t)
  }

  lemma {:induction false} ChunksAtom(q: Quote, cur: string, a: string, b: string)
    requires NoTopComma(q, a) && Run(q, a) == Out
    ensures Chunks(q, cur, a) == Some([cur + a])
    ensures Chunks(q, cur, a + "," + b) == PushFront([cur + a], Chunks(Out, "", b))
    decreases |a|
  {
    if a == "" {
      assert cur + a == cur && (a + "," + b)[1..] == b;
    } else {
      ChunksAtom(Delta(q, a[0]), cur + [a[0]], a[1..], b);
      assert cur + [a[0]] + a[1..] == cur + a;
      assert (a + "," + b)[1..] == a[1..] + "," + b;
    }
  }

  // ---- joined lists ---------------------------------------------------------------------------

  function Raws(ts: seq<Token>): (r: seq<string>)
    ensures |r| == |ts| && forall i :: 0 <= i < |ts| ==> r[i] == ts[i].raw
  {
    seq(|ts|, i requires 0 <= i < |ts| => ts[i].raw)
  }

  function Values(ts: seq<Token>): (r: seq<string>)
    ensures |r| == |ts| && forall i :: 0 <= i < |ts| ==> r[i] == ts[i].value
  {
    seq(|ts|, i requires 0 <= i < |ts| => ts[i].value)
  }

  ghost predicate TokensValid(ts: seq<Token>) {
    forall i :: 0 <= i < |ts| ==> Atom(ts[i].raw) && Unquote(ts[i].raw) == Some(ts[i].value)
  }

  ghost predicate Atoms(parts: seq<string>) {
    forall i :: 0 <= i < |parts| ==> Atom(parts[i])
  }

  ghost predicate NoComments(parts: seq<string>) {
    forall i :: 0 <= i < |parts| ==> NoComment(Out, true, parts[i])
  }

  /** One padded chunk in front of other chunks is one token in front of theirs. */
  lemma TokenInFront(t: Token, pad: string, cs: seq<string>)
    requires Atom(t.raw) && Unquote(t.raw) == Some(t.value) && AllWs(pad)
    ensures TokensOf([pad + t.raw] + cs) == PushFront([t], TokensOf(cs))
  {
    assert pad + t.raw + "" == pad + t.raw;
    TrimPadded(pad, t.raw, "");
    assert ([pad + t.raw] + cs)[1..] == cs;
  }

  lemma FirstChunk(pad: string, raw: string, tail: string)
    requires Atom(raw)
    ensures Chunks(Out, pad, raw + ", " + tail) == PushFront([pad + raw], Chunks(Out, " ", tail))
  {
    assert raw + ", " + tail == raw + "," + (" " + tail);
    ChunksAtom(Out, pad, raw, " " + tail);
    assert (" " + tail)[1..] == tail && "" + " " == " ";
  }

  lemma {:induction false} ChunksOfJoin(ts: seq<Token>, pad: string)
    requires TokensValid(ts) && ts != [] && AllWs(pad)
    ensures var cs := Chunks(Out, pad, Join(Raws(ts), ", "));
            cs.Some? && TokensOf(cs.value) == Some(ts)
    decreases |ts|
  {
    var raw, rest := ts[0].raw, Raws(ts)[1..];
    if |ts| == 1 {
      ChunksAtom(Out, pad, raw, "");
      assert [pad + raw] == [pad + raw] + [];
      TokenInFront(ts[0], pad, []);
      assert [ts[0]] + [] == ts;
    } else {
      var tail := Join(rest, ", ");
      assert Join(Raws(ts), ", ") == raw + ", " + tail;
      assert Raws(ts[1..]) == rest;
      ChunksOfJoin(ts[1..], " ");
      FirstChunk(pad, raw, tail);
      TokenInFront(ts[0], pad, Chunks(Out, " ", tail).value);
      assert [ts[0]] + ts[1..] == ts;
    }
  }

  /** A list of atoms printed with `", "` tokenizes back to itself. */
  lemma TokenizeJoin(ts: seq<Token>)
    requires TokensValid(ts)
    ensures Tokenize(Join(Raws(ts), ", ")) == Some(ts)
  {
    if ts == [] {
      assert Chunks(Out, "", "") == Some([""]);
      assert TokensOf([""][1..]) == Some([]);
    } else {
      ChunksOfJoin(ts, "");
    }
  }

  lemma CleanSeparator(a: string, b: string)
    requires Run(Out, a) == Out && a != ""
    ensures Run(Out, a + ", " + b) == Run(Out, b)
    ensures NoComment(Out, true, a + ", " + b) <==> NoComment(Out, true, a) && NoComment(Out, true, b)
  {
    var sep := ", ";
    assert Run(Out, sep) == Run(Out, sep[1..]) == Run(Out, sep[1..][1..]) == Out;
    assert forall gap :: FindHash(Out, gap, sep) == 1 + FindHash(Out, false, sep[1..])
                      && FindHash(Out, false, sep[1..]) == 1 + FindHash(Out, true, sep[1..][1..]) == 1;
    RunConcat(Out, a, sep);
    RunConcat(Out, a + sep, b);
    FindHashConcat(Out, true, a, sep);
    FindHashConcat(Out, true, a + sep, b);
  }

  lemma {:induction false} JoinClean(parts: seq<string>)
    requires Atoms(parts)
    ensures Run(Out, Join(parts, ", ")) == Out
    ensures NoComment(Out, true, Join(parts, ", ")) <==> NoComments(parts)
    decreases |parts|
  {
    if |parts| > 1 {
      JoinClean(parts[1..]);
      CleanSeparator(parts[0], Join(parts[1..], ", "));
      assert NoComments(parts) <==> NoComment(Out, true, parts[0]) && NoComments(parts[1..]) by {
        assert forall i :: 0 < i < |parts| ==> parts[i] == parts[1..][i - 1];
      }
    }
  }

  lemma JoinTrimmed(parts: seq<string>)
    requires Atoms(parts)
    ensures Trimmed(Join(parts, ", "))
    ensures parts != [] ==> Join(parts, ", ") != "" && Join(parts, ", ")[0] == parts[0][0]
    decreases |parts|
  {
    if |parts| > 1 {
      JoinTrimmed(parts[1..]);
    }
  }

  // ---- spellings of a character inside double quotes ------------------------------------------

  datatype Spelling = Literal | Short(esc: char) | Hex(marker: char, digits: string)

  /** `sp` is a way to write `c` inside a double-quoted scalar. */
  predicate Spells(sp: Spelling, c: char) {
    match sp
    case Literal => c != '\\' && c != '"'
    case Short(e) => HexWidth(e) == 0 && SimpleEscape(e) == Some(c)
    case Hex(m, d) => HexWidth(m) == |d| > 0 && HexEscape(d) == Some(c)
  }

  function SpellChar(sp: Spelling, c: char): string {
    match sp
    case Literal => [c]
    case Short(e) => ['\\', e]
    case Hex(m, d) => ['\\', m] + d
  }

  ghost predicate SpellsAll(sps: seq<Spelling>, name: string) {
    |sps| == |name| && forall i :: 0 <= i < |sps| ==> Spells(sps[i], name[i])
  }

  function SpellAll(sps: seq<Spelling>, name: string): string
    requires |sps| == |name|
  {
    if sps == [] then "" else SpellChar(sps[0], name[0]) + SpellAll(sps[1..], name[1..])
  }

  lemma {:induction false} HexStaysQuoted(d: string, gap: bool)
    requires AllHex(d)
    ensures Run(Dq, d) == Dq && NoComment(Dq, gap, d) && NoTopComma(Dq, d)
    decreases |d|
  {
    if d != "" {
      HexStaysQuoted(d[1..], IsWs(d[0]));
    }
  }

  lemma SpellingStaysQuoted(sp: Spelling, c: char, gap: bool)
    requires Spells(sp, c)
    ensures var t := SpellChar(sp, c);
            Run(Dq, t) == Dq && NoComment(Dq, gap, t) && NoTopComma(Dq, t)
  {
    var t := SpellChar(sp, c);
    assert Run(Dq, t) == Run(Delta(Dq, t[0]), t[1..]);
    if sp.Literal? {
      assert t[1..] == "";
    } else {
      var body := t[2..];
      assert t[1..][1..] == body;
      assert AllHex(body);
      HexStaysQuoted(body, IsWs(t[1]));
    }
  }

  lemma {:induction false} SpellAllStaysQuoted(sps: seq<Spelling>, name: string, gap: bool)
    requires SpellsAll(sps, name)
    ensures var t := SpellAll(sps, name);
            Run(Dq, t) == Dq && NoComment(Dq, gap, t) && NoTopComma(Dq, t)
    decreases |sps|
  {
    if sps != [] {
      var a, b := SpellChar(sps[0], name[0]), SpellAll(sps[1..], name[1..]);
      SpellingStaysQuoted(sps[0], name[0], gap);
      SpellAllStaysQuoted(sps[1..], name[1..], GapAfter(gap, a));
      RunConcat(Dq, a, b);
      FindHashConcat(Dq, gap, a, b);
      NoTopCommaConcat(Dq, a, b);
    }
  }

  lemma DecodeSpelling(sp: Spelling, c: char, rest: string)
    requires Spells(sp, c)
    ensures DecodeDq(SpellChar(sp, c) + rest) == Prepend(c, DecodeDq(rest))
  {
    var t := SpellChar(sp, c) + rest;
    match sp
    case Literal =>
      assert t[1..] == rest;
    case Short(e) =>
      assert t[2..] == rest;
    case Hex(m, d) =>
      assert t[2..2 + |d|] == d && t[2 + |d|..] == rest;
  }

  lemma SpellAllUnfolds(sps: seq<Spelling>, name: string)
    requires |sps| == |name| > 0
    ensures SpellAll(sps, name) == SpellChar(sps[0], name[0]) + SpellAll(sps[1..], name[1..])
  {
  }

  lemma PrependTail(name: string)
    requires name != ""
    ensures Prepend(name[0], Some(name[1..])) == Some(name)
  {
    assert [name[0]] + name[1..] == name;
  }

  lemma {:induction false} DecodeSpelled(sps: seq<Spelling>, name: string)
    requires SpellsAll(sps, name)
    ensures DecodeDq(SpellAll(sps, name)) == Some(name)
    decreases |sps|
  {
    if sps != [] {
      var rest := SpellAll(sps[1..], name[1..]);
      DecodeSpelled(sps[1..], name[1..]);
      DecodeSpelling(sps[0], name[0], rest);
      SpellAllUnfolds(sps, name);
      PrependTail(name);
    }
  }

  /** `"…"` around a spelled label. */
  function QuotedSpelling(sps: seq<Spelling>, name: string): string
    requires |sps| == |name|
  {
    "\"" + SpellAll(sps, name) + "\""
  }

  /**
   * The lexer sees through every spelling: a double-quoted token is one clean token and decodes
   * to the label, whichever mix of literal characters, short escapes and hex escapes wrote it.
   */
  lemma SpelledTokenReadsBack(sps: seq<Spelling>, name: string)
    requires SpellsAll(sps, name)
    ensures Clean(QuotedSpelling(sps, name))
    ensures Unquote(QuotedSpelling(sps, name)) == Some(name)
  {
    var body, t := SpellAll(sps, name), QuotedSpelling(sps, name);
    SpellAllStaysQuoted(sps, name, false);
    assert t == "\"" + (body + "\"") && t[1..] == body + "\"";
    assert Run(Dq, "\"") == Run(Out, "\""[1..]);
    RunConcat(Dq, body, "\"");
    FindHashConcat(Dq, false, body, "\"");
    assert FindHash(Dq, GapAfter(false, body), "\"") == 1 + FindHash(Out, false, "\""[1..]);
    NoTopCommaConcat(Dq, body, "\"");
    DecodeSpelled(sps, name);
    assert t[1..|t| - 1] == body;
  }

  // ---- what the escapes mean ----------------------------------------------------------------------

  /** The one-character escapes of YAML 1.1, section 5.6. */
  const ESCAPES := map[
    '0' := '\U{0000}', 'a' := '\U{0007}', 'b' := '\U{0008}', 't' := '\U{0009}', '\t' := '\U{0009}', 'n' := '\U{000A}',
    'v' := '\U{000B}', 'f' := '\U{000C}', 'r' := '\U{000D}', 'e' := '\U{001B}', ' ' := '\U{0020}', '"' := '\U{0022}',
    '/' := '\U{002F}', '\\' := '\U{005C}', 'N' := '\U{0085}', '_' := '\U{00A0}', 'L' := '\U{2028}', 'P' := '\U{2029}']

  lemma EscapesAre(e: char)
    ensures SimpleEscape(e) == if e in ESCAPES then Some(ESCAPES[e]) else None
  {
  }

  function DigitOf(d: nat, upper: bool): char
    requires d < 16
  {
    if d < 10 then ('0' as int + d) as char else ((if upper then 'A' as int else 'a' as int) + (d - 10)) as char
  }

  /** `n` in `w` hexadecimal digits, of either case. */
  function HexText(n: nat, w: nat, upper: bool): string {
    if w == 0 then "" else HexText(n / 16, w - 1, upper) + [DigitOf(n % 16, upper)]
  }

  function Pow16(w: nat): nat {
    if w == 0 then 1 else 16 * Pow16(w - 1)
  }

  lemma {:induction false} HexReadsBack(n: nat, w: nat, upper: bool)
    requires n < Pow16(w)
    ensures |HexText(n, w, upper)| == w && AllHex(HexText(n, w, upper)) && ParseHex(HexText(n, w, upper)) == n
  {
    if w > 0 {
      HexReadsBack(n / 16, w - 1, upper);
      var text := HexText(n, w, upper);
      assert text[..|text| - 1] == HexText(n / 16, w - 1, upper);
    }
  }

  /** Every character can be written in eight hexadecimal digits, and one below U+0100 in two, below U+10000 in four. */
  lemma HexSpells(c: char, upper: bool)
    ensures Spells(Hex('U', HexText(c as int, 8, upper)), c)
    ensures c as int < 0x1_0000 ==> Spells(Hex('u', HexText(c as int, 4, upper)), c)
    ensures c as int < 0x100 ==> Spells(Hex('x', HexText(c as int, 2, upper)), c)
  {
    assert Pow16(2) == 0x100 && Pow16(4) == 0x1_0000 && Pow16(8) == 0x1_0000_0000;
    HexReadsBack(c as int, 8, upper);
    if c as int < 0x1_0000 {
      HexReadsBack(c as int, 4, upper);
    }
    if c as int < 0x100 {
      HexReadsBack(c as int, 2, upper);
    }
  }

  /** A piece of a body that stands for `c`: any character but a backslash, or an escape. */
  predicate StandsFor(sp: Spelling, c: char) {
    match sp
    case Literal => c != '\\'
    case Short(e) => HexWidth(e) == 0 && SimpleEscape(e) == Some(c)
    case Hex(m, d) => HexWidth(m) == |d| > 0 && HexEscape(d) == Some(c)
  }

  lemma Followed(sp: Spelling, c: char, sps: seq<Spelling>, name: string)
    requires |sps| == |name| && StandsFor(sp, c) && forall i :: 0 <= i < |sps| ==> StandsFor(sps[i], name[i])
    ensures SpellAll([sp] + sps, [c] + name) == SpellChar(sp, c) + SpellAll(sps, name)
    ensures forall i :: 0 <= i < |sps| + 1 ==> StandsFor(([sp] + sps)[i], ([c] + name)[i])
  {
    assert ([sp] + sps)[1..] == sps && ([c] + name)[1..] == name;
  }

  /** The decoder accepts nothing else: a body it decodes is made of such pieces, one for each character. */
  lemma {:induction false} DecodedIsSpelled(body: string) returns (sps: seq<Spelling>)
    requires DecodeDq(body).Some?
    ensures var name := DecodeDq(body).value;
            |sps| == |name| && SpellAll(sps, name) == body && forall i :: 0 <= i < |sps| ==> StandsFor(sps[i], name[i])
    decreases |body|
  {
    if body == "" {
      sps := [];
    } else {
      var n, sp, c := FirstPiece(body);
      var rest := DecodedIsSpelled(body[n..]);
      Followed(sp, c, rest, DecodeDq(body[n..]).value);
      sps := [sp] + rest;
      assert body == body[..n] + body[n..];
    }
  }

  lemma FirstPiece(body: string) returns (n: nat, sp: Spelling, c: char)
    requires body != "" && DecodeDq(body).Some?
    ensures 0 < n <= |body| && StandsFor(sp, c) && SpellChar(sp, c) == body[..n]
    ensures DecodeDq(body[n..]).Some? && DecodeDq(body).value == [c] + DecodeDq(body[n..]).value
  {
    if body[0] != '\\' {
      n, sp, c := 1, Literal, body[0];
    } else {
      var width := HexWidth(body[1]);
      if width > 0 {
        n, sp := 2 + width, Hex(body[1], body[2..2 + width]);
        c := HexEscape(body[2..2 + width]).value;
        assert body[..n] == ['\\', body[1]] + body[2..n];
      } else {
        n, sp, c := 2, Short(body[1]), SimpleEscape(body[1]).value;
        assert body[..n] == ['\\', body[1]];
      }
    }
  }

  // ---- single quotes ----------------------------------------------------------------------------

  /** Every single quote twice. */
  function QuotesDoubled(name: string): string {
    if name == "" then ""
    else (if name[0] == '\'' then ['\'', '\''] else [name[0]]) + QuotesDoubled(name[1..])
  }

  function SingleQuoted(name: string): string {
    "'" + QuotesDoubled(name) + "'"
  }

  lemma {:induction false} DoubledStaysQuoted(name: string, gap: bool)
    ensures var t := QuotesDoubled(name); Run(Sq, t) == Sq && NoComment(Sq, gap, t) && NoTopComma(Sq, t)
    decreases |name|
  {
    if name != "" {
      var t, rest := QuotesDoubled(name), QuotesDoubled(name[1..]);
      if name[0] == '\'' {
        DoubledStaysQuoted(name[1..], false);
        assert t[1..][1..] == rest;
      } else {
        DoubledStaysQuoted(name[1..], IsWs(name[0]));
        assert t[1..] == rest;
      }
    }
  }

  lemma {:induction false} HalvedIsName(name: string)
    ensures HalveSingleQuotes(QuotesDoubled(name)) == name
    decreases |name|
  {
    if name != "" {
      var t, rest := QuotesDoubled(name), QuotesDoubled(name[1..]);
      HalvedIsName(name[1..]);
      if name[0] == '\'' {
        assert t[2..] == rest;
      } else {
        assert t[1..] == rest;
        assert |t| == 1 ==> rest == "" && name[1..] == "";
      }
      assert [name[0]] + name[1..] == name;
    }
  }

  /** A single-quoted label, its own quotes doubled, is one clean token and decodes to the label. */
  lemma SingleQuotedReadsBack(name: string)
    ensures Clean(SingleQuoted(name)) && Unquote(SingleQuoted(name)) == Some(name)
  {
    var body, t := QuotesDoubled(name), SingleQuoted(name);
    DoubledStaysQuoted(name, false);
    assert t == "'" + (body + "'") && t[1..] == body + "'";
    assert Run(Sq, "'") == Run(Out, "'"[1..]);
    RunConcat(Sq, body, "'");
    FindHashConcat(Sq, false, body, "'");
    assert FindHash(Sq, GapAfter(false, body), "'") == 1 + FindHash(Out, false, "'"[1..]);
    NoTopCommaConcat(Sq, body, "'");
    HalvedIsName(name);
    assert t[1..|t| - 1] == body;
  }

  /** A way to write a label as one token: plain, in single quotes, or in double quotes with any escapes. */
  ghost predicate Spelled(raw: string, name: string) {
    || (PlainShape(name) && raw == name)
    || raw == SingleQuoted(name)
    || exists sps :: SpellsAll(sps, name) && raw == QuotedSpelling(sps, name)
  }

  /** However a label is spelled, the lexer sees that label. */
  lemma SpelledReadsBack(raw: string, name: string)
    requires Spelled(raw, name)
    ensures Clean(raw) && Unquote(raw) == Some(name)
  {
    if PlainShape(name) && raw == name {
      PlainIsClean(name);
    } else if raw == SingleQuoted(name) {
      SingleQuotedReadsBack(name);
    } else {
      var sps :| SpellsAll(sps, name) && raw == QuotedSpelling(sps, name);
      SpelledTokenReadsBack(sps, name);
    }
  }

  // ---- the token printer ------------------------------------------------------------------------

  predicate IsAlnum(c: char) {
    'A' <= c <= 'Z' || 'a' <= c <= 'z' || '0' <= c <= '9'
  }

  predicate IsPlainChar(c: char) {
    IsAlnum(c) || c == '.' || c == '_' || c == '/' || c == '+' || c == '-'
  }

  predicate PlainShape(s: string) {
    s != "" && IsAlnum(s[0]) && forall i :: 0 <= i < |s| ==> IsPlainChar(s[i])
  }

  /** Backslashes and double quotes escaped, everything else as it is. */
  function PrinterSpelling(s: string): (sps: seq<Spelling>)
    ensures |sps| == |s|
  {
    seq(|s|, i requires 0 <= i < |s| => if s[i] == '\\' || s[i] == '"' then Short(s[i]) else Literal)
  }

  /**
   * A label as a token. `reserved` is the YAML 1.1 table of plain scalars that are not strings;
   * nothing below depends on which words it lists.
   */
  function YamlLabelToken(s: string, reserved: string -> bool): string {
    if PlainShape(s) && !reserved(s) then s else QuotedSpelling(PrinterSpelling(s), s)
  }

  lemma {:induction false} PlainIsQuiet(s: string, gap: bool)
    requires forall i :: 0 <= i < |s| ==> IsPlainChar(s[i])
    ensures Run(Out, s) == Out && NoComment(Out, gap, s) && NoTopComma(Out, s)
    decreases |s|
  {
    if s != "" {
      PlainIsQuiet(s[1..], IsWs(s[0]));
    }
  }

  lemma PlainIsClean(s: string)
    requires PlainShape(s)
    ensures Clean(s) && Unquote(s) == Some(s)
  {
    PlainIsQuiet(s, true);
  }

  lemma PrintedTokenReadsBack(s: string, reserved: string -> bool)
    ensures Clean(YamlLabelToken(s, reserved))
    ensures Unquote(YamlLabelToken(s, reserved)) == Some(s)
  {
    if PlainShape(s) && !reserved(s) {
      PlainIsClean(s);
    } else {
      SpelledTokenReadsBack(PrinterSpelling(s), s);
    }
  }

  function PrintLabels(labels: seq<string>, reserved: string -> bool): (r: seq<string>)
    ensures |r| == |labels|
    ensures forall i :: 0 <= i < |labels| ==> r[i] == YamlLabelToken(labels[i], reserved)
  {
    seq(|labels|, i requires 0 <= i < |labels| => YamlLabelToken(labels[i], reserved))
  }

  /** Printer and lexer are inverse on every list of labels. */
  lemma PrintedListReadsBack(labels: seq<string>, reserved: string -> bool) returns (ts: seq<Token>)
    ensures var text := Join(PrintLabels(labels, reserved), ", ");
            SplitComment(text) == (text, "") && Tokenize(text) == Some(ts)
    ensures Values(ts) == labels && Raws(ts) == PrintLabels(labels, reserved)
  {
    var parts := PrintLabels(labels, reserved);
    ts := seq(|labels|, i requires 0 <= i < |labels| => Token(parts[i], labels[i]));
    forall i | 0 <= i < |labels|
      ensures Clean(parts[i]) && Unquote(parts[i]) == Some(labels[i])
    {
      PrintedTokenReadsBack(labels[i], reserved);
    }
    assert Raws(ts) == parts;
    TokenizeJoin(ts);
    JoinClean(parts);
    JoinTrimmed(parts);
    TrimIdentity(Join(parts, ", "));
  }
}
