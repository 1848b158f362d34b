/**
 * The `runs-on` value lexer: comment splitting, quote-aware label splitting, YAML unquoting,
 * and the printer that renders a label back into a token.
 *
 * Every function is stated over one quote automaton; the methods are the scanning loops, and
 * each is proved equal to its function.
 */
module LabelTokens {
  import opened Text

  // ---- the quote automaton ----------------------------------------------------------------

  /** Outside quotes, inside `'…'`, inside `"…"`, or just after a backslash inside `"…"`. */
  datatype Quote = Out | Sq | Dq | Esc

  function Delta(q: Quote, c: char): Quote {
    match q
    case Out => if c == '\'' then Sq else if c == '"' then Dq else Out
    case Sq => if c == '\'' then Out else Sq
    case Dq => if c == '\\' then Esc else if c == '"' then Out else Dq
    case Esc => Dq
  }

  function Run(q: Quote, s: string): Quote
    decreases |s|
  {
    if s == "" then q else Run(Delta(q, s[0]), s[1..])
  }

  lemma {:induction false} RunConcat(q: Quote, a: string, b: string)
    ensures Run(q, a + b) == Run(Run(q, a), b)
    decreases |a|
  {
    if a == "" {
      assert a + b == b;
    } else {
      assert (a + b)[1..] == a[1..] + b;
      RunConcat(Delta(q, a[0]), a[1..], b);
    }
  }

  // ---- comments ---------------------------------------------------------------------------

  /**
   * Index of the first `#` that starts a comment (outside quotes, at the start or after white
   * space), or `|s|`. `gap` says whether the position before `s` counts as white space.
   */
  function FindHash(q: Quote, gap: bool, s: string): (n: nat)
    ensures n <= |s|
    ensures n < |s| ==> s[n] == '#'
    decreases |s|
  {
    if s == "" then 0
    else if q == Out && s[0] == '#' && gap then 0
    else 1 + FindHash(Delta(q, s[0]), IsWs(s[0]), s[1..])
  }

  function GapAfter(gap: bool, a: string): bool {
    if a == "" then gap else IsWs(a[|a| - 1])
  }

  predicate NoComment(q: Quote, gap: bool, s: string) {
    FindHash(q, gap, s) == |s|
  }

  lemma {:induction false} FindHashConcat(q: Quote, gap: bool, a: string, b: string)
    ensures FindHash(q, gap, a + b) ==
            if NoComment(q, gap, a) then |a| + FindHash(Run(q, a), GapAfter(gap, a), b)
            else FindHash(q, gap, a)
    decreases |a|
  {
    if a == "" {
      assert a + b == b;
    } else {
      assert (a + b)[1..] == a[1..] + b;
      FindHashConcat(Delta(q, a[0]), IsWs(a[0]), a[1..], b);
    }
  }

  /** Where a comment starts is where the prefix before it holds none. */
  lemma {:induction false} FindHashPrefix(q: Quote, gap: bool, s: string)
    ensures var n := FindHash(q, gap, s);
            NoComment(q, gap, s[..n]) && (n < |s| ==> Run(q, s[..n]) == Out && GapAfter(gap, s[..n]))
    decreases |s|
  {
    var n := FindHash(q, gap, s);
    if n > 0 {
      FindHashPrefix(Delta(q, s[0]), IsWs(s[0]), s[1..]);
      assert s[..n][1..] == s[1..][..n - 1];
    }
  }

  /** `{ value, comment }` of a raw `runs-on` value. */
  function SplitComment(text: string): (string, string) {
    var i := FindHash(Out, true, text);
    if i == |text| then (Trim(text), "")
    else
      var cut := |TrimRight(text[..i])|;
      (Trim(text[..cut]), text[cut..])
  }

  predicate GapAt(text: string, i: nat)
    requires i <= |text|
  {
    i == 0 || IsWs(text[i - 1])
  }

  /** `FindHash` resumed at position `i`. */
  function HashFrom(text: string, i: nat, q: Quote): nat
    requires i <= |text|
  {
    FindHash(q, GapAt(text, i), text[i..])
  }

  lemma HashStep(text: string, i: nat, q: Quote)
    requires i < |text|
    ensures HashFrom(text, i, q) ==
            if q == Out && text[i] == '#' && GapAt(text, i) then 0
            else 1 + HashFrom(text, i + 1, Delta(q, text[i]))
  {
    assert text[i..][1..] == text[i + 1..];
  }

  /** The scanning loop behind `SplitComment`. */
  method ScanComment(text: string) returns (value: string, comment: string)
    ensures (value, comment) == SplitComment(text)
  {
    var i, quote := 0, Out;
    assert text[0..] == text;
    while i < |text|
      invariant 0 <= i <= |text| && quote != Esc
      invariant FindHash(Out, true, text) == i + HashFrom(text, i, quote)
    {
      HashStep(text, i, quote);
      var ch := text[i];
      if quote != Out {
        if quote == Dq && ch == '\\' {
          if i + 1 == |text| {
            break;
          }
          HashStep(text, i + 1, Esc);
          i := i + 2; // the escaped character never closes the scalar
          continue;
        }
        quote := if (quote == Sq && ch == '\'') || (quote == Dq && ch == '"') then Out else quote;
        i := i + 1;
        continue;
      }
      if ch == '\'' || ch == '"' {
        quote := if ch == '"' then Dq else Sq;
        i := i + 1;
        continue;
      }
      if ch == '#' && GapAt(text, i) {
        var cut := WalkBack(text, i);
        return Trim(text[..cut]), text[cut..];
      }
      i := i + 1;
    }
    return Trim(text), "";
  }

  /** Step back over the white space that ends at `i`. */
  method WalkBack(text: string, i: nat) returns (cut: nat)
    requires i <= |text|
    ensures cut == |TrimRight(text[..i])|
  {
    cut := i;
    while cut > 0 && IsWs(text[cut - 1])
      invariant 0 <= cut <= i && TrimRight(text[..i]) == TrimRight(text[..cut])
    {
      assert text[..cut][..cut - 1] == text[..cut - 1];
      cut := cut - 1;
    }
  }

  // ---- unquoting --------------------------------------------------------------------------

  /** `s.replace(/''/g, "'")`. */
  function HalveSingleQuotes(s: string): string {
    if |s| < 2 then s
    else if s[0] == '\'' && s[1] == '\'' then "'" + HalveSingleQuotes(s[2..])
    else [s[0]] + HalveSingleQuotes(s[1..])
  }

  /** The one-character escapes of a double-quoted scalar (YAML 1.1 section 5.6). */
  function SimpleEscape(c: char): Option<char> {
    match c
    case '0' => Some('\U{0000}')
    case 'a' => Some('\U{0007}')
    case 'b' => Some('\U{0008}')
    case 't' => Some('\t')
    case '\t' => Some('\t')
    case 'n' => Some('\n')
    case 'v' => Some('\U{000B}')
    case 'f' => Some('\U{000C}')
    case 'r' => Some('\r')
    case 'e' => Some('\U{001B}')
    case ' ' => Some(' ')
    case '"' => Some('"')
    case '/' => Some('/')
    case '\\' => Some('\\')
    case 'N' => Some('\U{0085}')
    case '_' => Some('\U{00A0}')
    case 'L' => Some('\U{2028}')
    case 'P' => Some('\U{2029}')
    case _ => None
  }

  /** Digits after `\x`, `\u`, `\U`; zero for any other escape. */
  function HexWidth(c: char): nat {
    match c
    case 'x' => 2
    case 'u' => 4
    case 'U' => 8
    case _ => 0
  }

  predicate IsHexDigit(c: char) {
    '0' <= c <= '9' || 'a' <= c <= 'f' || 'A' <= c <= 'F'
  }

  function HexDigit(c: char): nat
    requires IsHexDigit(c)
  {
    if c <= '9' then c as int - '0' as int
    else if c <= 'F' then c as int - 'A' as int + 10
    else c as int - 'a' as int + 10
  }

  predicate AllHex(s: string) {
    forall i :: 0 <= i < |s| ==> IsHexDigit(s[i])
  }

  function ParseHex(s: string): nat
    requires AllHex(s)
  {
    if s == "" then 0 else 16 * ParseHex(s[..|s| - 1]) + HexDigit(s[|s| - 1])
  }

  /** A code point a character can hold: in range and not a surrogate. */
  predicate IsScalar(n: nat) {
    n < 0xD800 || 0xE000 <= n < 0x11_0000
  }

  function HexEscape(digits: string): Option<char> {
    if !AllHex(digits) || !IsScalar(ParseHex(digits)) then None
    else Some(ParseHex(digits) as char)
  }

  function Prepend(c: char, rest: Option<string>): Option<string> {
    match rest
    case None => None
    case Some(s) => Some([c] + s)
  }

  /** The characters a double-quoted body stands for, or `None` for an escape it cannot decode. */
  function DecodeDq(body: string): Option<string> {
    if body == "" then Some("")
    else if body[0] != '\\' then Prepend(body[0], DecodeDq(body[1..]))
    else if |body| < 2 then None
    else
      var width := HexWidth(body[1]);
      if width > 0 then
        if |body| < 2 + width then None
        else
          match HexEscape(body[2..2 + width])
          case None => None
          case Some(c) => Prepend(c, DecodeDq(body[2 + width..]))
      else
        match SimpleEscape(body[1])
        case None => None
        case Some(c) => Prepend(c, DecodeDq(body[2..]))
  }

  predicate QuotedBy(raw: string, q: char) {
    |raw| >= 2 && raw[0] == q && raw[|raw| - 1] == q
  }

  /** The label a token names. */
  function Unquote(raw: string): Option<string> {
    if QuotedBy(raw, '\'') then Some(HalveSingleQuotes(raw[1..|raw| - 1]))
    else if QuotedBy(raw, '"') then DecodeDq(raw[1..|raw| - 1])
    else Some(raw)
  }

  /** `out` followed by what the rest decodes to. */
  function After(out: string, rest: Option<string>): Option<string> {
    match rest
    case None => None
    case Some(s) => Some(out + s)
  }

  lemma AfterPrepend(out: string, c: char, rest: Option<string>)
    ensures After(out, Prepend(c, rest)) == After(out + [c], rest)
  {
    assert rest.Some? ==> out + ([c] + rest.value) == out + [c] + rest.value;
  }

  method UnquoteLabel(raw: string) returns (r: Option<string>)
    ensures r == Unquote(raw)
  {
    if QuotedBy(raw, '\'') {
      return Some(HalveSingleQuotes(raw[1..|raw| - 1]));
    }
    if QuotedBy(raw, '"') {
      var body := raw[1..|raw| - 1];
      var out, i := "", 0;
      assert forall s: string :: "" + s == s;
      while i < |body|
        invariant 0 <= i <= |body|
        invariant DecodeDq(body) == After(out, DecodeDq(body[i..]))
      {
        var ch := body[i];
        assert body[i..][0] == ch;
        if ch != '\\' {
          assert body[i..][1..] == body[i + 1..];
          AfterPrepend(out, ch, DecodeDq(body[i + 1..]));
          out, i := out + [ch], i + 1;
          continue;
        }
        if i + 1 == |body| {
          return None;
        }
        var width := HexWidth(body[i + 1]);
        assert body[i..][1] == body[i + 1];
        if width > 0 {
          if |body| < i + 2 + width {
            return None;
          }
          var digits := body[i + 2..i + 2 + width];
          assert body[i..][2..2 + width] == digits;
          assert body[i..][2 + width..] == body[i + 2 + width..];
          var code := HexEscape(digits);
          if code == None {
            return None;
          }
          AfterPrepend(out, code.value, DecodeDq(body[i + 2 + width..]));
          out, i := out + [code.value], i + 2 + width;
          continue;
        }
        var simple := SimpleEscape(body[i + 1]);
        if simple == None {
          return None;
        }
        assert body[i..][2..] == body[i + 2..];
        AfterPrepend(out, simple.value, DecodeDq(body[i + 2..]));
        out, i := out + [simple.value], i + 2;
      }
      assert body[i..] == "" && out + "" == out;
      return Some(out);
    }
    return Some(raw);
  }

  // ---- splitting a label list -------------------------------------------------------------

  datatype Token = Token(raw: string, value: string)

  /** The comma-separated chunks of `s`, the first one continuing `cur`. */
  function Chunks(q: Quote, cur: string, s: string): (r: Option<seq<string>>)
    ensures r.Some? ==> |r.value| > 0
    decreases |s|
  {
    if s == "" then (if q == Out then Some([cur]) else None)
    else if q == Out && s[0] == ',' then PushFront([cur], Chunks(Out, "", s[1..]))
    else Chunks(Delta(q, s[0]), cur + [s[0]], s[1..])
  }

  function PushFront<T>(xs: seq<T>, rest: Option<seq<T>>): Option<seq<T>> {
    match rest
    case None => None
    case Some(ys) => Some(xs + ys)
  }

  lemma PushFrontLaws<T>(xs: seq<T>, ys: seq<T>, rest: Option<seq<T>>)
    ensures PushFront([], rest) == rest
    ensures PushFront(xs, PushFront(ys, rest)) == PushFront(xs + ys, rest)
  {
    if rest.Some? {
      assert [] + rest.value == rest.value;
      assert xs + (ys + rest.value) == xs + ys + rest.value;
    }
  }

  /** Chunks to tokens: trimmed, empty ones dropped, `None` if one cannot be decoded. */
  function TokensOf(chunks: seq<string>): Option<seq<Token>> {
    if chunks == [] then Some([])
    else
      var raw := Trim(chunks[0]);
      if raw == "" then TokensOf(chunks[1..])
      else
        match Unquote(raw)
        case None => None
        case Some(v) => PushFront([Token(raw, v)], TokensOf(chunks[1..]))
  }

  function Tokenize(inner: string): Option<seq<Token>> {
    match Chunks(Out, "", inner)
    case None => None
    case Some(cs) => TokensOf(cs)
  }

  lemma {:induction false} TokensOfConcat(a: seq<string>, b: seq<string>)
    ensures TokensOf(a + b) ==
            if TokensOf(a).None? then None else PushFront(TokensOf(a).value, TokensOf(b))
  {
    if a == [] {
      assert a + b == b;
      PushFrontLaws<Token>([], [], TokensOf(b));
    } else {
      assert (a + b)[1..] == a[1..] + b;
      TokensOfConcat(a[1..], b);
      var raw := Trim(a[0]);
      if raw != "" && Unquote(raw).Some? && TokensOf(a[1..]).Some? {
        PushFrontLaws([Token(raw, Unquote(raw).value)], TokensOf(a[1..]).value, TokensOf(b));
      }
    }
  }

  method SplitInlineLabels(inner: string) returns (result: Option<seq<Token>>)
    ensures result == Tokenize(inner)
  {
    var tokens: seq<Token> := [];
    var current, quote, undecodable := "", Out, false;
    ghost var done: seq<string> := [];
    var i := 0;
    assert inner[0..] == inner;
    PushFrontLaws<string>([], [], Chunks(Out, "", inner));
    while i < |inner|
      invariant 0 <= i <= |inner| && quote != Esc
      invariant Chunks(Out, "", inner) == PushFront(done, Chunks(quote, current, inner[i..]))
      invariant undecodable <==> TokensOf(done).None?
      invariant !undecodable ==> tokens == TokensOf(done).value
    {
      var ch := inner[i];
      assert inner[i..][0] == ch && inner[i..][1..] == inner[i + 1..];
      if quote != Out {
        current := current + [ch];
        if quote == Dq && ch == '\\' {
          if i + 1 == |inner| {
            return None; // dangling escape
          }
          assert inner[i + 1..][1..] == inner[i + 2..];
          current, i := current + [inner[i + 1]], i + 2;
          continue;
        }
        quote := if (quote == Sq && ch == '\'') || (quote == Dq && ch == '"') then Out else quote;
        i := i + 1;
        continue;
      }
      if ch == '\'' || ch == '"' {
        quote, current := if ch == '"' then Dq else Sq, current + [ch];
        i := i + 1;
        continue;
      }
      if ch == ',' {
        TokensOfConcat(done, [current]);
        PushFrontLaws(done, [current], Chunks(Out, "", inner[i + 1..]));
        done := done + [current];
        tokens, undecodable := PushToken(tokens, undecodable, current);
        current := "";
        i := i + 1;
        continue;
      }
      current := current + [ch];
      i := i + 1;
    }
    if quote != Out {
      return None; // unterminated quote
    }
    TokensOfConcat(done, [current]);
    tokens, undecodable := PushToken(tokens, undecodable, current);
    return if undecodable then None else Some(tokens);
  }

  /** Close the current chunk: drop it when blank, remember it when it cannot be decoded. */
  method PushToken(tokens: seq<Token>, undecodable: bool, current: string)
    returns (tokens': seq<Token>, undecodable': bool)
    ensures undecodable' <==> undecodable || TokensOf([current]).None?
    ensures !undecodable' ==> tokens' == tokens + TokensOf([current]).value
  {
    var raw := Trim(current);
    assert TokensOf([current][1..]) == Some([]);
    if raw == "" {
      return tokens, undecodable;
    }
    var value := UnquoteLabel(raw);
    if value == None {
      return tokens, true;
    }
    return tokens + [Token(raw, value.value)], undecodable;
  }
}
