/** Cutting the first balanced object out of a model's completion, aware of strings and escapes. */
module ExtractJson {
  import opened Text

  /** The scan: brace depth, and whether it is inside a string or just past a backslash in one. */
  datatype Scan = Scan(depth: int, inString: bool, escaped: bool)

  function Next(s: Scan, ch: char): Scan {
    if s.inString then
      if s.escaped then s.(escaped := false)
      else if ch == '\\' then s.(escaped := true)
      else if ch == '"' then s.(inString := false)
      else s
    else if ch == '"' then s.(inString := true)
    else if ch == '{' then s.(depth := s.depth + 1)
    else if ch == '}' then s.(depth := s.depth - 1)
    else s
  }

  function Run(s: Scan, text: string): Scan {
    if text == [] then s else Next(Run(s, text[..|text| - 1]), text[|text| - 1])
  }

  const START := Scan(0, false, false)

  /** The character at `k` closes the outermost brace: only a '}' outside a string brings the depth to 0. */
  predicate Closes(text: string, k: nat)
    requires k < |text|
  {
    text[k] == '}' && !Run(START, text[..k]).inString && Run(START, text[..k + 1]).depth == 0
  }

  /** From the first '{' (no '[' before it) to the first closing of its outermost brace. */
  ghost predicate Cut(text: string, start: nat, end: nat) {
    && start < end <= |text| && text[start] == '{'
    && (forall k :: 0 <= k < start ==> text[k] != '{' && text[k] != '[')
    && Closes(text[start..], end - start - 1)
    && forall k :: 0 <= k < end - start - 1 ==> !Closes(text[start..], k)
  }

  lemma CutIsUnique(text: string, start: nat, end: nat, start': nat, end': nat)
    requires Cut(text, start, end) && Cut(text, start', end')
    ensures start == start' && end == end'
  {
  }

  /** The one such span is what is handed to the JSON parser; without one, nothing is. */
  method ExtractSpan(text: string) returns (span: Option<string>)
    ensures span.Some? ==> exists start: nat, end: nat :: Cut(text, start, end) && span.value == text[start..end]
    ensures forall start: nat, end: nat :: Cut(text, start, end) ==> span == Some(text[start..end])
  {
    var start := 0;
    while start < |text| && text[start] != '{'
      invariant start <= |text| && forall k :: 0 <= k < start ==> text[k] != '{'
    {
      start := start + 1;
    }
    if start == |text| {
      return None;
    }
    if '[' in text[..start] {
      return None;
    }
    ghost var tail := text[start..];
    var depth, inString, escaped := 0, false, false;
    var i := start;
    while i < |text|
      invariant start <= i <= |text|
      invariant Run(START, tail[..i - start]) == Scan(depth, inString, escaped)
      invariant forall k :: 0 <= k < i - start ==> !Closes(tail, k)
    {
      var ch := text[i];
      ghost var next := tail[..i - start + 1];
      assert next[..|next| - 1] == tail[..i - start] && next[i - start] == ch;
      i := i + 1;
      if inString {
        if escaped {
          escaped := false;
        } else if ch == '\\' {
          escaped := true;
        } else if ch == '"' {
          inString := false;
        }
        continue;
      }
      if ch == '"' {
        inString := true;
      } else if ch == '{' {
        depth := depth + 1;
      } else if ch == '}' {
        depth := depth - 1;
        if depth == 0 {
          assert Closes(tail, i - 1 - start) && Cut(text, start, i);
          forall b: nat, e: nat | Cut(text, b, e) ensures b == start && e == i {
            CutIsUnique(text, b, e, start, i);
          }
          return Some(text[start..i]);
        }
      }
    }
    assert tail[..i - start] == tail;
    return None;
  }

  // ---- every object is cut whole ------------------------------------------------------------------------

  /**
   * The text of an object: braces around plain stretches (no quote, no brace), strings, and objects.
   * Commas, colons, numbers and arrays' brackets are plain.
   */
  datatype Piece = Plain(text: string) | Str(body: seq<StrPart>) | Obj(pieces: seq<Piece>)

  /** Inside a string: a character other than quote or backslash, or a backslash and any character. */
  datatype StrPart = Raw(c: char) | Escape(c: char)

  predicate PartOk(p: StrPart) {
    p.Raw? ==> p.c != '"' && p.c != '\\'
  }

  ghost predicate PieceOk(p: Piece) {
    match p
    case Plain(text) => '"' !in text && '{' !in text && '}' !in text
    case Str(body) => forall i :: 0 <= i < |body| ==> PartOk(body[i])
    case Obj(pieces) => PiecesOk(pieces)
  }

  ghost predicate PiecesOk(pieces: seq<Piece>) {
    forall i :: 0 <= i < |pieces| ==> PieceOk(pieces[i])
  }

  function PrintBody(body: seq<StrPart>): string {
    if body == [] then ""
    else PrintBody(body[..|body| - 1]) + (if body[|body| - 1].Raw? then [body[|body| - 1].c] else ['\\', body[|body| - 1].c])
  }

  function Print(p: Piece): string
    decreases p, 0
  {
    match p
    case Plain(text) => text
    case Str(body) => "\"" + PrintBody(body) + "\""
    case Obj(pieces) => "{" + PrintAll(pieces) + "}"
  }

  function PrintAll(pieces: seq<Piece>): string
    decreases pieces, |pieces|
  {
    if pieces == [] then "" else
      assert pieces[..|pieces| - 1] < pieces;
      PrintAll(pieces[..|pieces| - 1]) + Print(pieces[|pieces| - 1])
  }

  lemma {:induction false} RunConcat(s: Scan, a: string, b: string)
    ensures Run(s, a + b) == Run(Run(s, a), b)
    decreases |b|
  {
    if b == [] {
      assert a + b == a;
    } else {
      assert (a + b)[..|a + b| - 1] == a + b[..|b| - 1];
      RunConcat(s, a, b[..|b| - 1]);
    }
  }

  lemma RunOne(s: Scan, c: char)
    ensures Run(s, [c]) == Next(s, c)
  {
    assert [c][..0] == [];
    assert Run(s, [c][..0]) == s;
  }

  /** `text` brings the scan back to where it was, never below its depth on the way. */
  ghost predicate Stays(s: Scan, text: string) {
    Run(s, text) == s && forall k :: 0 <= k <= |text| ==> Run(s, text[..k]).depth >= s.depth
  }

  lemma StaysConcat(s: Scan, a: string, b: string)
    requires Stays(s, a) && Stays(s, b)
    ensures Stays(s, a + b)
  {
    RunConcat(s, a, b);
    forall k | 0 <= k <= |a + b| ensures Run(s, (a + b)[..k]).depth >= s.depth {
      if k <= |a| {
        assert (a + b)[..k] == a[..k];
      } else {
        assert (a + b)[..k] == a + b[..k - |a|];
        RunConcat(s, a, b[..k - |a|]);
      }
    }
  }

  lemma {:induction false} PlainStays(s: Scan, text: string)
    requires !s.inString && '"' !in text && '{' !in text && '}' !in text
    ensures Stays(s, text)
  {
    if text != [] {
      var n := |text| - 1;
      assert text[n] in text && forall c :: c in text[..n] ==> c in text;
      PlainStays(s, text[..n]);
      forall k | 0 <= k <= |text| ensures Run(s, text[..k]).depth >= s.depth {
        assert text[..k] == if k == |text| then text else text[..n][..k];
      }
    }
  }

  lemma EscapeStays(s: Scan, c: char)
    requires s.inString && !s.escaped
    ensures Stays(s, ['\\', c])
  {
    var t := ['\\', c];
    assert t[..0] == [] && t[..1] == ['\\'] && t[..2] == t && t == ['\\'] + [c];
    RunOne(s, '\\');
    RunConcat(s, ['\\'], [c]);
    RunOne(s.(escaped := true), c);
    assert Run(s, t[..0]) == s;
  }

  lemma RawStays(s: Scan, c: char)
    requires s.inString && !s.escaped && c != '"' && c != '\\'
    ensures Stays(s, [c])
  {
    assert [c][..0] == [] && [c][..1] == [c];
    RunOne(s, c);
    assert Run(s, [c][..0]) == s;
  }

  lemma {:induction false} BodyStays(s: Scan, body: seq<StrPart>)
    requires s.inString && !s.escaped && forall i :: 0 <= i < |body| ==> PartOk(body[i])
    ensures Stays(s, PrintBody(body))
  {
    if body == [] {
      assert PrintBody(body)[..0] == [];
      assert Run(s, PrintBody(body)[..0]) == s;
    } else {
      var last := body[|body| - 1];
      BodyStays(s, body[..|body| - 1]);
      if last.Raw? {
        RawStays(s, last.c);
        StaysConcat(s, PrintBody(body[..|body| - 1]), [last.c]);
      } else {
        EscapeStays(s, last.c);
        StaysConcat(s, PrintBody(body[..|body| - 1]), ['\\', last.c]);
      }
    }
  }

  /** An opening character, a stretch that stays one level in, and its closing character. */
  lemma Wrapped(s: Scan, open: char, inner: string, close: char)
    requires Next(s, open).depth >= s.depth && Stays(Next(s, open), inner) && Next(Next(s, open), close) == s
    ensures Stays(s, [open] + inner + [close])
    ensures forall k :: 0 < k < |inner| + 2 ==> Run(s, ([open] + inner + [close])[..k]).depth >= Next(s, open).depth
  {
    var t, in_ := [open] + inner + [close], Next(s, open);
    RunOne(s, open);
    RunConcat(s, [open], inner);
    RunConcat(s, [open] + inner, [close]);
    RunOne(in_, close);
    forall k | 0 < k < |inner| + 2 ensures Run(s, t[..k]).depth >= in_.depth {
      assert t[..k] == [open] + inner[..k - 1];
      RunConcat(s, [open], inner[..k - 1]);
    }
    assert t[..0] == [] && t[..|t|] == t;
    assert Run(s, t[..0]) == s;
  }

  lemma {:induction false} PieceStays(s: Scan, p: Piece)
    requires !s.inString && !s.escaped && PieceOk(p)
    ensures Stays(s, Print(p))
    decreases p, 0
  {
    match p {
      case Plain(text) => PlainStays(s, text);
      case Str(body) =>
        BodyStays(Next(s, '"'), body);
        Wrapped(s, '"', PrintBody(body), '"');
      case Obj(pieces) =>
        PiecesStay(Next(s, '{'), pieces);
        Wrapped(s, '{', PrintAll(pieces), '}');
    }
  }

  lemma {:induction false} PiecesStay(s: Scan, pieces: seq<Piece>)
    requires !s.inString && !s.escaped && PiecesOk(pieces)
    ensures Stays(s, PrintAll(pieces))
    decreases pieces, |pieces|
  {
    if pieces == [] {
      assert PrintAll(pieces)[..0] == [];
      assert Run(s, PrintAll(pieces)[..0]) == s;
    } else {
      var front, last := pieces[..|pieces| - 1], pieces[|pieces| - 1];
      assert PieceOk(last);
      PiecesStay(s, front);
      PieceStays(s, last);
      StaysConcat(s, PrintAll(front), Print(last));
    }
  }

  /**
   * A completion holding an object, wrapped in any text without '{' or '[' before it and anything
   * after it, is cut to exactly that object, whatever braces and escaped quotes its strings hold.
   */
  lemma WrappedObjectIsCut(before: string, pieces: seq<Piece>, after: string)
    requires '{' !in before && '[' !in before && PiecesOk(pieces)
    ensures Cut(before + Print(Obj(pieces)) + after, |before|, |before| + |Print(Obj(pieces))|)
  {
    var obj, text := Print(Obj(pieces)), before + Print(Obj(pieces)) + after;
    var tail := text[|before|..];
    PiecesStay(Next(START, '{'), pieces);
    Wrapped(START, '{', PrintAll(pieces), '}');
    assert text[..|before|] == before && tail == obj + after;
    assert forall k :: 0 <= k <= |obj| ==> tail[..k] == obj[..k];
    var n := |obj| - 1;
    assert obj[..n + 1] == obj && obj[..n] == ['{'] + PrintAll(pieces);
    RunConcat(START, ['{'], PrintAll(pieces));
    RunOne(START, '{');
    assert Closes(tail, n);
  }
}
