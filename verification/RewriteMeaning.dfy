/** Reading a rewritten value back: what it says, who claims it, and where it routes. */
module RewriteMeaning {
  import opened Text
  import opened LabelTokens
  import opened LabelRoundTrip
  import opened Catalog
  import opened Filtering
  import opened Selector
  import opened SelectorLaws

  // ---- bracketed lists ----------------------------------------------------------------------------

  function Bracketed(parts: seq<string>): string {
    "[" + Join(parts, ", ") + "]"
  }

  lemma BracketIsQuiet(s: string)
    requires Run(Out, s) == Out && NoComment(Out, true, s)
    ensures Run(Out, "[" + s) == Out && NoComment(Out, true, "[" + s)
    ensures Run(Out, "[" + s + "]") == Out && NoComment(Out, true, "[" + s + "]")
  {
    GapOnlyAddsComments(Out, s);
    assert ("[" + s)[1..] == s;
    var open := "[" + s;
    assert Run(Out, open) == Run(Delta(Out, '['), s);
    RunConcat(Out, open, "]");
    FindHashConcat(Out, true, open, "]");
    assert "]"[1..] == "";
    assert forall gap :: FindHash(Out, gap, "]") == 1 + FindHash(Out, false, "");
  }

  /** A bracketed list of clean tokens is lexed back to those tokens, its comment untouched. */
  lemma BracketedReadsBack(ts: seq<Token>, comment: string)
    requires TokensValid(ts) && NoComments(Raws(ts)) && CommentShape(comment)
    ensures var text := Bracketed(Raws(ts));
            SplitComment(text + comment) == (text, comment) && Tokenize(Inner(text)) == Some(ts)
  {
    var body, text := Join(Raws(ts), ", "), Bracketed(Raws(ts));
    JoinClean(Raws(ts));
    BracketIsQuiet(body);
    assert text[1..|text| - 1] == body;
    assert Trimmed(text);
    SplitCommentAppend(text, comment);
    TokenizeJoin(ts);
  }

  lemma {:induction false} JoinContains(parts: seq<string>, pat: string)
    requires ',' !in pat && ' ' !in pat && pat != ""
    requires Contains(Join(parts, ", "), pat)
    ensures exists i :: 0 <= i < |parts| && Contains(parts[i], pat)
    decreases |parts|
  {
    if |parts| == 1 {
      assert Contains(parts[0], pat);
    } else if |parts| > 1 {
      var tail := Join(parts[1..], ", ");
      assert Join(parts, ", ") == parts[0] + [','] + (" " + tail);
      ContainsAround(parts[0], ',', " " + tail, pat);
      if !Contains(parts[0], pat) {
        assert " " + tail == "" + [' '] + tail;
        ContainsAround("", ' ', tail, pat);
        assert !Contains("", pat);
        JoinContains(parts[1..], pat);
        var i :| 0 <= i < |parts[1..]| && Contains(parts[1..][i], pat);
        assert parts[1..][i] == parts[i + 1];
      }
    }
  }

  ghost predicate NoExpression(parts: seq<string>) {
    forall i :: 0 <= i < |parts| ==> !Contains(parts[i], "${{")
  }

  lemma NoExpressionJoined(parts: seq<string>)
    requires NoExpression(parts)
    ensures !Contains(Join(parts, ", "), "${{")
  {
    if Contains(Join(parts, ", "), "${{") {
      JoinContains(parts, "${{");
    }
  }

  lemma NoDollar(s: string)
    requires '$' !in s
    ensures !Contains(s, "${{")
  {
    if Contains(s, "${{") {
      ContainsNeeds(s, "${{", 0);
    }
  }

  /** One `c` on either side of a text does not make it an expression. */
  lemma NoExpressionBetween(a: string, c: char, b: string)
    requires c !in "${{" && !Contains(a, "${{") && !Contains(b, "${{")
    ensures !Contains(a + [c] + b, "${{")
  {
    if Contains(a + [c] + b, "${{") {
      ContainsAround(a, c, b, "${{");
    }
  }

  lemma BracketedIsParseable(parts: seq<string>)
    requires NoExpression(parts)
    ensures Parseable(Bracketed(parts))
  {
    var body, text := Join(parts, ", "), Bracketed(parts);
    NoExpressionJoined(parts);
    NoDollar("");
    assert "" + ['['] + body == "[" + body && (("[" + body) + [']']) + "" == text;
    NoExpressionBetween("", '[', body);
    NoExpressionBetween("[" + body, ']', "");
    assert text[0] == '[';
  }

  // ---- the emitted list ----------------------------------------------------------------------------

  function Plain(s: string): Token {
    Token(s, s)
  }

  /** What a rewritten value should say: `self-hosted`, the kept labels in order, the LCA label. */
  function Expected(kept: seq<Token>, lca: string): seq<Token> {
    [Plain(SELF_HOSTED)] + kept + [Plain(lca)]
  }

  predicate LeadingHash(t: Token) {
    StartsWith(t.raw, "#")
  }

  ghost predicate NoLeadingHash(ts: seq<Token>) {
    forall i :: 0 <= i < |ts| ==> !LeadingHash(ts[i])
  }

  /** Tokens as read from a comment-free value that is not an expression. */
  ghost predicate Readable(ts: seq<Token>) {
    forall i :: 0 <= i < |ts| ==> Delivered(ts[i]) && !Contains(ts[i].raw, "${{")
  }

  /** What the list printer needs of readable tokens. */
  lemma ReadableList(ts: seq<Token>)
    requires Readable(ts)
    ensures TokensValid(ts) && NoExpression(Raws(ts))
    ensures NoComments(Raws(ts)) <==> NoLeadingHash(ts)
  {
    forall i | 0 <= i < |ts| ensures NoComment(Out, true, Raws(ts)[i]) <==> !LeadingHash(ts[i]) {
      LeadingHashIsTheOnlyDifference(ts[i].raw);
    }
  }

  lemma PlainIsReadable(s: string)
    requires PlainShape(s)
    ensures Readable([Plain(s)]) && NoLeadingHash([Plain(s)])
  {
    PlainIsClean(s);
    GapOnlyAddsComments(Out, s);
    assert IsPlainChar(s[0]);
    NoDollar(s);
  }

  lemma BuiltinIsPlain(l: string)
    requires BuiltinLabel(l)
    ensures PlainShape(l)
  {
    assert l[0] == "lambda-ci"[0];
  }

  lemma ReadableConcat(a: seq<Token>, b: seq<Token>)
    requires Readable(a) && Readable(b)
    ensures Readable(a + b) && (NoLeadingHash(a + b) <==> NoLeadingHash(a) && NoLeadingHash(b))
  {
    var ts := a + b;
    assert forall i :: 0 <= i < |a| ==> ts[i] == a[i];
    assert forall i :: 0 <= i < |b| ==> ts[|a| + i] == b[i];
    assert forall i :: |a| <= i < |ts| ==> ts[i] == b[i - |a|];
  }

  lemma ExpectedTokens(kept: seq<Token>, lca: string)
    requires Readable(kept) && BuiltinLabel(lca)
    ensures Readable(Expected(kept, lca))
    ensures Raws(Expected(kept, lca)) == [SELF_HOSTED] + Raws(kept) + [lca]
    ensures NoLeadingHash(Expected(kept, lca)) <==> NoLeadingHash(kept)
  {
    BuiltinIsPlain(lca);
    PlainIsReadable(lca);
    PlainIsReadable(SELF_HOSTED);
    ReadableConcat([Plain(SELF_HOSTED)], kept);
    ReadableConcat([Plain(SELF_HOSTED)] + kept, [Plain(lca)]);
  }

  /** The good case: the emitted value says exactly what it should. */
  lemma EmitReadsBack(kept: seq<Token>, lca: string, comment: string)
    requires Readable(kept) && NoLeadingHash(kept) && BuiltinLabel(lca) && CommentShape(comment)
    ensures var v := Emit(kept, lca) + comment;
            ParseRunsOn(v) == Some(Expected(kept, lca)) && SplitComment(v).1 == comment
  {
    ExpectedTokens(kept, lca);
    ReadableList(Expected(kept, lca));
    BracketedReadsBack(Expected(kept, lca), comment);
    BracketedIsParseable(Raws(Expected(kept, lca)));
  }

  // ---- the failing family ---------------------------------------------------------------------------

  /** How much of the kept list precedes the first token that starts with `#`. */
  function BeforeHash(ts: seq<Token>): (k: nat)
    ensures k <= |ts| && NoLeadingHash(ts[..k])
    ensures k < |ts| ==> LeadingHash(ts[k])
    ensures k == |ts| <==> NoLeadingHash(ts)
  {
    if ts == [] || LeadingHash(ts[0]) then 0
    else
      var k := BeforeHash(ts[1..]);
      assert forall i :: 0 < i < |ts| ==> ts[i] == ts[1..][i - 1];
      assert ts[..k + 1] == [ts[0]] + ts[1..][..k];
      k + 1
  }

  /** The tokens such a value is cut down to: an unclosed bracket and the labels before the `#`. */
  function Truncated(kept: seq<Token>): seq<Token> {
    [Plain("[" + SELF_HOSTED)] + kept[..BeforeHash(kept)]
  }

  lemma {:induction false} JoinSplit(a: seq<string>, b: seq<string>)
    requires a != [] && b != []
    ensures Join(a + b, ", ") == Join(a, ", ") + ", " + Join(b, ", ")
    decreases |a|
  {
    if |a| == 1 {
      assert (a + b)[1..] == b;
    } else {
      assert (a + b)[1..] == a[1..] + b;
      JoinSplit(a[1..], b);
    }
  }

  lemma OpenBracketIsReadable(x: string)
    requires PlainShape(x)
    ensures Readable([Plain("[" + x)]) && NoLeadingHash([Plain("[" + x)])
  {
    var s := "[" + x;
    assert s[1..] == x;
    PlainIsQuiet(x, true);
    BracketIsQuiet(x);
    assert NoTopComma(Out, s);
    GapOnlyAddsComments(Out, s);
    assert IsPlainChar(s[|s| - 1]);
    NoDollar(s);
  }

  lemma JoinOpenBracket(x: string, rest: seq<string>)
    ensures Join(["[" + x] + rest, ", ") == "[" + Join([x] + rest, ", ")
  {
    assert (["[" + x] + rest)[1..] == rest && ([x] + rest)[1..] == rest;
  }

  lemma TruncatedTokens(kept: seq<Token>)
    requires Readable(kept)
    ensures Readable(Truncated(kept)) && NoLeadingHash(Truncated(kept))
    ensures Join(Raws(Truncated(kept)), ", ") == "[" + Join([SELF_HOSTED] + Raws(kept[..BeforeHash(kept)]), ", ")
  {
    var front := kept[..BeforeHash(kept)];
    OpenBracketIsReadable(SELF_HOSTED);
    ReadableConcat([Plain("[" + SELF_HOSTED)], front);
    assert Raws(Truncated(kept)) == ["[" + SELF_HOSTED] + Raws(front);
    JoinOpenBracket(SELF_HOSTED, Raws(front));
  }

  lemma HashAfterComma(head: string, rest: string)
    requires head != "" && Run(Out, head) == Out && NoComment(Out, true, head)
    requires StartsWith(rest, "#")
    ensures FindHash(Out, true, head + ", " + rest) == |head| + 2
  {
    CleanSeparator(head, rest);
    assert head + ", " + rest == (head + ", ") + rest;
    CleanSeparator(head, "");
    assert head + ", " + "" == head + ", ";
    assert NoComment(Out, true, "");
    FindHashConcat(Out, true, head + ", ", rest);
    assert FindHash(Out, true, rest) == 0;
  }

  lemma CommaSlices(head: string, rest: string)
    ensures var text := head + ", " + rest;
            && text[..|head| + 2] == (head + ",") + " " && text[..|head| + 1] == head + "," && text[|head| + 1..] == " " + rest
  {
  }

  lemma CutBefore(head: string, rest: string)
    requires head != "" && Trimmed(head) && Run(Out, head) == Out && NoComment(Out, true, head)
    requires StartsWith(rest, "#")
    ensures SplitComment(head + ", " + rest) == (head + ",", " " + rest)
  {
    HashAfterComma(head, rest);
    CommaSlices(head, rest);
    TrimRightUnique(head + ",", " ");
    TrimIdentity(head + ",");
  }

  lemma TokenizeTrailingComma(ts: seq<Token>)
    requires TokensValid(ts) && ts != []
    ensures Tokenize(Join(Raws(ts), ", ") + ",") == Some(ts)
  {
    TokenizeJoin(ts);
    ChunksThenComma(Out, "", Join(Raws(ts), ", "));
    var cs := Chunks(Out, "", Join(Raws(ts), ", ")).value;
    TokensOfConcat(cs, [""]);
    assert TokensOf([""]) == TokensOf([""][1..]) == Some([]);
    assert ts + [] == ts;
  }

  lemma {:induction false} ChunksThenComma(q: Quote, cur: string, s: string)
    requires Chunks(q, cur, s).Some?
    ensures Chunks(q, cur, s + ",") == Some(Chunks(q, cur, s).value + [""])
    decreases |s|
  {
    if s == "" {
      assert (s + ",")[1..] == "" && Chunks(Out, "", "") == Some([""]);
    } else {
      assert (s + ",")[1..] == s[1..] + ",";
      if q == Out && s[0] == ',' {
        ChunksThenComma(Out, "", s[1..]);
        var ys := Chunks(Out, "", s[1..]).value;
        assert [cur] + (ys + [""]) == [cur] + ys + [""];
      } else {
        ChunksThenComma(Delta(q, s[0]), cur + [s[0]], s[1..]);
      }
    }
  }

  lemma EmitAtHash(kept: seq<Token>, lca: string, comment: string) returns (rest: string)
    requires BeforeHash(kept) < |kept| && kept[BeforeHash(kept)].raw != ""
    ensures StartsWith(rest, "#")
    ensures Emit(kept, lca) + comment ==
            "[" + Join([SELF_HOSTED] + Raws(kept[..BeforeHash(kept)]), ", ") + ", " + rest
  {
    var k := BeforeHash(kept);
    var front, back := [SELF_HOSTED] + Raws(kept[..k]), Raws(kept[k..]) + [lca];
    PartsAtHash(SELF_HOSTED, kept, k, lca);
    JoinSplit(front, back);
    rest := Join(back, ", ") + "]" + comment;
    AfterHash(back, kept[k].raw, "]", comment);
    Reassociate("[", Join(front, ", "), ", ", Join(back, ", "), "]", comment);
  }

  lemma PartsAtHash(first: string, kept: seq<Token>, k: nat, last: string)
    requires k < |kept|
    ensures [first] + Raws(kept) + [last] == ([first] + Raws(kept[..k])) + (Raws(kept[k..]) + [last])
  {
    RawsSplit(kept, k);
  }

  lemma RawsSplit(kept: seq<Token>, k: nat)
    requires k <= |kept|
    ensures Raws(kept) == Raws(kept[..k]) + Raws(kept[k..])
  {
  }

  lemma AfterHash(back: seq<string>, first: string, close: string, comment: string)
    requires |back| > 1 && back[0] == first && StartsWith(first, "#")
    ensures StartsWith(Join(back, ", ") + close + comment, "#")
  {
    assert (Join(back, ", ") + close + comment)[0] == first[0];
  }

  lemma Reassociate(a: string, b: string, c: string, d: string, e: string, f: string)
    ensures a + (b + c + d) + e + f == a + b + c + (d + e + f)
  {
  }

  /** A list that stops at a comma, its bracket never closed. */
  lemma UnclosedListReadsBack(ts: seq<Token>, rest: string)
    requires Readable(ts) && NoLeadingHash(ts) && ts != []
    requires StartsWith(ts[0].raw, "[") && StartsWith(rest, "#")
    ensures ParseRunsOn(Join(Raws(ts), ", ") + ", " + rest) == Some(ts)
  {
    ReadableList(ts);
    var head := Join(Raws(ts), ", ");
    JoinClean(Raws(ts));
    JoinTrimmed(Raws(ts));
    CutBefore(head, rest);
    TokenizeTrailingComma(ts);
    NoExpressionJoined(Raws(ts));
    NoDollar("");
    assert head + "," == head + [','] + "";
    NoExpressionBetween(head, ',', "");
    assert head[0] == '[' && Parseable(head + ",") && Inner(head + ",") == head + ",";
  }

  /** The bad case: a kept token that starts with `#` turns the rest of the line into a comment. */
  lemma EmitIsTruncated(kept: seq<Token>, lca: string, comment: string)
    requires Readable(kept) && !NoLeadingHash(kept)
    ensures ParseRunsOn(Emit(kept, lca) + comment) == Some(Truncated(kept))
  {
    TruncatedTokens(kept);
    var rest := EmitAtHash(kept, lca, comment);
    UnclosedListReadsBack(Truncated(kept), rest);
  }

  // ---- the theorem ------------------------------------------------------------------------------------

  lemma {:induction false} KeptReadable(ts: seq<Token>)
    requires Readable(ts)
    ensures Readable(Kept(ts))
  {
    if ts != [] {
      KeptReadable(ts[1..]);
    }
  }

  lemma NoCommentMiddle(gap: bool, a: string, b: string, c: string)
    requires NoComment(Out, gap, a + (b + c)) && Run(Out, a) == Out
    ensures NoComment(Out, GapAfter(gap, a), b)
  {
    FindHashConcat(Out, gap, a, b + c);
    FindHashConcat(Out, GapAfter(gap, a), b, c);
  }

  lemma BracketOpens()
    ensures Run(Out, "[") == Out && !GapAfter(true, "[")
  {
    assert "["[1..] == "";
  }

  lemma InnerParts(value: string)
    requires Inner(value) != value
    ensures value == "[" + (Inner(value) + "]")
  {
    assert value[..1] == "[" && value[|value| - 1..] == "]";
  }

  lemma InnerNoComment(value: string)
    requires NoComment(Out, true, value)
    ensures NoComment(Out, Inner(value) == value, Inner(value))
  {
    if Inner(value) != value {
      InnerParts(value);
      BracketOpens();
      NoCommentMiddle(true, "[", Inner(value), "]");
    }
  }

  /** The tokens of a raw value are delivered from the text between its brackets. */
  lemma ParsedDelivers(rawValue: string)
    requires ParseRunsOn(rawValue).Some?
    ensures AllDelivered(ParseRunsOn(rawValue).value, Inner(SplitComment(rawValue).0))
  {
    var value := SplitComment(rawValue).0;
    SplitCommentParts(rawValue);
    InnerNoComment(value);
    TokenizeDelivers(Inner(value), Inner(value) == value);
  }

  /** A pattern in a slice of the bracketed text is in the value. */
  lemma InnerContains(value: string, t: string, pat: string)
    requires IsSlice(t, Inner(value)) && Contains(t, pat)
    ensures Contains(value, pat)
  {
    var inner := Inner(value);
    var l, h :| 0 <= l <= h <= |inner| && t == inner[l..h];
    ContainsSlice(inner, l, h, pat);
    if inner != value {
      ContainsSlice(value, 1, |value| - 1, pat);
    }
  }

  /** Tokens parsed from any raw value are readable, and its comment has the comment shape. */
  lemma ParsedIsReadable(rawValue: string)
    requires ParseRunsOn(rawValue).Some?
    ensures Readable(ParseRunsOn(rawValue).value) && CommentShape(SplitComment(rawValue).1)
  {
    SplitCommentParts(rawValue);
    ParsedDelivers(rawValue);
    var value, ts := SplitComment(rawValue).0, ParseRunsOn(rawValue).value;
    forall i | 0 <= i < |ts| ensures !Contains(ts[i].raw, "${{") {
      if Contains(ts[i].raw, "${{") {
        InnerContains(value, ts[i].raw, "${{");
      }
    }
  }

  /**
   * `now` reads as `self-hosted`, then every surviving label of `was`, each as it was spelled and as
   * often as it occurs, in order, then the LCA label; and the comment is the same byte for byte.
   */
  ghost predicate ReadsAs(was: string, now: string, lca: string) {
    ParseRunsOn(was).Some? && exists kept :: ReadsWith(was, now, lca, kept)
  }

  ghost predicate ReadsWith(was: string, now: string, lca: string, kept: seq<Token>)
    requires ParseRunsOn(was).Some?
  {
    && IsFilter(ParseRunsOn(was).value, Surviving(), kept)
    && ParseRunsOn(now) == Some([Token("self-hosted", "self-hosted")] + kept + [Token(lca, lca)])
    && SplitComment(now).1 == SplitComment(was).1
  }

  /** No surviving token starts with `#`. */
  ghost predicate NothingIsCut(ts: seq<Token>) {
    forall t :: t in ts && Survives(t.value) ==> !StartsWith(t.raw, "#")
  }

  lemma NothingIsCutIff(ts: seq<Token>)
    ensures NothingIsCut(ts) <==> NoLeadingHash(Kept(ts))
  {
    KeptIsFilter(ts);
    FilterHolds(ts, Surviving(), Kept(ts));
    forall i | 0 <= i < |Kept(ts)| ensures Kept(ts)[i] in ts && Survives(Kept(ts)[i].value) {
      assert Kept(ts)[i] in Kept(ts) && Surviving()(Kept(ts)[i]);
    }
    forall t | t in ts && Survives(t.value) ensures t in Kept(ts) {
      assert Surviving()(t);
    }
  }

  /** A rewrite was made, and says what it should. */
  ghost predicate SaysExpected(builtin: seq<Flavor>, rawValue: string, lca: string) {
    var r := RewriteRunsOnValue(builtin, rawValue, lca);
    r.Rewritten? && ReadsAs(rawValue, r.value, lca)
  }

  lemma TruncatedSaysOther(kept: seq<Token>, lca: string)
    ensures Truncated(kept) != Expected(kept, lca)
  {
    assert |Truncated(kept)[0].raw| == 1 + |SELF_HOSTED| && Expected(kept, lca)[0].raw == SELF_HOSTED;
  }

  lemma ReadsAsIff(was: string, now: string, lca: string)
    requires ParseRunsOn(was).Some?
    ensures ReadsAs(was, now, lca) <==>
            var kept := Kept(ParseRunsOn(was).value);
            ParseRunsOn(now) == Some(Expected(kept, lca)) && SplitComment(now).1 == SplitComment(was).1
  {
    var ts := ParseRunsOn(was).value;
    KeptIsFilter(ts);
    assert Expected(Kept(ts), lca) == [Token("self-hosted", "self-hosted")] + Kept(ts) + [Token(lca, lca)];
    if ReadsAs(was, now, lca) {
      var kept :| ReadsWith(was, now, lca, kept);
      FilterIsUnique(ts, Surviving(), kept, Kept(ts));
    } else {
      assert !ReadsWith(was, now, lca, Kept(ts));
    }
  }

  lemma RewrittenIsEmitted(builtin: seq<Flavor>, rawValue: string, lca: string)
    requires RewriteRunsOnValue(builtin, rawValue, lca).Rewritten?
    ensures ParseRunsOn(rawValue).Some?
    ensures RewriteRunsOnValue(builtin, rawValue, lca).value ==
            Emit(Kept(ParseRunsOn(rawValue).value), lca) + SplitComment(rawValue).1
  {
  }

  /** What an emitted value says. */
  lemma EmitSaysIff(kept: seq<Token>, lca: string, comment: string)
    requires Readable(kept) && BuiltinLabel(lca) && CommentShape(comment)
    ensures var v := Emit(kept, lca) + comment;
            ParseRunsOn(v) == Some(Expected(kept, lca)) && SplitComment(v).1 == comment <==> NoLeadingHash(kept)
  {
    if NoLeadingHash(kept) {
      EmitReadsBack(kept, lca, comment);
    } else {
      EmitIsTruncated(kept, lca, comment);
      TruncatedSaysOther(kept, lca);
    }
  }

  /**
   * An accepted rewrite preserves meaning exactly when no surviving token starts with `#`: then it
   * reads back as `self-hosted`, the surviving labels, the LCA label, and the same comment; otherwise
   * everything from that token on has become a comment.
   */
  lemma RewritePreservesMeaningIff(builtin: seq<Flavor>, rawValue: string, lca: string)
    requires BuiltinLabel(lca)
    requires RewriteRunsOnValue(builtin, rawValue, lca).Rewritten?
    ensures ParseRunsOn(rawValue).Some?
    ensures SaysExpected(builtin, rawValue, lca) <==> NothingIsCut(ParseRunsOn(rawValue).value)
  {
    RewrittenIsEmitted(builtin, rawValue, lca);
    NothingIsCutIff(ParseRunsOn(rawValue).value);
    ReadsAsIff(rawValue, RewriteRunsOnValue(builtin, rawValue, lca).value, lca);
    RewrittenSaysIff(builtin, rawValue, lca);
  }

  lemma RewrittenSaysIff(builtin: seq<Flavor>, rawValue: string, lca: string)
    requires BuiltinLabel(lca)
    requires RewriteRunsOnValue(builtin, rawValue, lca).Rewritten?
    ensures ParseRunsOn(rawValue).Some?
    ensures var v, kept := RewriteRunsOnValue(builtin, rawValue, lca).value, Kept(ParseRunsOn(rawValue).value);
            ParseRunsOn(v) == Some(Expected(kept, lca)) && SplitComment(v).1 == SplitComment(rawValue).1 <==> NoLeadingHash(kept)
  {
    RewrittenIsEmitted(builtin, rawValue, lca);
    ParsedIsReadable(rawValue);
    KeptReadable(ParseRunsOn(rawValue).value);
    EmitSaysIff(Kept(ParseRunsOn(rawValue).value), lca, SplitComment(rawValue).1);
  }

  lemma GluedHashIsReadable(x: string)
    requires PlainShape(x)
    ensures Readable([Plain("#" + x)]) && LeadingHash(Plain("#" + x))
  {
    var s := "#" + x;
    assert s[1..] == x;
    PlainIsQuiet(x, false);
    assert !QuotedBy(s, '"') && !QuotedBy(s, '\'');
    NoDollar(s);
  }

  /** A list of one plain label and one that is glued to the comma and starts with `#`. */
  function Glued(hosted: string, x: string): string {
    hosted + "," + ("#" + x)
  }

  lemma GluedIsQuiet(hosted: string, x: string)
    requires PlainShape(hosted) && PlainShape(x)
    ensures Run(Out, Glued(hosted, x)) == Out && NoComment(Out, true, Glued(hosted, x))
  {
    var ts := [Plain("#" + x)];
    GluedHashIsReadable(x);
    assert Delivered(ts[0]);
    PlainThenQuiet(hosted, "#" + x);
  }

  lemma PlainThenQuiet(hosted: string, rest: string)
    requires PlainShape(hosted) && Run(Out, rest) == Out && NoComment(Out, false, rest)
    ensures Run(Out, hosted + "," + rest) == Out && NoComment(Out, true, hosted + "," + rest)
  {
    PlainIsQuiet(hosted, true);
    assert ("," + rest)[1..] == rest;
    assert hosted + "," + rest == hosted + ("," + rest);
    assert IsPlainChar(hosted[|hosted| - 1]);
    RunConcat(Out, hosted, "," + rest);
    FindHashConcat(Out, true, hosted, "," + rest);
  }

  lemma GluedTokens(hosted: string, x: string)
    requires PlainShape(hosted) && PlainShape(x)
    ensures Tokenize(Glued(hosted, x)) == Some([Plain(hosted), Plain("#" + x)])
  {
    GluedHashIsReadable(x);
    ReadableList([Plain("#" + x)]);
    OneTokenReadsBack(Plain("#" + x));
    PlainThenTokens(hosted, "#" + x, [Plain("#" + x)]);
    assert [Plain(hosted)] + [Plain("#" + x)] == [Plain(hosted), Plain("#" + x)];
  }

  lemma OneTokenReadsBack(t: Token)
    requires TokensValid([t])
    ensures Tokenize(t.raw) == Some([t])
  {
    TokenizeJoin([t]);
    assert Raws([t]) == [t.raw] && Join([t.raw], ", ") == t.raw;
  }

  lemma PlainThenTokens(hosted: string, rest: string, ts: seq<Token>)
    requires PlainShape(hosted) && Tokenize(rest) == Some(ts)
    ensures Tokenize(hosted + "," + rest) == Some([Plain(hosted)] + ts)
  {
    PlainIsQuiet(hosted, true);
    PlainIsClean(hosted);
    TrimIdentity(hosted);
    TokensOfOne(hosted);
    TokenizeAtComma(hosted, rest);
  }

  /** The brackets around it are taken off again, and it holds no comment and no expression. */
  lemma GluedValue(hosted: string, x: string)
    requires PlainShape(hosted) && PlainShape(x)
    ensures var raw := "[" + Glued(hosted, x) + "]";
            SplitComment(raw) == (raw, "") && Parseable(raw) && Inner(raw) == Glued(hosted, x)
  {
    var body, raw := Glued(hosted, x), "[" + Glued(hosted, x) + "]";
    GluedIsQuiet(hosted, x);
    BracketIsQuiet(body);
    TrimIdentity(raw);
    NoDollar(raw);
    assert raw[0] == '[' && raw[|raw| - 1] == ']' && raw[1..|raw| - 1] == body;
  }

  /** What `[ubuntu-latest,#x]` is read as: the label glued to its comma is a label. */
  lemma GluedHashIsRead(hosted: string, x: string)
    requires PlainShape(hosted) && PlainShape(x)
    ensures ParseRunsOn("[" + Glued(hosted, x) + "]") == Some([Plain(hosted), Plain("#" + x)])
    ensures SplitComment("[" + Glued(hosted, x) + "]").1 == ""
  {
    GluedValue(hosted, x);
    GluedTokens(hosted, x);
  }

  /** What a rewrite makes of it: printed behind a space, the `#` starts a comment. */
  lemma KeptHashIsCut(x: string, lca: string)
    requires PlainShape(x)
    ensures ParseRunsOn(Emit([Plain("#" + x)], lca) + "") == Some([Plain("[" + SELF_HOSTED)])
  {
    var kept := [Plain("#" + x)];
    GluedHashIsReadable(x);
    assert LeadingHash(kept[0]);
    EmitIsTruncated(kept, lca, "");
    assert kept[..0] == [];
    assert [Plain("[" + SELF_HOSTED)] + [] == [Plain("[" + SELF_HOSTED)];
  }
}
