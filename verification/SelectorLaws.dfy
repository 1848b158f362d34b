/** What the comment splitter leaves and the tokenizer delivers, for any raw selector. */
module SelectorLaws {
  import opened Text
  import opened LabelTokens
  import opened LabelRoundTrip

  // ---- what the comment splitter leaves ---------------------------------------------------------

  lemma {:induction false} WsIsTransparent(q: Quote, w: string)
    requires AllWs(w)
    ensures Run(q, w) == Out <==> q == Out
    ensures q == Out ==> NoComment(q, true, w) && NoComment(q, false, w)
    decreases |w|
  {
    if w != "" {
      assert AllWs(w[1..]);
      WsIsTransparent(Delta(q, w[0]), w[1..]);
    }
  }

  lemma {:induction false} GapOnlyAddsComments(q: Quote, s: string)
    requires NoComment(q, true, s)
    ensures NoComment(q, false, s)
  {
    assert s != "" ==> FindHash(q, false, s) == 1 + FindHash(Delta(q, s[0]), IsWs(s[0]), s[1..]);
  }

  lemma LeadingHashIsTheOnlyDifference(s: string)
    requires NoComment(Out, false, s) && s != ""
    ensures NoComment(Out, true, s) <==> s[0] != '#'
    ensures s[0] == '#' ==> FindHash(Out, true, s) == 0
  {
  }

  /** A comment as the splitter keeps it: white space, then `#`. */
  ghost predicate CommentShape(comment: string) {
    comment == "" ||
    exists k :: 1 <= k < |comment| && AllWs(comment[..k]) && comment[k] == '#'
  }

  /** Cutting margins off a comment-free text leaves comment-free text. */
  lemma NoCommentInside(gap: bool, w: string, v: string, z: string)
    requires AllWs(w) && NoComment(Out, gap, w + (v + z))
    ensures NoComment(Out, gap || w != "", v)
  {
    WsIsTransparent(Out, w);
    FindHashConcat(Out, gap, w, v + z);
    FindHashConcat(Out, GapAfter(gap, w), v, z);
  }

  lemma TrimNoComment(gap: bool, s: string)
    requires NoComment(Out, gap, s)
    ensures NoComment(Out, false, Trim(s)) && (gap ==> NoComment(Out, true, Trim(s)))
  {
    var lo, hi := TrimMargins(s);
    assert s == s[..lo] + (Trim(s) + s[hi..]);
    NoCommentInside(gap, s[..lo], Trim(s), s[hi..]);
    if gap || lo > 0 {
      GapOnlyAddsComments(Out, Trim(s));
    }
  }

  /** Where the comment begins: after white space, unless there is nothing before it. */
  lemma CommentTail(raw: string)
    requires FindHash(Out, true, raw) < |raw|
    ensures var i := FindHash(Out, true, raw);
            var cut := |TrimRight(raw[..i])|;
            cut > 0 ==> CommentShape(raw[cut..])
  {
    var i := FindHash(Out, true, raw);
    FindHashPrefix(Out, true, raw);
    var cut := |TrimRight(raw[..i])|;
    if cut > 0 {
      var comment, k := raw[cut..], i - cut;
      assert forall j :: cut <= j < i ==> raw[j] == raw[..i][j];
      assert comment[k] == raw[i];
    }
  }

  lemma SplitCommentParts(raw: string)
    ensures var (value, comment) := SplitComment(raw);
            value != "" ==> Trimmed(value) && NoComment(Out, true, value) && CommentShape(comment)
  {
    var i := FindHash(Out, true, raw);
    FindHashPrefix(Out, true, raw);
    if i == |raw| {
      assert raw[..i] == raw;
      TrimNoComment(true, raw);
      var _, _ := TrimMargins(raw);
    } else {
      var cut := |TrimRight(raw[..i])|;
      var kept, margin := raw[..cut], raw[..i][cut..];
      assert raw[..i] == kept + margin;
      FindHashConcat(Out, true, kept, margin);
      TrimNoComment(true, kept);
      var _, _ := TrimMargins(kept);
      CommentTail(raw);
    }
  }

  /** The comment starts at a `#` behind white space. */
  lemma HashBehindWs(v: string, w: string, rest: string)
    requires NoComment(Out, true, v) && Run(Out, v) == Out
    requires w != "" && AllWs(w) && StartsWith(rest, "#")
    ensures FindHash(Out, true, v + w + rest) == |v + w|
  {
    WsIsTransparent(Out, w);
    RunConcat(Out, v, w);
    FindHashConcat(Out, true, v, w);
    FindHashConcat(Out, true, v + w, rest);
    assert (v + w)[|v + w| - 1] == w[|w| - 1];
  }

  lemma AppendSlices(v: string, w: string, rest: string)
    ensures var text := v + w + rest; text[..|v + w|] == v + w && text[..|v|] == v && text[|v|..] == w + rest
  {
  }

  lemma SplitAtHash(v: string, w: string, rest: string)
    requires v != "" && Trimmed(v) && NoComment(Out, true, v) && Run(Out, v) == Out
    requires w != "" && AllWs(w) && StartsWith(rest, "#")
    ensures SplitComment(v + w + rest) == (v, w + rest)
  {
    HashBehindWs(v, w, rest);
    AppendSlices(v, w, rest);
    TrimRightUnique(v, w);
    TrimIdentity(v);
  }

  lemma CommentParts(v: string, comment: string, k: nat)
    requires k <= |comment|
    ensures v + comment == v + comment[..k] + comment[k..] && comment == comment[..k] + comment[k..]
  {
  }

  lemma SplitCommentAppend(v: string, comment: string)
    requires v != "" && Trimmed(v) && NoComment(Out, true, v) && Run(Out, v) == Out
    requires CommentShape(comment)
    ensures SplitComment(v + comment) == (v, comment)
  {
    TrimIdentity(v);
    if comment == "" {
      assert v + comment == v;
    } else {
      var k :| 1 <= k < |comment| && AllWs(comment[..k]) && comment[k] == '#';
      CommentParts(v, comment, k);
      SplitAtHash(v, comment[..k], comment[k..]);
    }
  }

  // ---- what the tokenizer delivers ----------------------------------------------------------------

  /** Index of the first comma outside quotes, or `|s|`. */
  function FirstComma(q: Quote, s: string): (n: nat)
    ensures n <= |s| && NoTopComma(q, s[..n])
    ensures n < |s| ==> s[n] == ',' && Run(q, s[..n]) == Out
    decreases |s|
  {
    if s == "" || (q == Out && s[0] == ',') then 0
    else
      var n := FirstComma(Delta(q, s[0]), s[1..]);
      assert s[..n + 1][1..] == s[1..][..n];
      n + 1
  }

  /** What holds of every token read from a comment-free value. */
  ghost predicate Delivered(t: Token) {
    Atom(t.raw) && Unquote(t.raw) == Some(t.value) && NoComment(Out, false, t.raw)
  }

  ghost predicate AllDelivered(ts: seq<Token>, s: string) {
    forall i :: 0 <= i < |ts| ==>
      Delivered(ts[i]) && IsSlice(ts[i].raw, s)
  }

  lemma ClosedInside(w: string, v: string, z: string)
    requires AllWs(w) && AllWs(z) && Run(Out, w + (v + z)) == Out && NoTopComma(Out, w + (v + z))
    ensures Run(Out, v) == Out && NoTopComma(Out, v)
  {
    WsIsTransparent(Out, w);
    RunConcat(Out, w, v + z);
    RunConcat(Out, v, z);
    WsIsTransparent(Run(Out, v), z);
    NoTopCommaConcat(Out, w, v + z);
    NoTopCommaConcat(Out, v, z);
  }

  lemma TrimIsSlice(a: string)
    ensures IsSlice(Trim(a), a)
  {
    var lo, hi := TrimMargins(a);
  }

  lemma Parts(a: string, lo: nat, hi: nat)
    requires lo <= hi <= |a|
    ensures a == a[..lo] + (a[lo..hi] + a[hi..])
  {
  }

  lemma TrimIsClosed(a: string)
    requires Run(Out, a) == Out && NoTopComma(Out, a)
    ensures Run(Out, Trim(a)) == Out && NoTopComma(Out, Trim(a)) && Trimmed(Trim(a))
  {
    var lo, hi := TrimMargins(a);
    Parts(a, lo, hi);
    ClosedInside(a[..lo], a[lo..hi], a[hi..]);
  }

  lemma ChunkTrims(a: string, gap: bool)
    requires Run(Out, a) == Out && NoTopComma(Out, a) && NoComment(Out, gap, a) && Trim(a) != ""
    ensures Atom(Trim(a)) && NoComment(Out, false, Trim(a))
    ensures IsSlice(Trim(a), a)
  {
    TrimIsSlice(a);
    TrimIsClosed(a);
    TrimNoComment(gap, a);
  }

  ghost predicate IsSlice(t: string, s: string) {
    exists lo, hi :: 0 <= lo <= hi <= |s| && t == s[lo..hi]
  }

  lemma SliceOfPart(t: string, a: string, b: string, c: string)
    requires IsSlice(t, b)
    ensures IsSlice(t, a + b + c)
  {
    var lo, hi :| 0 <= lo <= hi <= |b| && t == b[lo..hi];
    assert b[lo..hi] == (a + b + c)[|a| + lo..|a| + hi];
  }

  lemma {:induction false} UnclosedChunk(q: Quote, cur: string, s: string)
    requires NoTopComma(q, s) && Run(q, s) != Out
    ensures Chunks(q, cur, s).None?
    decreases |s|
  {
    if s != "" {
      UnclosedChunk(Delta(q, s[0]), cur + [s[0]], s[1..]);
    }
  }

  lemma TokensOfOne(a: string)
    ensures TokensOf([a]) ==
            if Trim(a) == "" then Some([])
            else if Unquote(Trim(a)).None? then None
            else Some([Token(Trim(a), Unquote(Trim(a)).value)])
  {
    assert [a][1..] == [];
    assert TokensOf([a][1..]) == Some([]);
    if Trim(a) != "" && Unquote(Trim(a)).Some? {
      var t := Token(Trim(a), Unquote(Trim(a)).value);
      assert [t] + [] == [t];
    }
  }

  /** The tokens of one chunk: none, or the trimmed chunk. */
  lemma OneChunkDelivers(a: string, gap: bool)
    requires Run(Out, a) == Out && NoTopComma(Out, a) && NoComment(Out, gap, a)
    requires TokensOf([a]).Some?
    ensures AllDelivered(TokensOf([a]).value, a)
  {
    TokensOfOne(a);
    if Trim(a) != "" {
      ChunkTrims(a, gap);
    }
  }

  /** Everything before the first top-level comma, then everything after it. */
  lemma TokenizeAtComma(a: string, b: string)
    requires NoTopComma(Out, a) && Run(Out, a) == Out
    ensures Tokenize(a + "," + b) ==
            if Tokenize(b).None? || TokensOf([a]).None? then None
            else Some(TokensOf([a]).value + Tokenize(b).value)
  {
    assert "" + a == a;
    ChunksAtom(Out, "", a, b);
    if Chunks(Out, "", b).Some? {
      TokensOfConcat([a], Chunks(Out, "", b).value);
    }
  }

  lemma DeliveredConcat(head: seq<Token>, a: string, tail: seq<Token>, b: string)
    requires AllDelivered(head, a) && AllDelivered(tail, b)
    ensures AllDelivered(head + tail, a + "," + b)
  {
    var s, ts := a + "," + b, head + tail;
    assert s == "" + a + ("," + b) && s == (a + ",") + b + "";
    forall i | 0 <= i < |ts| ensures Delivered(ts[i]) && IsSlice(ts[i].raw, s) {
      if i < |head| {
        SliceOfPart(head[i].raw, "", a, "," + b);
      } else {
        SliceOfPart(tail[i - |head|].raw, a + ",", b, "");
      }
    }
  }

  lemma NoCommentAtComma(gap: bool, a: string, b: string)
    requires Run(Out, a) == Out && NoComment(Out, gap, a + "," + b)
    ensures NoComment(Out, gap, a) && NoComment(Out, false, b)
  {
    assert a + "," + b == a + ("," + b) && ("," + b)[1..] == b;
    FindHashConcat(Out, gap, a, "," + b);
  }

  lemma {:induction false} TokenizeDelivers(s: string, gap: bool)
    requires NoComment(Out, gap, s) && Tokenize(s).Some?
    ensures AllDelivered(Tokenize(s).value, s)
    decreases |s|
  {
    var n := FirstComma(Out, s);
    var a := s[..n];
    if n == |s| {
      assert a == s && "" + s == s;
      if Run(Out, s) != Out {
        UnclosedChunk(Out, "", s);
      }
      ChunksAtom(Out, "", s, "");
      OneChunkDelivers(s, gap);
    } else {
      var b := s[n + 1..];
      assert s == a + "," + b;
      TokenizeAtComma(a, b);
      NoCommentAtComma(gap, a, b);
      OneChunkDelivers(a, gap);
      TokenizeDelivers(b, false);
      DeliveredConcat(TokensOf([a]).value, a, Tokenize(b).value, b);
    }
  }
}
