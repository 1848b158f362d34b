/** Text primitives the planner and the claim gate share: whitespace, trimming, case, joining. */
module Text {

  datatype Option<+T> = None | Some(value: T)

  /** ECMAScript white space and line terminators: what `\s` matches and `trim` removes. */
  predicate IsWs(c: char) {
    || '\t' <= c <= '\r'
    || c == ' ' || c == '\U{00A0}' || c == '\U{1680}' || '\U{2000}' <= c <= '\U{200A}'
    || c == '\U{2028}' || c == '\U{2029}' || c == '\U{202F}' || c == '\U{205F}'
    || c == '\U{3000}' || c == '\U{FEFF}'
  }

  ghost predicate AllWs(s: string) {
    forall i :: 0 <= i < |s| ==> IsWs(s[i])
  }

  /** Number of leading white-space characters. */
  function WsPrefix(s: string): (n: nat)
    ensures n <= |s|
    ensures forall i :: 0 <= i < n ==> IsWs(s[i])
    ensures n < |s| ==> !IsWs(s[n])
  {
    if s == "" || !IsWs(s[0]) then 0 else 1 + WsPrefix(s[1..])
  }

  function TrimLeft(s: string): string {
    s[WsPrefix(s)..]
  }

  /** `s` without its trailing white space. */
  function TrimRight(s: string): (r: string)
    ensures |r| <= |s| && r == s[..|r|]
    ensures forall i :: |r| <= i < |s| ==> IsWs(s[i])
    ensures r != "" ==> !IsWs(r[|r| - 1])
  {
    if s == "" || !IsWs(s[|s| - 1]) then s else TrimRight(s[..|s| - 1])
  }

  function Trim(s: string): string {
    TrimRight(TrimLeft(s))
  }

  ghost predicate Trimmed(s: string) {
    s == "" || (!IsWs(s[0]) && !IsWs(s[|s| - 1]))
  }

  /** `Trim` cuts a white-space margin off both ends and nothing else. */
  lemma TrimMargins(s: string) returns (lo: nat, hi: nat)
    ensures lo <= hi <= |s| && Trim(s) == s[lo..hi]
    ensures forall i :: 0 <= i < lo || hi <= i < |s| ==> IsWs(s[i])
    ensures Trimmed(Trim(s))
  {
    lo := WsPrefix(s);
    var left := s[lo..];
    hi := lo + |TrimRight(left)|;
    assert s[lo..hi] == left[..hi - lo];
    forall i | hi <= i < |s| ensures IsWs(s[i]) {
      assert s[i] == left[i - lo];
    }
    if Trim(s) != "" {
      assert Trim(s)[0] == s[lo];
    }
  }

  lemma TrimLeftUnique(a: string, s: string)
    requires AllWs(a) && (s == "" || !IsWs(s[0]))
    ensures WsPrefix(a + s) == |a| && TrimLeft(a + s) == s
  {
    assert forall i :: 0 <= i < |a| ==> (a + s)[i] == a[i];
    assert s != "" ==> (a + s)[|a|] == s[0];
  }

  lemma TrimRightUnique(s: string, b: string)
    requires AllWs(b) && (s == "" || !IsWs(s[|s| - 1]))
    ensures TrimRight(s + b) == s
  {
    assert forall i :: 0 <= i < |b| ==> (s + b)[|s| + i] == b[i];
    assert s != "" ==> (s + b)[|s| - 1] == s[|s| - 1];
  }

  lemma TrimPadded(a: string, s: string, b: string)
    requires AllWs(a) && AllWs(b) && Trimmed(s) && s != ""
    ensures Trim(a + s + b) == s
  {
    assert a + s + b == a + (s + b);
    TrimLeftUnique(a, s + b);
    TrimRightUnique(s, b);
  }

  lemma TrimIdentity(s: string)
    requires Trimmed(s)
    ensures Trim(s) == s
  {
    if s != "" {
      assert "" + s + "" == s;
      TrimPadded("", s, "");
    }
  }

  function LowerChar(c: char): char {
    if 'A' <= c <= 'Z' then (c as int + 32) as char else c
  }

  function Lower(s: string): (r: string)
    ensures |r| == |s|
    ensures forall i :: 0 <= i < |s| ==> r[i] == LowerChar(s[i])
  {
    seq(|s|, i requires 0 <= i < |s| => LowerChar(s[i]))
  }

  function LowerAll(ss: seq<string>): (r: seq<string>)
    ensures |r| == |ss|
    ensures forall i :: 0 <= i < |ss| ==> r[i] == Lower(ss[i])
  {
    seq(|ss|, i requires 0 <= i < |ss| => Lower(ss[i]))
  }

  lemma LowerIdempotent(s: string)
    ensures Lower(Lower(s)) == Lower(s)
  {
  }

  lemma WsLower(c: char)
    ensures IsWs(LowerChar(c)) <==> IsWs(c)
  {
  }

  lemma {:induction false} WsPrefixLower(s: string)
    ensures WsPrefix(Lower(s)) == WsPrefix(s)
  {
    if s != "" {
      WsLower(s[0]);
      assert Lower(s)[1..] == Lower(s[1..]);
      WsPrefixLower(s[1..]);
    }
  }

  lemma {:induction false} TrimRightLower(s: string)
    ensures TrimRight(Lower(s)) == Lower(TrimRight(s))
  {
    if s != "" {
      var n := |s| - 1;
      WsLower(s[n]);
      assert Lower(s)[..n] == Lower(s[..n]);
      TrimRightLower(s[..n]);
    }
  }

  lemma LowerDrop(s: string, n: nat)
    requires n <= |s|
    ensures Lower(s)[n..] == Lower(s[n..])
  {
  }

  /** Lower-casing and trimming commute: no letter is white space. */
  lemma TrimLower(s: string)
    ensures Trim(Lower(s)) == Lower(Trim(s))
  {
    WsPrefixLower(s);
    LowerDrop(s, WsPrefix(s));
    TrimRightLower(TrimLeft(s));
  }

  predicate StartsWith(s: string, p: string) {
    p <= s
  }

  predicate EndsWithChar(s: string, c: char) {
    s != "" && s[|s| - 1] == c
  }

  /** Substring test. */
  predicate Contains(s: string, pat: string) {
    exists i :: 0 <= i <= |s| && pat <= s[i..]
  }

  /** `parts.join(sep)`. */
  function Join(parts: seq<string>, sep: string): string {
    if |parts| == 0 then ""
    else if |parts| == 1 then parts[0]
    else parts[0] + sep + Join(parts[1..], sep)
  }

  /** Every character of a pattern occurs where the pattern does. */
  lemma ContainsNeeds(s: string, pat: string, k: nat)
    requires k < |pat| && Contains(s, pat)
    ensures pat[k] in s
  {
    var i :| 0 <= i <= |s| && pat <= s[i..];
    assert s[i + k] == s[i..][k] == pat[k];
  }

  /** A pattern that occurs in a slice occurs in the whole text. */
  lemma ContainsSlice(s: string, lo: nat, hi: nat, pat: string)
    requires lo <= hi <= |s| && Contains(s[lo..hi], pat)
    ensures Contains(s, pat)
  {
    var i :| 0 <= i <= hi - lo && pat <= s[lo..hi][i..];
    assert s[lo..hi][i..] == s[lo + i..hi];
    assert pat == s[lo..hi][i..][..|pat|] == s[lo + i..][..|pat|];
    assert pat <= s[lo + i..];
  }

  /** A pattern without the character `c` cannot straddle a `c`. */
  lemma ContainsAround(a: string, c: char, b: string, pat: string)
    requires c !in pat && Contains(a + [c] + b, pat)
    ensures Contains(a, pat) || Contains(b, pat)
  {
    var s := a + [c] + b;
    var i :| 0 <= i <= |s| && pat <= s[i..];
    assert s[|a|] == c;
    assert forall k :: i <= k < i + |pat| ==> s[k] == pat[k - i];
    if i + |pat| <= |a| {
      assert pat == s[i..][..|pat|] == a[i..][..|pat|];
      assert pat <= a[i..];
    } else {
      assert i > |a|;
      var j := i - |a| - 1;
      assert s[i..] == b[j..];
      assert pat <= b[j..];
    }
  }
}
