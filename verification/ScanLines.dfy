/**
 * What the scanner sees in a line of YAML, spelling by spelling, and that blank lines and comments
 * change nothing it finds.
 */
module ScanLines {
  import opened Text
  import opened Scanner
  import opened PlannerLaws

  const UPPER := "ABCDEFGHIJKLMNOPQRSTUVWXYZ"
  const LOWER := "abcdefghijklmnopqrstuvwxyz"
  const DIGITS := "0123456789"

  /** What an unquoted key is made of. */
  predicate InNames(c: char) {
    c in UPPER || c in LOWER || c in DIGITS || c in "_.-"
  }

  lemma UpperNames(c: char)
    ensures c in UPPER <==> 'A' <= c <= 'Z'
  {
    assert 'A' <= c <= 'Z' ==> UPPER[c as int - 'A' as int] == c;
  }

  lemma LowerNames(c: char)
    ensures c in LOWER <==> 'a' <= c <= 'z'
  {
    assert 'a' <= c <= 'z' ==> LOWER[c as int - 'a' as int] == c;
  }

  lemma DigitNames(c: char)
    ensures c in DIGITS <==> '0' <= c <= '9'
  {
    assert '0' <= c <= '9' ==> DIGITS[c as int - '0' as int] == c;
  }

  lemma NameCharsAre(c: char)
    ensures InNames(c) <==> IsNameChar(c)
  {
    UpperNames(c);
    LowerNames(c);
    DigitNames(c);
  }

  lemma AllNameChars(name: string)
    requires forall i :: 0 <= i < |name| ==> InNames(name[i])
    ensures forall i :: 0 <= i < |name| ==> IsNameChar(name[i])
  {
    forall i | 0 <= i < |name| ensures IsNameChar(name[i]) {
      NameCharsAre(name[i]);
    }
  }

  // ---- lines by their spelling ------------------------------------------------------------------------

  /** Nothing but a comment, or nothing at all, follows the colon. */
  predicate NoBody(after: string) {
    Trim(after) == "" || Trim(after)[0] == '#'
  }

  lemma BlankLine(w: string)
    requires AllWs(w)
    ensures Classify(w).Blank?
  {
    var line := StripCr(w);
    assert forall i :: 0 <= i < |line| ==> IsWs(line[i]);
    assert WsPrefix(line) == |line| && TrimLeft(line) == "";
  }

  lemma HeadIsKept(w: string, s: string)
    requires AllWs(w) && s != "" && !IsWs(s[0])
    ensures Trim(w + s) != "" && Trim(w + s)[0] == s[0] && WsPrefix(w + s) == |w| && (w + s)[|w|..] == s
  {
    TrimLeftUnique(w, s);
    assert |TrimRight(s)| > 0;
  }

  /** Whatever is behind the `#`. */
  lemma CommentLine(w: string, comment: string)
    requires AllWs(w)
    ensures Classify(w + ("#" + comment)).Blank?
  {
    var s := "#" + comment;
    if EndsWithChar(w + s, '\r') {
      var n := |s| - 1;
      assert n > 0 && (w + s)[..|w + s| - 1] == w + s[..n];
      HeadIsKept(w, s[..n]);
    } else {
      HeadIsKept(w, s);
    }
  }

  lemma TrimLeftTwice(s: string)
    ensures Trim(TrimLeft(s)) == Trim(s)
  {
    var t := TrimLeft(s);
    assert "" + t == t;
    TrimLeftUnique("", t);
  }

  lemma NoTermSuffix(s: string, n: nat)
    requires NoTerm(s) && n <= |s|
    ensures !HasTerminator(s[n..]) && !HasTerminator(s) && !HasTerminator(DropTail(SkipPad(s)))
  {
    SuffixSlice(s, n);
    PadIsSuffix(s);
    TailIsPrefix(SkipPad(s));
  }

  lemma {:induction false} PadIsSuffix(s: string)
    requires NoTerm(s)
    ensures NoTerm(SkipPad(s))
  {
    if s != "" && IsPad(s[0]) {
      PadIsSuffix(s[1..]);
    }
  }

  lemma {:induction false} TailIsPrefix(s: string)
    requires NoTerm(s)
    ensures NoTerm(DropTail(s))
  {
    if s != "" && IsTail(s[|s| - 1]) {
      TailIsPrefix(s[..|s| - 1]);
    }
  }

  lemma SelectorIff(name: string, after: string)
    requires name != "" && (forall i :: 0 <= i < |name| ==> IsNameChar(name[i]))
    ensures StartsWith(name + (":" + after), RUNS_ON) <==> name == RUNS_ON_KEY
  {
    var s := name + (":" + after);
    assert RUNS_ON[7] == ':' && RUNS_ON[..7] == RUNS_ON_KEY && |RUNS_ON| == 8;
    assert s[|name|] == ':' && s[..|name|] == name;
    if |name| > 7 {
      assert s[7] == name[7];
    } else if |name| == 7 {
      assert s[..8] == name + ":" && RUNS_ON == RUNS_ON_KEY + ":";
    } else {
      assert !IsNameChar(s[|name|]) && IsNameChar(RUNS_ON[|name|]);
    }
  }

  lemma EndsWhole(line: string)
    requires line != "" && NoTerm(line)
    ensures StripCr(line) == line
  {
    assert !IsTerminator(line[|line| - 1]);
  }

  /**
   * A plain key in any column: its name, whether a body can stand below it (nothing but a comment
   * behind the colon), and that exactly `runs-on` is a selector.
   */
  lemma PlainKeyLine(w: string, name: string, after: string)
    requires AllWs(w) && NoTerm(w) && NoTerm(after)
    requires name != "" && forall i :: 0 <= i < |name| ==> InNames(name[i])
    ensures Classify(w + (name + (":" + after))) == Key(|w|, name, NoBody(after), name == "runs-on")
  {
    var s := name + (":" + after);
    AllNameChars(name);
    KeyLineShape(w, name, after, s);
    KeyLineReads(w, name, after, s);
    SelectorIff(name, after);
    AfterSelector(name, after, s);
    TrimLeftTwice(after);
    NoTermSuffix(after, 0);
    SelectorMatches(w + s, |w|, name, after, s);
    ClassOfKey(w + s, |w|, name, after);
  }

  lemma KeyLineShape(w: string, name: string, after: string, s: string)
    requires AllWs(w) && NoTerm(w) && NoTerm(after) && s == name + (":" + after)
    requires name != "" && forall i :: 0 <= i < |name| ==> IsNameChar(name[i])
    ensures StripCr(w + s) == w + s && Trim(w + s) != "" && Trim(w + s)[0] != '#'
    ensures WsPrefix(w + s) == |w| && (w + s)[|w|..] == s
  {
    assert s[0] == name[0] && IsNameChar(s[0]);
    HeadIsKept(w, s);
    KeyLineIsWhole(w, name, after);
    EndsWhole(w + s);
  }

  lemma KeyLineReads(w: string, name: string, after: string, s: string)
    requires AllWs(w) && NoTerm(after) && s == name + (":" + after)
    requires name != "" && forall i :: 0 <= i < |name| ==> IsNameChar(name[i])
    ensures ParseKey(w + s) == Some((|w|, name, TrimLeft(after)))
  {
    NoTermSuffix(after, WsPrefix(after));
    ParseKeyOf(w, name, after);
  }

  lemma AfterSelector(name: string, after: string, s: string)
    requires s == name + (":" + after)
    ensures name == RUNS_ON_KEY ==> s[|RUNS_ON|..] == after
  {
  }

  lemma KeyLineIsWhole(w: string, name: string, after: string)
    requires NoTerm(w) && NoTerm(after) && forall i :: 0 <= i < |name| ==> IsNameChar(name[i])
    ensures NoTerm(w + (name + (":" + after)))
  {
    var line := w + (name + (":" + after));
    forall i | 0 <= i < |line| ensures !IsTerminator(line[i]) {
      assert |w| <= i < |w| + |name| ==> line[i] == name[i - |w|];
      assert |w| + |name| < i ==> line[i] == after[i - |w| - |name| - 1];
    }
  }

  lemma SelectorMatches(line: string, indent: nat, name: string, after: string, s: string)
    requires WsPrefix(line) == indent && line[indent..] == s
    requires StartsWith(s, RUNS_ON) <==> name == RUNS_ON_KEY
    requires name == RUNS_ON_KEY ==> s[|RUNS_ON|..] == after && !HasTerminator(DropTail(SkipPad(after)))
    ensures MatchRunsOn(line).Some? <==> name == RUNS_ON_KEY
  {
  }

  lemma ClassOfKey(line: string, indent: nat, name: string, after: string)
    requires StripCr(line) == line && Trim(line) != "" && Trim(line)[0] != '#'
    requires ParseKey(line) == Some((indent, name, TrimLeft(after))) && Trim(TrimLeft(after)) == Trim(after)
    requires MatchRunsOn(line).Some? <==> name == RUNS_ON_KEY
    ensures Classify(line) == Key(indent, name, NoBody(after), name == RUNS_ON_KEY)
  {
  }

  /** Free of the quote, and of escapes inside double quotes. */
  predicate Quotable(name: string, q: char) {
    forall i :: 0 <= i < |name| ==> name[i] != q && (q == '"' ==> name[i] != '\\')
  }

  lemma {:induction false} QuoteRunOf(name: string, q: char, rest: string)
    requires Quotable(name, q) && rest != "" && rest[0] == q
    ensures QuoteRun(name + rest, q) == |name|
  {
    if name == "" {
      assert name + rest == rest;
    } else {
      assert (name + rest)[1..] == name[1..] + rest;
      QuoteRunOf(name[1..], q, rest);
    }
  }

  lemma QuotedSpells(q: char, name: string, rest: string, s: string)
    requires (q == '"' || q == '\'') && Quotable(name, q) && s == [q] + name + [q] + rest
    ensures KeySpelling(s) == Some((name, |name| + 2)) && s[|name| + 2..] == rest
  {
    QuoteRunOf(name, q, [q] + rest);
    assert s[1..] == name + ([q] + rest);
    assert s[1..|name| + 1] == name;
  }

  /** A quoted key names what stands between its quotes, and is never taken for a selector. */
  lemma QuotedKeyLine(w: string, q: char, name: string, after: string)
    requires AllWs(w) && NoTerm(w) && NoTerm(after) && NoTerm(name)
    requires (q == '"' || q == '\'') && Quotable(name, q)
    ensures Classify(w + ([q] + name + [q] + (":" + after))) == Key(|w|, name, NoBody(after), false)
  {
    var rest := ":" + after;
    var s := [q] + name + [q] + rest;
    QuotedSpells(q, name, rest, s);
    HeadIsKept(w, s);
    QuotedLineIsWhole(w, q, name, after, s);
    EndsWhole(w + s);
    NoTermSuffix(after, WsPrefix(after));
    TrimLeftTwice(after);
    assert s[|name| + 3..] == rest[1..] == after && s[|name| + 2] == ':';
    assert ParseKey(w + s) == Some((|w|, name, TrimLeft(after)));
    QuotedIsNoSelector(w + s, |w|, s);
    ClassOfQuoted(w + s, |w|, name, after);
  }

  lemma QuotedLineIsWhole(w: string, q: char, name: string, after: string, s: string)
    requires NoTerm(w) && NoTerm(after) && NoTerm(name) && (q == '"' || q == '\'')
    requires s == [q] + name + [q] + (":" + after)
    ensures NoTerm(w + s)
  {
    var line := w + s;
    forall i | 0 <= i < |line| ensures !IsTerminator(line[i]) {
      assert |w| < i <= |w| + |name| ==> line[i] == name[i - |w| - 1];
      assert |w| + |name| + 2 < i ==> line[i] == after[i - |w| - |name| - 3];
    }
  }

  lemma ClassOfQuoted(line: string, indent: nat, name: string, after: string)
    requires StripCr(line) == line && Trim(line) != "" && Trim(line)[0] != '#'
    requires ParseKey(line) == Some((indent, name, TrimLeft(after))) && Trim(TrimLeft(after)) == Trim(after)
    requires MatchRunsOn(line).None?
    ensures Classify(line) == Key(indent, name, NoBody(after), false)
  {
  }

  lemma QuotedIsNoSelector(line: string, indent: nat, s: string)
    requires WsPrefix(line) == indent && line[indent..] == s && s != "" && s[0] != 'r'
    ensures MatchRunsOn(line).None?
  {
    assert RUNS_ON[0] == 'r';
  }

  /** A line that starts like no key and no comment. */
  lemma OtherLine(w: string, s: string)
    requires AllWs(w) && NoTerm(w) && NoTerm(s) && s != ""
    requires !IsWs(s[0]) && !InNames(s[0]) && s[0] != '#' && s[0] != '"' && s[0] != '\''
    ensures Classify(w + s) == Other(|w|)
  {
    var line := w + s;
    HeadIsKept(w, s);
    forall i | 0 <= i < |line| ensures !IsTerminator(line[i]) {
      assert |w| <= i ==> line[i] == s[i - |w|];
    }
    EndsWhole(line);
    NameCharsAre(s[0]);
    assert KeySpelling(s).None?;
  }

  // ---- the selector line ------------------------------------------------------------------------------------

  const LINE_BREAKS := "\n\r\U{2028}\U{2029}"

  predicate MadeOf(s: string, chars: string) {
    forall i :: 0 <= i < |s| ==> s[i] in chars
  }

  predicate FreeOf(s: string, chars: string) {
    forall i :: 0 <= i < |s| ==> s[i] !in chars
  }

  /** The value stands alone: no margin of blanks, and no line break inside. */
  predicate Bare(value: string) {
    && FreeOf(value, LINE_BREAKS)
    && (value != "" ==> value[0] !in " \t" && value[|value| - 1] !in " \t\r")
  }

  /** `line` is white space, the key, blanks, the value, and blanks or a carriage return. */
  ghost predicate SelectorLine(line: string, indent: string, value: string) {
    && AllWs(indent) && Bare(value)
    && exists pad, tail :: MadeOf(pad, " \t") && MadeOf(tail, " \t\r") && line == indent + ("runs-on:" + (pad + (value + tail)))
  }

  lemma CharClasses(c: char)
    ensures IsPad(c) <==> c in " \t"
    ensures IsTail(c) <==> c in " \t\r"
    ensures IsTerminator(c) <==> c in LINE_BREAKS
  {
  }

  lemma BareIff(value: string)
    ensures Bare(value) <==>
            !HasTerminator(value) && (value != "" ==> !IsPad(value[0]) && !IsTail(value[|value| - 1]))
  {
    forall i | 0 <= i < |value| ensures IsTerminator(value[i]) <==> value[i] in LINE_BREAKS {
      CharClasses(value[i]);
    }
    if value != "" {
      CharClasses(value[0]);
      CharClasses(value[|value| - 1]);
    }
  }

  lemma {:induction false} PadSkipped(pad: string, s: string)
    requires MadeOf(pad, " \t")
    ensures SkipPad(pad + s) == SkipPad(s)
  {
    if pad == "" {
      assert pad + s == s;
    } else {
      CharClasses(pad[0]);
      assert (pad + s)[1..] == pad[1..] + s;
      PadSkipped(pad[1..], s);
    }
  }

  lemma {:induction false} TailDropped(s: string, tail: string)
    requires MadeOf(tail, " \t\r")
    ensures DropTail(s + tail) == DropTail(s)
  {
    var n := |tail|;
    if n == 0 {
      assert s + tail == s;
    } else {
      CharClasses(tail[n - 1]);
      assert (s + tail)[..|s + tail| - 1] == s + tail[..n - 1];
      TailDropped(s, tail[..n - 1]);
    }
  }

  lemma {:induction false} PadIs(s: string) returns (pad: string)
    ensures MadeOf(pad, " \t") && s == pad + SkipPad(s)
  {
    if s == "" || !IsPad(s[0]) {
      pad := "";
    } else {
      CharClasses(s[0]);
      var rest := PadIs(s[1..]);
      pad := [s[0]] + rest;
    }
  }

  lemma {:induction false} TailIs(s: string) returns (tail: string)
    ensures MadeOf(tail, " \t\r") && s == DropTail(s) + tail
  {
    if s == "" || !IsTail(s[|s| - 1]) {
      tail := "";
    } else {
      CharClasses(s[|s| - 1]);
      var rest := TailIs(s[..|s| - 1]);
      tail := rest + [s[|s| - 1]];
    }
  }

  /** Between its margins, a bare value is what stands there. */
  lemma ValueBetween(pad: string, value: string, tail: string)
    requires MadeOf(pad, " \t") && MadeOf(tail, " \t\r") && Bare(value)
    ensures DropTail(SkipPad(pad + (value + tail))) == value && !HasTerminator(value)
  {
    BareIff(value);
    PadSkipped(pad, value + tail);
    if value == "" {
      var left := PadIs(tail);
      var rest := SkipPad(tail);
      assert value + tail == tail;
      forall i | 0 <= i < |rest| ensures rest[i] in " \t\r" {
        assert rest[i] == tail[|left| + i];
      }
      TailDropped("", rest);
      assert "" + rest == rest;
    } else {
      assert (value + tail)[0] == value[0];
      TailDropped(value, tail);
    }
  }

  lemma DropKeepsHead(s: string)
    ensures DropTail(s) != "" ==> s != "" && DropTail(s)[0] == s[0]
  {
    var tail := TailIs(s);
  }

  /** What stands behind the key is taken apart. */
  lemma Margins(after: string) returns (pad: string, tail: string)
    requires !HasTerminator(DropTail(SkipPad(after)))
    ensures MadeOf(pad, " \t") && MadeOf(tail, " \t\r") && Bare(DropTail(SkipPad(after)))
    ensures after == pad + (DropTail(SkipPad(after)) + tail)
  {
    pad := PadIs(after);
    tail := TailIs(SkipPad(after));
    DropKeepsHead(SkipPad(after));
    BareIff(DropTail(SkipPad(after)));
  }

  lemma SelectorOfParts(indent: string, pad: string, value: string, tail: string)
    requires AllWs(indent) && Bare(value) && MadeOf(pad, " \t") && MadeOf(tail, " \t\r")
    ensures SelectorLine(indent + (RUNS_ON + (pad + (value + tail))), indent, value)
  {
  }

  lemma KeyInFront(line: string, indent: nat)
    requires indent <= |line| && StartsWith(line[indent..], RUNS_ON)
    ensures line == line[..indent] + (RUNS_ON + line[indent..][|RUNS_ON|..])
  {
    StartsSplit(line[indent..], RUNS_ON);
  }

  lemma MatchedIsSelector(line: string, indent: string, value: string)
    requires MatchRunsOn(line) == Some((indent, value))
    ensures SelectorLine(line, indent, value)
  {
    var n := WsPrefix(line);
    var pad, tail := Margins(line[n..][|RUNS_ON|..]);
    KeyInFront(line, n);
    SelectorOfParts(indent, pad, value, tail);
  }

  lemma SelectorIsMatched(indent: string, pad: string, value: string, tail: string)
    requires AllWs(indent) && Bare(value) && MadeOf(pad, " \t") && MadeOf(tail, " \t\r")
    ensures MatchRunsOn(indent + (RUNS_ON + (pad + (value + tail)))) == Some((indent, value))
  {
    var s := RUNS_ON + (pad + (value + tail));
    assert s[0] == 'r';
    HeadIsKept(indent, s);
    ValueBetween(pad, value, tail);
    assert s[|RUNS_ON|..] == pad + (value + tail);
  }

  /** What is taken for a selector and what for its value, for every line of text. */
  lemma SelectorReads(line: string, indent: string, value: string)
    ensures MatchRunsOn(line) == Some((indent, value)) <==> SelectorLine(line, indent, value)
  {
    if MatchRunsOn(line) == Some((indent, value)) {
      MatchedIsSelector(line, indent, value);
    }
    if SelectorLine(line, indent, value) {
      var pad, tail :| MadeOf(pad, " \t") && MadeOf(tail, " \t\r") && line == indent + ("runs-on:" + (pad + (value + tail)));
      SelectorIsMatched(indent, pad, value, tail);
    }
  }

  // ---- blank lines and comments change nothing --------------------------------------------------------------

  /** Where a line stands after one more was put in at `at`. */
  function Moved(at: nat, k: nat): nat {
    if k < at then k else k + 1
  }

  function MovedFound(at: nat, found: map<string, nat>): map<string, nat> {
    map job | job in found :: Moved(at, found[job])
  }

  /** `s` with its line numbers moved, its found lines being `found`. */
  function MovedTo(at: nat, s: Scan, found: map<string, nat>): Scan {
    Scan(
      if s.jobs.Some? then Some(Moved(at, s.jobs.value)) else None,
      s.stopped, s.jobColumn,
      if s.current.Some? then Some((s.current.value.0, Moved(at, s.current.value.1))) else None,
      if s.body.Some? then Some((s.body.value.0, Moved(at, s.body.value.1))) else None,
      found)
  }

  function MovedScan(at: nat, s: Scan): Scan {
    MovedTo(at, s, MovedFound(at, s.found))
  }

  lemma MovedAdds(at: nat, found: map<string, nat>, job: string, k: nat)
    ensures MovedFound(at, found[job := k]) == MovedFound(at, found)[job := Moved(at, k)]
  {
  }

  /** One step, whatever the found lines are: they stay, or the current job's line is added. */
  ghost predicate StepMoved(at: nat, s: Scan, c: LineClass, i: nat, found: map<string, nat>) {
    var after, moved := Step(s, c, i), Step(MovedTo(at, s, found), c, i + 1);
    || (after.found == s.found && moved == MovedTo(at, after, found))
    || (s.current.Some? && after.found == s.found[s.current.value.0 := i]
        && moved == MovedTo(at, after, found[s.current.value.0 := i + 1]))
  }

  lemma MovedOutside(at: nat, s: Scan, c: LineClass, i: nat, found: map<string, nat>)
    requires at <= i && found.Keys == s.found.Keys && (s.current.None? || !c.Key? || c.indent == 0)
    ensures StepMoved(at, s, c, i, found)
  {
  }

  lemma MovedFirstKey(at: nat, s: Scan, c: LineClass, i: nat, found: map<string, nat>)
    requires at <= i && found.Keys == s.found.Keys && s.current.Some? && c.Key? && c.indent > 0 && s.body.None?
    ensures StepMoved(at, s, c, i, found)
  {
  }

  lemma MovedInBody(at: nat, s: Scan, c: LineClass, i: nat, found: map<string, nat>)
    requires at <= i && found.Keys == s.found.Keys && s.current.Some? && c.Key? && c.indent > 0 && s.body.Some?
    ensures StepMoved(at, s, c, i, found)
  {
  }

  lemma MovedStep(at: nat, s: Scan, c: LineClass, i: nat)
    requires at <= i
    ensures Step(MovedScan(at, s), c, i + 1) == MovedScan(at, Step(s, c, i))
  {
    var found := MovedFound(at, s.found);
    if s.current.None? || !c.Key? || c.indent == 0 {
      MovedOutside(at, s, c, i, found);
    } else if s.body.None? {
      MovedFirstKey(at, s, c, i, found);
    } else {
      MovedInBody(at, s, c, i, found);
    }
    if s.current.Some? {
      MovedAdds(at, s.found, s.current.value.0, i);
    }
  }

  /** Everything a scan knows lies before where it stands. */
  ghost predicate Behind(s: Scan, n: nat) {
    && (s.jobs.Some? ==> s.jobs.value < n)
    && (s.current.Some? ==> s.current.value.1 < n)
    && (s.body.Some? ==> s.body.value.1 < n)
    && forall job :: job in s.found ==> s.found[job] < n
  }

  lemma {:induction false} ScanIsBehind(cls: seq<LineClass>, n: nat)
    requires n <= |cls|
    ensures Behind(ScanTo(cls, n), n)
  {
    if n > 0 {
      ScanIsBehind(cls, n - 1);
    }
  }

  lemma BehindStays(at: nat, s: Scan)
    requires Behind(s, at)
    ensures MovedScan(at, s) == s
  {
    assert MovedFound(at, s.found) == s.found;
  }

  lemma {:induction false} SamePrefixScan(cls: seq<LineClass>, other: seq<LineClass>, n: nat)
    requires n <= |cls| && n <= |other| && forall i :: 0 <= i < n ==> cls[i] == other[i]
    ensures ScanTo(cls, n) == ScanTo(other, n)
  {
    if n > 0 {
      SamePrefixScan(cls, other, n - 1);
    }
  }

  /** `other` is `cls` with a blank put in at `at`. */
  ghost predicate BlankAt(cls: seq<LineClass>, other: seq<LineClass>, at: nat) {
    && at <= |cls| && |other| == |cls| + 1 && other[at] == Blank
    && (forall i :: 0 <= i < at ==> other[i] == cls[i])
    && forall i :: at <= i < |cls| ==> other[i + 1] == cls[i]
  }

  lemma AtBlank(cls: seq<LineClass>, other: seq<LineClass>, at: nat)
    requires BlankAt(cls, other, at)
    ensures ScanTo(other, at + 1) == MovedScan(at, ScanTo(cls, at))
  {
    SamePrefixScan(cls, other, at);
    ScanIsBehind(cls, at);
    BehindStays(at, ScanTo(cls, at));
  }

  lemma {:induction false} ScanPastBlank(cls: seq<LineClass>, other: seq<LineClass>, at: nat, n: nat)
    requires BlankAt(cls, other, at) && at <= n <= |cls|
    ensures ScanTo(other, n + 1) == MovedScan(at, ScanTo(cls, n))
  {
    if n == at {
      AtBlank(cls, other, at);
    } else {
      ScanPastBlank(cls, other, at, n - 1);
      assert other[n] == cls[n - 1];
      MovedStep(at, ScanTo(cls, n - 1), cls[n - 1], n - 1);
    }
  }

  lemma BlankPutIn(lines: seq<string>, at: nat, blank: string)
    requires at <= |lines| && Classify(blank).Blank?
    ensures BlankAt(ClassifyAll(lines), ClassifyAll(lines[..at] + [blank] + lines[at..]), at)
  {
    var other := lines[..at] + [blank] + lines[at..];
    assert other[at] == blank;
    assert forall i :: 0 <= i < at ==> other[i] == lines[i];
    assert forall i :: at <= i < |lines| ==> other[i + 1] == lines[i];
  }

  /**
   * A blank line or a comment put in anywhere changes nothing the scan finds: the same jobs, each at
   * its own line, moved down by one behind the new one.
   */
  lemma BlankChangesNothing(lines: seq<string>, at: nat, blank: string)
    requires at <= |lines| && Classify(blank).Blank?
    ensures FindIn(lines[..at] + [blank] + lines[at..]) == MovedFound(at, FindIn(lines))
  {
    BlankPutIn(lines, at, blank);
    ScanPastBlank(ClassifyAll(lines), ClassifyAll(lines[..at] + [blank] + lines[at..]), at, |lines|);
  }
}
