/** Splitting a workflow into lines without losing CRLF, and putting it back together. */
module Lines {

  /** One line and the terminator that ended it (`""` for the last line). */
  datatype Line = Line(body: string, ending: string)

  /** Index of the first line feed at or after `i`, or `|text|`. */
  function LfFrom(text: string, i: nat): (n: nat)
    requires i <= |text|
    ensures i <= n <= |text|
    ensures n < |text| ==> text[n] == '\n'
    ensures forall j :: i <= j < n ==> text[j] != '\n'
    decreases |text| - i
  {
    if i == |text| || text[i] == '\n' then i else LfFrom(text, i + 1)
  }

  function FirstLf(text: string): (n: nat)
    ensures n <= |text|
    ensures n < |text| ==> text[n] == '\n'
    ensures forall j :: 0 <= j < n ==> text[j] != '\n'
  {
    LfFrom(text, 0)
  }

  /** The first line of a text that holds a line feed; a carriage return before it belongs to the terminator. */
  function FirstLine(text: string): (l: Line)
    requires FirstLf(text) < |text|
    ensures |l.body| + |l.ending| == FirstLf(text) + 1
  {
    var n := FirstLf(text);
    if n > 0 && text[n - 1] == '\r' then Line(text[..n - 1], "\r\n") else Line(text[..n], "\n")
  }

  function Split(text: string): (ls: seq<Line>)
    ensures |ls| > 0
    decreases |text|
  {
    var n := FirstLf(text);
    if n == |text| then [Line(text, "")] else [FirstLine(text)] + Split(text[n + 1..])
  }

  function Bodies(ls: seq<Line>): (r: seq<string>)
    ensures |r| == |ls| && forall i :: 0 <= i < |ls| ==> r[i] == ls[i].body
  {
    seq(|ls|, i requires 0 <= i < |ls| => ls[i].body)
  }

  function Endings(ls: seq<Line>): (r: seq<string>)
    ensures |r| == |ls| && forall i :: 0 <= i < |ls| ==> r[i] == ls[i].ending
  {
    seq(|ls|, i requires 0 <= i < |ls| => ls[i].ending)
  }

  function Zip(bodies: seq<string>, endings: seq<string>): (ls: seq<Line>)
    requires |bodies| == |endings|
    ensures |ls| == |bodies|
    ensures forall i :: 0 <= i < |ls| ==> ls[i] == Line(bodies[i], endings[i])
  {
    seq(|bodies|, i requires 0 <= i < |bodies| => Line(bodies[i], endings[i]))
  }

  function Unsplit(ls: seq<Line>): string {
    if ls == [] then "" else ls[0].body + ls[0].ending + Unsplit(ls[1..])
  }

  lemma FirstLfIs(text: string, n: nat)
    requires n <= |text| && (n < |text| ==> text[n] == '\n')
    requires forall j :: 0 <= j < n ==> text[j] != '\n'
    ensures FirstLf(text) == n
  {
  }

  /** `text[i..m]` is a terminator and no terminator starts between `last` and `i`. */
  ghost predicate Terminates(text: string, last: nat, i: nat, m: nat) {
    && last <= i < m <= |text|
    && (text[i..m] == "\n" || text[i..m] == "\r\n")
    && (text[i..m] == "\n" && i > last ==> text[i - 1] != '\r')
    && forall j :: last <= j < i ==> text[j] != '\n'
  }

  lemma SuffixLf(text: string, last: nat, i: nat, m: nat)
    requires Terminates(text, last, i, m)
    ensures FirstLf(text[last..]) == m - 1 - last
    ensures FirstLine(text[last..]) == Line(text[last..i], text[i..m])
  {
    var t, n := text[last..], m - 1 - last;
    assert text[i..m][m - 1 - i] == '\n' && (m == i + 2 ==> text[i..m][0] == '\r');
    FirstLfIs(t, n);
    assert t[..i - last] == text[last..i];
  }

  /** A terminator found by scanning from `last` closes one line. */
  lemma SplitRest(text: string, last: nat, i: nat, m: nat)
    requires Terminates(text, last, i, m)
    ensures Split(text[last..]) == [Line(text[last..i], text[i..m])] + Split(text[m..])
  {
    SuffixLf(text, last, i, m);
    assert text[last..][m - last..] == text[m..];
  }

  lemma SplitLast(text: string, last: nat)
    requires last <= |text| && forall j :: last <= j < |text| ==> text[j] != '\n'
    ensures Split(text[last..]) == [Line(text[last..], "")]
  {
    FirstLfIs(text[last..], |text| - last);
  }

  /** Scanning from `last` has met no terminator before `i`. */
  ghost predicate Scanned(text: string, last: nat, i: nat) {
    && last <= i <= |text|
    && (forall j :: last <= j < i ==> text[j] != '\n')
    && (last < i < |text| && text[i] == '\n' ==> text[i - 1] != '\r')
  }

  /** Where a terminator starting at `i` ends, or `i`. */
  function TerminatorEnd(text: string, i: nat): (m: nat)
    requires i < |text|
    ensures i <= m <= |text|
  {
    if text[i] == '\r' && i + 1 < |text| && text[i + 1] == '\n' then i + 2
    else if text[i] == '\n' then i + 1
    else i
  }

  lemma ScanStep(text: string, last: nat, i: nat)
    requires Scanned(text, last, i) && i < |text|
    ensures var m := TerminatorEnd(text, i);
            if m > i then Terminates(text, last, i, m) && Scanned(text, m, m) else Scanned(text, last, i + 1)
  {
    var m := TerminatorEnd(text, i);
    if m == i + 2 {
      assert text[i..m] == "\r\n";
    } else if m == i + 1 {
      assert text[i..m] == "\n";
    }
  }

  /** The loop over `/\r\n|\n/g`. */
  method SplitLines(text: string) returns (lines: seq<string>, endings: seq<string>)
    ensures lines == Bodies(Split(text)) && endings == Endings(Split(text))
  {
    lines, endings := [], [];
    ghost var done: seq<Line> := [];
    var last, i := 0, 0;
    assert text[0..] == text;
    while i < |text|
      invariant Scanned(text, last, i)
      invariant lines == Bodies(done) && endings == Endings(done)
      invariant Split(text) == done + Split(text[last..])
      decreases |text| - i
    {
      var m := TerminatorEnd(text, i);
      ScanStep(text, last, i);
      if m > i {
        lines, endings := lines + [text[last..i]], endings + [text[i..m]];
        done := Advance(text, done, last, i, m);
        last, i := m, m;
      } else {
        i := i + 1;
      }
    }
    Finish(text, done, last);
    lines, endings := lines + [text[last..]], endings + [""];
  }

  lemma Finish(text: string, done: seq<Line>, last: nat)
    requires Scanned(text, last, |text|) && Split(text) == done + Split(text[last..])
    ensures Bodies(Split(text)) == Bodies(done) + [text[last..]]
    ensures Endings(Split(text)) == Endings(done) + [""]
  {
    SplitLast(text, last);
    Snoc(done, Line(text[last..], ""));
  }

  lemma Assoc(a: seq<Line>, l: Line, b: seq<Line>)
    ensures a + ([l] + b) == (a + [l]) + b
  {
  }

  lemma Snoc(done: seq<Line>, l: Line)
    ensures Bodies(done + [l]) == Bodies(done) + [l.body]
    ensures Endings(done + [l]) == Endings(done) + [l.ending]
  {
  }

  lemma Advance(text: string, done: seq<Line>, last: nat, i: nat, m: nat) returns (next: seq<Line>)
    requires Terminates(text, last, i, m) && Split(text) == done + Split(text[last..])
    ensures Split(text) == next + Split(text[m..])
    ensures Bodies(next) == Bodies(done) + [text[last..i]] && Endings(next) == Endings(done) + [text[i..m]]
  {
    SplitRest(text, last, i, m);
    var l := Line(text[last..i], text[i..m]);
    next := done + [l];
    Snoc(done, l);
    Assoc(done, l, Split(text[m..]));
  }

  method JoinLines(lines: seq<string>, endings: seq<string>) returns (text: string)
    requires |lines| == |endings|
    ensures text == Unsplit(Zip(lines, endings))
  {
    text := "";
    ghost var ls := Zip(lines, endings);
    for i := 0 to |lines|
      invariant text + Unsplit(ls[i..]) == Unsplit(ls)
    {
      assert ls[i..][1..] == ls[i + 1..];
      var piece := lines[i] + endings[i];
      assert text + (piece + Unsplit(ls[i + 1..])) == (text + piece) + Unsplit(ls[i + 1..]);
      text := text + piece;
    }
    assert text + "" == text;
  }

  // ---- the two round trips -----------------------------------------------------------------------

  lemma UnsplitCons(l: Line, rest: seq<Line>)
    ensures Unsplit([l] + rest) == l.body + l.ending + Unsplit(rest)
  {
    assert ([l] + rest)[1..] == rest;
  }

  lemma FirstLineText(text: string)
    requires FirstLf(text) < |text|
    ensures FirstLine(text).body + FirstLine(text).ending + text[FirstLf(text) + 1..] == text
  {
    var n := FirstLf(text);
    if n > 0 && text[n - 1] == '\r' {
      assert text[n - 1..n + 1] == "\r\n";
      ThreePieces(text, n - 1, n + 1);
    } else {
      assert text[n..n + 1] == "\n";
      ThreePieces(text, n, n + 1);
    }
  }

  lemma ThreePieces(text: string, n: nat, m: nat)
    requires n <= m <= |text|
    ensures text[..n] + text[n..m] + text[m..] == text
  {
  }

  lemma {:induction false} UnsplitSplit(text: string)
    ensures Unsplit(Split(text)) == text
    decreases |text|
  {
    var n := FirstLf(text);
    if n < |text| {
      UnsplitSplit(text[n + 1..]);
      UnsplitCons(FirstLine(text), Split(text[n + 1..]));
      FirstLineText(text);
    } else {
      UnsplitCons(Line(text, ""), []);
      assert [Line(text, "")] + [] == [Line(text, "")];
      assert text + "" + "" == text;
    }
  }

  /** Joining what was split is the identity, on any mix of LF and CRLF. */
  lemma JoinAfterSplit(text: string)
    ensures Unsplit(Zip(Bodies(Split(text)), Endings(Split(text)))) == text
  {
    UnsplitSplit(text);
    assert Zip(Bodies(Split(text)), Endings(Split(text))) == Split(text);
  }

  /** A body that no terminator can be read into. */
  ghost predicate BodyFits(body: string, ending: string) {
    && '\n' !in body
    && (ending == "\n" && body != "" ==> body[|body| - 1] != '\r')
  }

  ghost predicate WellSplit(ls: seq<Line>) {
    && ls != []
    && (forall i :: 0 <= i < |ls| ==> BodyFits(ls[i].body, ls[i].ending))
    && (forall i :: 0 <= i < |ls| - 1 ==> ls[i].ending == "\n" || ls[i].ending == "\r\n")
    && ls[|ls| - 1].ending == ""
  }

  lemma WellSplitCons(l: Line, rest: seq<Line>)
    requires BodyFits(l.body, l.ending) && (l.ending == "\n" || l.ending == "\r\n") && WellSplit(rest)
    ensures WellSplit([l] + rest)
  {
    var ls := [l] + rest;
    assert forall i :: 1 <= i < |ls| ==> ls[i] == rest[i - 1];
  }

  lemma {:induction false} SplitIsWellSplit(text: string)
    ensures WellSplit(Split(text))
    decreases |text|
  {
    var n := FirstLf(text);
    if n < |text| {
      SplitIsWellSplit(text[n + 1..]);
      WellSplitCons(FirstLine(text), Split(text[n + 1..]));
    }
  }

  /** The first line of a printed list is read back whole. */
  lemma SplitFirstLine(l: Line, rest: string)
    requires BodyFits(l.body, l.ending) && (l.ending == "\n" || l.ending == "\r\n")
    ensures Split(l.body + l.ending + rest) == [l] + Split(rest)
  {
    var text := l.body + l.ending + rest;
    var i, m := |l.body|, |l.body| + |l.ending|;
    assert text[0..] == text && text[0..i] == l.body && text[i..m] == l.ending && text[m..] == rest;
    forall j | 0 <= j < i ensures text[j] != '\n' {
      assert text[j] == l.body[j] && l.body[j] in l.body;
    }
    SplitRest(text, 0, i, m);
  }

  lemma SplitOneLine(body: string)
    requires '\n' !in body
    ensures Split(body) == [Line(body, "")]
  {
    assert forall j :: 0 <= j < |body| ==> body[j] in body;
    FirstLfIs(body, |body|);
  }

  /** Splitting what was joined is the identity, for lines whose bodies fit their terminators. */
  lemma {:induction false} SplitAfterJoin(ls: seq<Line>)
    requires WellSplit(ls)
    ensures Split(Unsplit(ls)) == ls
    decreases |ls|
  {
    var l := ls[0];
    assert ls == [l] + ls[1..];
    UnsplitCons(l, ls[1..]);
    if |ls| == 1 {
      assert Unsplit(ls) == l.body + "" + "" == l.body;
      SplitOneLine(l.body);
    } else {
      SplitAfterJoin(ls[1..]);
      SplitFirstLine(l, Unsplit(ls[1..]));
    }
  }

  /** Replacing bodies by others that fit keeps the split, and every terminator. */
  lemma ReplaceKeepsSplit(ls: seq<Line>, bodies: seq<string>)
    requires WellSplit(ls) && |bodies| == |ls|
    requires forall i :: 0 <= i < |ls| ==> bodies[i] == ls[i].body || BodyFits(bodies[i], ls[i].ending)
    ensures Split(Unsplit(Zip(bodies, Endings(ls)))) == Zip(bodies, Endings(ls))
  {
    SplitAfterJoin(Zip(bodies, Endings(ls)));
  }
}
