/** The CSV an export is downloaded as, and a reader of section 2 of RFC 4180 that gives every field back. */
module Csv {
  import opened Text

  predicate IsSigil(c: char) {
    c in "=+-@\t\r"
  }

  /** A field a spreadsheet would evaluate gets a leading single quote. */
  function Guarded(s: string): string {
    if s != "" && IsSigil(s[0]) then "'" + s else s
  }

  function Doubled(s: string): string {
    if s == [] then []
    else Doubled(s[..|s| - 1]) + if s[|s| - 1] == '"' then ['"', '"'] else [s[|s| - 1]]
  }

  function Escape(s: string): string {
    ['"'] + Doubled(Guarded(s)) + ['"']
  }

  /** A row's fields, each after the first behind a comma. */
  function RowText(fields: seq<string>): string {
    if fields == [] then ""
    else if |fields| == 1 then Escape(fields[0])
    else RowText(fields[..|fields| - 1]) + [','] + Escape(fields[|fields| - 1])
  }

  /** Rows, each after the first behind CRLF. */
  function TableText(rows: seq<seq<string>>): string {
    if rows == [] then ""
    else if |rows| == 1 then RowText(rows[0])
    else TableText(rows[..|rows| - 1]) + ['\r', '\n'] + RowText(rows[|rows| - 1])
  }

  function ToCsv(columns: seq<string>, rows: seq<seq<string>>): string {
    TableText([columns] + rows)
  }

  // ---- the reader -------------------------------------------------------------------------------------

  datatype Mode = FieldStart | Bare | Quoted | QuoteSeen | CrSeen | Bad

  /** Finished records, the fields of the record being read, and the field being read. */
  datatype Reader = Reader(rows: seq<seq<string>>, row: seq<string>, field: string, mode: Mode)

  function EndField(r: Reader, mode: Mode): Reader {
    Reader(r.rows, r.row + [r.field], "", mode)
  }

  function Next(r: Reader, c: char): Reader {
    match r.mode
    case Bad => r
    case Quoted => if c == '"' then r.(mode := QuoteSeen) else r.(field := r.field + [c])
    case QuoteSeen =>
      if c == '"' then r.(field := r.field + [c], mode := Quoted)
      else if c == ',' then EndField(r, FieldStart)
      else if c == '\r' then EndField(r, CrSeen)
      else r.(mode := Bad)
    case CrSeen => if c == '\n' then Reader(r.rows + [r.row], [], "", FieldStart) else r.(mode := Bad)
    case FieldStart =>
      if c == '"' then r.(mode := Quoted)
      else if c == ',' then EndField(r, FieldStart)
      else if c == '\r' then EndField(r, CrSeen)
      else r.(field := [c], mode := Bare)
    case Bare =>
      if c == '"' then r.(mode := Bad)
      else if c == ',' then EndField(r, FieldStart)
      else if c == '\r' then EndField(r, CrSeen)
      else r.(field := r.field + [c])
  }

  function Run(r: Reader, text: string): Reader {
    if text == [] then r else Next(Run(r, text[..|text| - 1]), text[|text| - 1])
  }

  /** A text may not end inside quotes or between CR and LF. */
  function Finish(r: Reader): Option<seq<seq<string>>> {
    if r.mode.Bad? || r.mode.Quoted? || r.mode.CrSeen? then None else Some(r.rows + [r.row + [r.field]])
  }

  function AtRow(rows: seq<seq<string>>): Reader {
    Reader(rows, [], [], FieldStart)
  }

  function Parse(text: string): Option<seq<seq<string>>> {
    Finish(Run(AtRow([]), text))
  }

  // ---- the round trip ---------------------------------------------------------------------------------

  lemma {:induction false} RunConcat(r: Reader, a: string, b: string)
    ensures Run(r, a + b) == Run(Run(r, a), b)
    decreases |b|
  {
    if b == [] {
      assert a + b == a;
    } else {
      assert (a + b)[..|a + b| - 1] == a + b[..|b| - 1];
      RunConcat(r, a, b[..|b| - 1]);
    }
  }

  lemma RunOne(r: Reader, c: char)
    ensures Run(r, [c]) == Next(r, c)
  {
    assert [c][..0] == [];
    assert Run(r, [c][..0]) == r;
  }

  lemma RunTwo(r: Reader, c: char, d: char)
    ensures Run(r, [c, d]) == Next(Next(r, c), d)
  {
    RunOne(r, c);
    assert [c, d][..1] == [c];
  }

  lemma QuotedChar(r: Reader, c: char)
    requires r.mode == Quoted
    ensures Run(r, if c == '"' then ['"', '"'] else [c]) == r.(field := r.field + [c])
  {
    if c == '"' {
      RunTwo(r, '"', '"');
    } else {
      RunOne(r, c);
    }
  }

  lemma DoubledUnfolds(s: string)
    requires s != []
    ensures Doubled(s) == Doubled(s[..|s| - 1]) + if s[|s| - 1] == '"' then ['"', '"'] else [s[|s| - 1]]
  {
  }

  lemma {:induction false} DoubledReadsBack(r: Reader, s: string)
    requires r.mode == Quoted
    ensures Run(r, Doubled(s)) == r.(field := r.field + s)
  {
    if s == [] {
      assert r.field + s == r.field;
    } else {
      var front, last := s[..|s| - 1], s[|s| - 1];
      DoubledReadsBack(r, front);
      DoubledUnfolds(s);
      RunConcat(r, Doubled(front), if last == '"' then ['"', '"'] else [last]);
      QuotedChar(r.(field := r.field + front), last);
      assert r.field + s == r.field + front + [last];
    }
  }

  /** Text, one character, text. */
  lemma RunAround(r: Reader, a: string, c: char, b: string, mid: Reader)
    requires Run(r, a) == mid
    ensures Run(r, a + [c] + b) == Run(Next(mid, c), b)
  {
    RunOne(mid, c);
    RunConcat(r, a, [c]);
    RunConcat(r, a + [c], b);
  }

  /** Text, two characters, text. */
  lemma RunAroundTwo(r: Reader, a: string, c: char, d: char, b: string, mid: Reader)
    requires Run(r, a) == mid
    ensures Run(r, a + [c, d] + b) == Run(Next(Next(mid, c), d), b)
  {
    RunTwo(mid, c, d);
    RunConcat(r, a, [c, d]);
    RunConcat(r, a + [c, d], b);
  }

  lemma EscapeReadsBack(r: Reader, s: string)
    requires r.mode == FieldStart && r.field == []
    ensures Run(r, Escape(s)) == r.(field := Guarded(s), mode := QuoteSeen)
  {
    var g := Guarded(s);
    RunOne(r, '"');
    RunConcat(r, ['"'], Doubled(g));
    DoubledReadsBack(r.(mode := Quoted), g);
    assert r.field + g == g;
    RunConcat(r, ['"'] + Doubled(g), ['"']);
    RunOne(r.(field := g, mode := Quoted), '"');
  }

  function GuardedRow(fields: seq<string>): (g: seq<string>)
    ensures |g| == |fields| && forall i :: 0 <= i < |fields| ==> g[i] == Guarded(fields[i])
  {
    seq(|fields|, i requires 0 <= i < |fields| => Guarded(fields[i]))
  }

  function GuardedTable(rows: seq<seq<string>>): (g: seq<seq<string>>)
    ensures |g| == |rows| && forall i :: 0 <= i < |rows| ==> g[i] == GuardedRow(rows[i])
  {
    seq(|rows|, i requires 0 <= i < |rows| => GuardedRow(rows[i]))
  }

  lemma RowClosed(fields: seq<string>)
    requires fields != []
    ensures GuardedRow(fields[..|fields| - 1]) + [Guarded(fields[|fields| - 1])] == GuardedRow(fields)
  {
  }

  lemma TableClosed(rows: seq<seq<string>>)
    requires rows != []
    ensures GuardedTable(rows[..|rows| - 1]) + [GuardedRow(rows[|rows| - 1])] == GuardedTable(rows)
  {
  }

  /** The reader at the end of a record holding `fields`: all but the last recorded, the last closed and pending. */
  function AfterRow(rows: seq<seq<string>>, fields: seq<string>): Reader
    requires fields != []
  {
    Reader(rows, GuardedRow(fields[..|fields| - 1]), Guarded(fields[|fields| - 1]), QuoteSeen)
  }

  /** One more field. */
  lemma FieldAppends(rows: seq<seq<string>>, front: seq<string>, last: string, text: string)
    requires front != [] && Run(AtRow(rows), text) == AfterRow(rows, front)
    ensures Run(AtRow(rows), text + [','] + Escape(last)) == AfterRow(rows, front + [last])
  {
    RunAround(AtRow(rows), text, ',', Escape(last), AfterRow(rows, front));
    RowClosed(front);
    EscapeReadsBack(Reader(rows, GuardedRow(front), [], FieldStart), last);
    assert (front + [last])[..|front|] == front;
  }

  lemma RowUnfolds(fields: seq<string>)
    requires |fields| > 1
    ensures RowText(fields) == RowText(fields[..|fields| - 1]) + [','] + Escape(fields[|fields| - 1])
  {
  }

  lemma {:induction false} RowReadsBack(rows: seq<seq<string>>, fields: seq<string>)
    requires fields != []
    ensures Run(AtRow(rows), RowText(fields)) == AfterRow(rows, fields)
  {
    var n := |fields| - 1;
    if n == 0 {
      EscapeReadsBack(AtRow(rows), fields[0]);
      assert GuardedRow(fields[..0]) == [];
    } else {
      RowReadsBack(rows, fields[..n]);
      FieldAppends(rows, fields[..n], fields[n], RowText(fields[..n]));
      RowUnfolds(fields);
      Snoc(fields);
    }
  }

  function AfterTable(rows: seq<seq<string>>): Reader
    requires rows != [] && rows[|rows| - 1] != []
  {
    AfterRow(GuardedTable(rows[..|rows| - 1]), rows[|rows| - 1])
  }

  /** One more row. */
  lemma RowAppends(front: seq<seq<string>>, last: seq<string>, text: string)
    requires front != [] && front[|front| - 1] != [] && last != []
    requires Run(AtRow([]), text) == AfterTable(front)
    ensures Run(AtRow([]), text + ['\r', '\n'] + RowText(last)) == AfterTable(front + [last])
  {
    RunAroundTwo(AtRow([]), text, '\r', '\n', RowText(last), AfterTable(front));
    RowClosed(front[|front| - 1]);
    TableClosed(front);
    RowReadsBack(GuardedTable(front), last);
    assert (front + [last])[..|front|] == front;
  }

  lemma TableUnfolds(rows: seq<seq<string>>)
    requires |rows| > 1
    ensures TableText(rows) == TableText(rows[..|rows| - 1]) + ['\r', '\n'] + RowText(rows[|rows| - 1])
  {
  }

  lemma Snoc<T>(s: seq<T>)
    requires s != []
    ensures s == s[..|s| - 1] + [s[|s| - 1]]
  {
  }

  lemma {:induction false} TableReadsBack(rows: seq<seq<string>>)
    requires rows != [] && forall i :: 0 <= i < |rows| ==> rows[i] != []
    ensures Run(AtRow([]), TableText(rows)) == AfterTable(rows)
  {
    var n := |rows| - 1;
    if n == 0 {
      RowReadsBack([], rows[0]);
      assert GuardedTable(rows[..0]) == [];
    } else {
      TableReadsBack(rows[..n]);
      RowAppends(rows[..n], rows[n], TableText(rows[..n]));
      TableUnfolds(rows);
      Snoc(rows);
    }
  }

  lemma FinishTable(table: seq<seq<string>>)
    requires table != [] && table[|table| - 1] != []
    ensures Finish(AfterTable(table)) == Some(GuardedTable(table))
  {
    RowClosed(table[|table| - 1]);
    TableClosed(table);
  }

  lemma ParseText(text: string, r: Reader)
    requires Run(AtRow([]), text) == r
    ensures Parse(text) == Finish(r)
  {
  }

  lemma ParseTable(table: seq<seq<string>>)
    requires table != [] && forall i :: 0 <= i < |table| ==> table[i] != []
    ensures Parse(TableText(table)) == Some(GuardedTable(table))
  {
    TableReadsBack(table);
    ParseText(TableText(table), AfterTable(table));
    FinishTable(table);
  }

  lemma GuardedCons(columns: seq<string>, rows: seq<seq<string>>)
    ensures GuardedTable([columns] + rows) == [GuardedRow(columns)] + GuardedTable(rows)
  {
  }

  lemma ToCsvIsTable(columns: seq<string>, rows: seq<seq<string>>, table: seq<seq<string>>)
    requires table == [columns] + rows
    ensures ToCsv(columns, rows) == TableText(table)
  {
  }

  /** Whatever the fields hold (quotes, commas, line breaks), the reader gives back every one, guarded. */
  lemma CsvReadsBack(columns: seq<string>, rows: seq<seq<string>>)
    requires columns != [] && forall i :: 0 <= i < |rows| ==> rows[i] != []
    ensures Parse(ToCsv(columns, rows)) == Some([GuardedRow(columns)] + GuardedTable(rows))
  {
    var table := [columns] + rows;
    GuardedCons(columns, rows);
    ToCsvIsTable(columns, rows, table);
    ParseTable(table);
  }

  lemma Sigils()
    ensures forall c :: IsSigil(c) <==> c in ['=', '+', '-', '@', '\t', '\r']
  {
    assert "=+-@\t\r" == ['=', '+', '-', '@', '\t', '\r'];
  }

  /** A field is guarded exactly when it would start a formula, and is otherwise as it was. */
  lemma GuardedIff(s: string)
    ensures Guarded(s) == if s != "" && s[0] in ['=', '+', '-', '@', '\t', '\r'] then "'" + s else s
  {
    Sigils();
  }

  /** No field a reader gets back starts a formula. */
  lemma NothingEvaluates(columns: seq<string>, rows: seq<seq<string>>, i: nat, j: nat)
    requires columns != [] && forall i :: 0 <= i < |rows| ==> rows[i] != []
    ensures var table := Parse(ToCsv(columns, rows));
            table.Some? && (i < |table.value| && j < |table.value[i]| && table.value[i][j] != "" ==>
              table.value[i][j][0] !in ['=', '+', '-', '@', '\t', '\r'])
  {
    CsvReadsBack(columns, rows);
    Sigils();
    assert !IsSigil('\'');
  }

  /** The guard is undone by dropping the added quote, but two fields can come out alike: exactly when one is the other behind a quote. */
  lemma GuardedAlikeIff(s: string, t: string)
    ensures Guarded(s) == Guarded(t) <==>
            s == t || (s != "" && IsSigil(s[0]) && t == "'" + s) || (t != "" && IsSigil(t[0]) && s == "'" + t)
  {
    assert !IsSigil('\'');
    assert s != "" && IsSigil(s[0]) ==> ("'" + s)[1..] == s;
    assert t != "" && IsSigil(t[0]) ==> ("'" + t)[1..] == t;
  }

  // ---- size -------------------------------------------------------------------------------------------

  /** Encoded size, for any encoding that gives each character at least a byte of its own. */
  function Bytes(width: char -> nat, s: string): nat {
    if s == [] then 0 else Bytes(width, s[..|s| - 1]) + width(s[|s| - 1])
  }

  /** An encoding of `k` bytes a character. */
  lemma {:induction false} BytesOfEqual(width: char -> nat, s: string, k: nat)
    requires forall c :: c in s ==> width(c) == k
    ensures Bytes(width, s) == |s| * k
  {
    if s != [] {
      BytesOfEqual(width, s[..|s| - 1], k);
      OneMore(|s| - 1, k);
    }
  }

  lemma {:induction false} BytesConcat(width: char -> nat, a: string, b: string)
    ensures Bytes(width, a + b) == Bytes(width, a) + Bytes(width, b)
    decreases |b|
  {
    if b == [] {
      assert a + b == a;
    } else {
      assert (a + b)[..|a + b| - 1] == a + b[..|b| - 1];
      BytesConcat(width, a, b[..|b| - 1]);
    }
  }

  lemma BytesGrow(width: char -> nat, text: string, sep: string, more: string)
    ensures Bytes(width, text) <= Bytes(width, text + sep + more)
  {
    BytesConcat(width, text + sep, more);
    BytesConcat(width, text, sep);
  }

  /** A size no last row decreases is monotone on prefixes. */
  lemma {:induction false} GrowsByRows(size: seq<seq<string>> -> nat, part: seq<seq<string>>, table: seq<seq<string>>)
    requires forall t :: |t| > 1 ==> size(t[..|t| - 1]) <= size(t)
    requires part != [] && part <= table
    ensures size(part) <= size(table)
    decreases |table|
  {
    if |part| < |table| {
      GrowsByRows(size, part, table[..|table| - 1]);
    } else {
      assert part == table;
    }
  }

  lemma LastRowAddsBytes(width: char -> nat, t: seq<seq<string>>)
    requires |t| > 1
    ensures Bytes(width, TableText(t[..|t| - 1])) <= Bytes(width, TableText(t))
  {
    TableUnfolds(t);
    BytesGrow(width, TableText(t[..|t| - 1]), ['\r', '\n'], RowText(t[|t| - 1]));
  }

  lemma TableSizeMonotone(width: char -> nat, part: seq<seq<string>>, table: seq<seq<string>>)
    requires part != [] && part <= table
    ensures Bytes(width, TableText(part)) <= Bytes(width, TableText(table))
  {
    var size: seq<seq<string>> -> nat := t => Bytes(width, TableText(t));
    forall t: seq<seq<string>> | |t| > 1 ensures size(t[..|t| - 1]) <= size(t) {
      LastRowAddsBytes(width, t);
    }
    GrowsByRows(size, part, table);
  }

  /** More rows never make a smaller file: the size is monotone on prefixes, as the export's bisection needs. */
  lemma CsvSizeMonotone(width: char -> nat, columns: seq<string>, rows: seq<seq<string>>, a: nat, b: nat)
    requires a <= b <= |rows|
    ensures Bytes(width, ToCsv(columns, rows[..a])) <= Bytes(width, ToCsv(columns, rows[..b]))
  {
    assert rows[..a] <= rows[..b];
    TableSizeMonotone(width, [columns] + rows[..a], [columns] + rows[..b]);
  }

  // ---- how large a row can get --------------------------------------------------------------------------

  lemma {:induction false} DoubledAtMost(s: string)
    ensures |Doubled(s)| <= 2 * |s|
  {
    if s != [] {
      DoubledAtMost(s[..|s| - 1]);
    }
  }

  lemma EscapeAtMost(s: string, m: nat)
    requires |s| <= m
    ensures |Escape(s)| <= 2 * m + 4
  {
    DoubledAtMost(Guarded(s));
  }

  lemma OneMore(n: nat, p: nat)
    ensures (n + 1) * p == n * p + p
  {
  }

  /** A row of fields whose escaped forms, each with a comma, take at most `m` characters. */
  lemma {:induction false} RowAtMost(fields: seq<string>, m: nat)
    requires forall i :: 0 <= i < |fields| ==> |Escape(fields[i])| < m
    ensures |RowText(fields)| <= |fields| * m
  {
    if fields != [] {
      var n := |fields| - 1;
      RowAtMost(fields[..n], m);
      OneMore(n, m);
      RowLast(fields);
    }
  }

  lemma RowLast(fields: seq<string>)
    requires fields != []
    ensures |RowText(fields)| <= |RowText(fields[..|fields| - 1])| + 1 + |Escape(fields[|fields| - 1])|
  {
  }

  lemma {:induction false} BytesAtMost(width: char -> nat, text: string, w: nat)
    requires forall c :: width(c) <= w
    ensures Bytes(width, text) <= |text| * w
  {
    if text != [] {
      BytesAtMost(width, text[..|text| - 1], w);
      assert |text| * w == (|text| - 1) * w + w;
    }
  }
}
