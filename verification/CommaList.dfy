/** Comma lists and decimal numbers, as a report's URL carries them. */
module CommaList {
  import opened Text
  import opened Filtering

  /** `s.split(',')`. */
  function Split(s: string): (parts: seq<string>)
    ensures parts != []
  {
    if s == [] then [[]]
    else
      var rest := Split(s[1..]);
      if s[0] == ',' then [[]] + rest else [[s[0]] + rest[0]] + rest[1..]
  }

  /** The parts trimmed, empty ones dropped. */
  function TrimParts(parts: seq<string>): seq<string> {
    if parts == [] then []
    else (if Trim(parts[0]) != "" then [Trim(parts[0])] else []) + TrimParts(parts[1..])
  }

  function ReadList(raw: string): seq<string> {
    TrimParts(Split(raw))
  }

  function WriteList(parts: seq<string>): string {
    Join(parts, [','])
  }

  /** A value a comma list can carry. */
  ghost predicate Carried(s: string) {
    s != "" && Trimmed(s) && ',' !in s
  }

  lemma {:induction false} SplitHead(a: string, rest: string)
    requires ',' !in a
    ensures Split(a + [','] + rest) == [a] + Split(rest)
  {
    var s := a + [','] + rest;
    if a == [] {
      assert s[1..] == rest;
    } else {
      assert s[1..] == a[1..] + [','] + rest && s[0] == a[0] && a[0] in a;
      SplitHead(a[1..], rest);
      assert [a[0]] + a[1..] == a;
    }
  }

  lemma {:induction false} SplitOne(a: string)
    requires ',' !in a
    ensures Split(a) == [a]
  {
    if a != [] {
      assert a[0] in a;
      SplitOne(a[1..]);
      assert [a[0]] + a[1..] == a;
    }
  }

  lemma {:induction false} SplitWritten(parts: seq<string>)
    requires parts != [] && forall i :: 0 <= i < |parts| ==> ',' !in parts[i]
    ensures Split(WriteList(parts)) == parts
  {
    if |parts| == 1 {
      SplitOne(parts[0]);
    } else {
      SplitWritten(parts[1..]);
      SplitHead(parts[0], WriteList(parts[1..]));
      assert [parts[0]] + parts[1..] == parts;
    }
  }

  lemma {:induction false} TrimKeeps(parts: seq<string>)
    requires forall i :: 0 <= i < |parts| ==> Carried(parts[i])
    ensures TrimParts(parts) == parts
  {
    if parts != [] {
      TrimIdentity(parts[0]);
      TrimKeeps(parts[1..]);
      assert [parts[0]] + parts[1..] == parts;
    }
  }

  /** A non-empty list of carried values is read back as written. */
  lemma ListReadsBack(parts: seq<string>)
    requires parts != [] && forall i :: 0 <= i < |parts| ==> Carried(parts[i])
    ensures ReadList(WriteList(parts)) == parts
  {
    SplitWritten(parts);
    TrimKeeps(parts);
  }

  function Trims(parts: seq<string>): (r: seq<string>)
    ensures |r| == |parts| && forall i :: 0 <= i < |parts| ==> r[i] == Trim(parts[i])
  {
    seq(|parts|, i requires 0 <= i < |parts| => Trim(parts[i]))
  }

  lemma {:induction false} TrimPartsAre(parts: seq<string>)
    ensures IsFilter(Trims(parts), (p: string) => p != "", TrimParts(parts))
  {
    var full := (p: string) => p != "";
    if parts == [] {
      FilterOfNone(full);
      assert Trims(parts) == [];
    } else {
      TrimPartsAre(parts[1..]);
      SameFilter(Trims(parts[1..]), (p: string) => p != "", full, TrimParts(parts[1..]));
      FilterCons(Trim(parts[0]), Trims(parts[1..]), full, TrimParts(parts[1..]));
      assert [Trim(parts[0])] + Trims(parts[1..]) == Trims(parts);
    }
    SameFilter(Trims(parts), full, (p: string) => p != "", TrimParts(parts));
  }

  /** However loosely a list is written, its parts are read trimmed, and the empty ones dropped. */
  lemma LooseListReads(parts: seq<string>)
    requires parts != [] && forall i :: 0 <= i < |parts| ==> ',' !in parts[i]
    ensures IsFilter(Trims(parts), (p: string) => p != "", ReadList(WriteList(parts)))
  {
    SplitWritten(parts);
    TrimPartsAre(parts);
  }

  // ---- decimals ---------------------------------------------------------------------------------------

  function Digit(d: nat): char
    requires d < 10
  {
    (d + '0' as int) as char
  }

  function DigitValue(c: char): nat
    requires '0' <= c <= '9'
  {
    c as int - '0' as int
  }

  function Decimal(n: nat): string {
    if n < 10 then [Digit(n)] else Decimal(n / 10) + [Digit(n % 10)]
  }

  predicate AllDigits(s: string) {
    forall i :: 0 <= i < |s| ==> '0' <= s[i] <= '9'
  }

  function Value(s: string): nat
    requires AllDigits(s)
  {
    if s == [] then 0 else 10 * Value(s[..|s| - 1]) + DigitValue(s[|s| - 1])
  }

  /** `/^\d+$/` and `Number`; anything else is not a number. */
  function ReadDecimal(s: string): Option<nat> {
    if s != [] && AllDigits(s) then Some(Value(s)) else None
  }

  lemma {:induction false} DecimalReadsBack(n: nat)
    ensures Decimal(n) != [] && AllDigits(Decimal(n)) && Value(Decimal(n)) == n
  {
    if n < 10 {
      assert [Digit(n)][..0] == [];
    } else {
      DecimalReadsBack(n / 10);
      var front := Decimal(n / 10);
      assert (front + [Digit(n % 10)])[..|front|] == front;
    }
  }

  /** Nothing but decimal digits is read as a number. */
  lemma OnlyDigitsAreRead(s: string)
    ensures ReadDecimal(s).Some? <==> s != "" && forall i :: 0 <= i < |s| ==> '0' <= s[i] <= '9'
  {
  }

  lemma DecimalCarried(n: nat)
    ensures Carried(Decimal(n)) && ReadDecimal(Decimal(n)) == Some(n)
  {
    DecimalReadsBack(n);
    assert forall c :: '0' <= c <= '9' ==> !IsWs(c) && c != ',';
  }

  function Decimals(ids: seq<nat>): (r: seq<string>)
    ensures |r| == |ids| && forall i :: 0 <= i < |ids| ==> r[i] == Decimal(ids[i])
  {
    seq(|ids|, i requires 0 <= i < |ids| => Decimal(ids[i]))
  }

  function ReadDecimals(parts: seq<string>): (r: seq<Option<nat>>)
    ensures |r| == |parts| && forall i :: 0 <= i < |parts| ==> r[i] == ReadDecimal(parts[i])
  {
    seq(|parts|, i requires 0 <= i < |parts| => ReadDecimal(parts[i]))
  }

  lemma DecimalsReadBack(ids: seq<nat>)
    requires ids != []
    ensures ReadList(WriteList(Decimals(ids))) == Decimals(ids)
    ensures |ReadDecimals(Decimals(ids))| == |ids|
    ensures forall i :: 0 <= i < |ids| ==> ReadDecimals(Decimals(ids))[i] == Some(ids[i])
  {
    forall i | 0 <= i < |ids| ensures Carried(Decimals(ids)[i]) && ReadDecimal(Decimals(ids)[i]) == Some(ids[i]) {
      DecimalCarried(ids[i]);
    }
    ListReadsBack(Decimals(ids));
  }
}
