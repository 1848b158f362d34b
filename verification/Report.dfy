/**
 * Folding rows into a report: group by a dimension, fold each group, total the groups.
 *
 * Amounts are reals. Every point is rounded to six decimals and the total is made of the rounded
 * points, so it does depend on the dimension, by less than half a millionth for every point; what is
 * counted for the coverage does not.
 */
module Report {
  import opened Text
  import opened Filtering

  // ---- grouping ---------------------------------------------------------------------------------------

  /** The rows of one group, in order. */
  function Having<T, K(==)>(rows: seq<T>, key: T -> K, k: K): seq<T> {
    if rows == [] then []
    else Having(rows[..|rows| - 1], key, k) + if key(rows[|rows| - 1]) == k then [rows[|rows| - 1]] else []
  }

  ghost predicate Distinct<K>(keys: seq<K>) {
    forall i, j :: 0 <= i < j < |keys| ==> keys[i] != keys[j]
  }

  function Keyed<T, K(==)>(key: T -> K, k: K): T -> bool {
    t => key(t) == k
  }

  lemma {:induction false} HavingIsFilter<T, K>(rows: seq<T>, key: T -> K, k: K)
    ensures IsFilter(rows, Keyed(key, k), Having(rows, key, k))
  {
    if rows == [] {
      FilterOfNone(Keyed(key, k));
    } else {
      var front, last := rows[..|rows| - 1], rows[|rows| - 1];
      HavingIsFilter(front, key, k);
      FilterSnoc(front, last, Keyed(key, k), Having(front, key, k));
      assert front + [last] == rows;
    }
  }

  lemma HavingAppends<T, K>(rows: seq<T>, key: T -> K, n: nat, k: K)
    requires n < |rows|
    ensures Having(rows[..n + 1], key, k) == Having(rows[..n], key, k) + if key(rows[n]) == k then [rows[n]] else []
  {
    assert rows[..n + 1][..n] == rows[..n];
  }

  ghost predicate Grouped<T, K(!new)>(rows: seq<T>, key: T -> K, groups: map<K, seq<T>>) {
    forall k :: (if k in groups then groups[k] else []) == Having(rows, key, k)
  }

  lemma GroupedAppends<T, K(!new)>(rows: seq<T>, key: T -> K, n: nat, groups: map<K, seq<T>>)
    requires n < |rows| && Grouped(rows[..n], key, groups)
    ensures var k := key(rows[n]);
            Grouped(rows[..n + 1], key, groups[k := (if k in groups then groups[k] else []) + [rows[n]]])
  {
    var k := key(rows[n]);
    var groups' := groups[k := (if k in groups then groups[k] else []) + [rows[n]]];
    forall x ensures (if x in groups' then groups'[x] else []) == Having(rows[..n + 1], key, x) {
      HavingAppends(rows, key, n, x);
    }
  }

  /** The keys in order are exactly the groups' keys, each once. */
  ghost predicate Listed<K(!new), V>(order: seq<K>, groups: map<K, V>) {
    Distinct(order) && forall k :: k in order <==> k in groups
  }

  lemma ListedStep<K(!new), V>(order: seq<K>, groups: map<K, V>, k: K, v: V)
    requires Listed(order, groups)
    ensures Listed(if k in groups then order else order + [k], groups[k := v])
  {
    assert forall x :: x in order + [k] <==> x in order || x == k;
  }

  /** Every row's group exists. */
  ghost predicate Placed<T, K(!new), V>(rows: seq<T>, key: T -> K, groups: map<K, V>) {
    forall i :: 0 <= i < |rows| ==> key(rows[i]) in groups
  }

  lemma PlacedStep<T, K(!new), V>(rows: seq<T>, key: T -> K, n: nat, groups: map<K, V>, v: V)
    requires n < |rows| && Placed(rows[..n], key, groups)
    ensures Placed(rows[..n + 1], key, groups[key(rows[n]) := v])
  {
    assert forall i :: 0 <= i < n ==> rows[..n + 1][i] == rows[..n][i];
  }

  lemma AllGrouped<T, K(!new)>(rows: seq<T>, key: T -> K, groups: map<K, seq<T>>)
    requires Grouped(rows, key, groups)
    ensures forall k :: k in groups ==> groups[k] == Having(rows, key, k)
  {
  }

  /** Each row lands in exactly the group of its key; groups are listed by first appearance. */
  method GroupRows<T, K(==, !new)>(rows: seq<T>, key: T -> K) returns (order: seq<K>, groups: map<K, seq<T>>)
    ensures Distinct(order) && (forall k :: k in order <==> k in groups)
    ensures forall k :: k in groups ==> IsFilter(rows, Keyed(key, k), groups[k])
    ensures forall k :: k in groups ==> groups[k] == Having(rows, key, k)
    ensures forall i :: 0 <= i < |rows| ==> key(rows[i]) in order
  {
    order, groups := [], map[];
    for n := 0 to |rows|
      invariant Listed(order, groups) && Grouped(rows[..n], key, groups) && Placed(rows[..n], key, groups)
    {
      var k := key(rows[n]);
      GroupedAppends(rows, key, n, groups);
      ListedStep(order, groups, k, (if k in groups then groups[k] else []) + [rows[n]]);
      PlacedStep(rows, key, n, groups, (if k in groups then groups[k] else []) + [rows[n]]);
      if k !in groups {
        order := order + [k];
      }
      groups := groups[k := (if k in groups then groups[k] else []) + [rows[n]]];
    }
    assert rows[..|rows|] == rows;
    AllGrouped(rows, key, groups);
    forall k | k in groups ensures IsFilter(rows, Keyed(key, k), groups[k]) {
      HavingIsFilter(rows, key, k);
    }
  }

  // ---- totals -----------------------------------------------------------------------------------------

  function Total<T>(rows: seq<T>, weight: T -> real): real {
    if rows == [] then 0.0 else Total(rows[..|rows| - 1], weight) + weight(rows[|rows| - 1])
  }

  /** A row's weight, kept only for the keys wanted. */
  function Only<T, K(==)>(weight: T -> real, key: T -> K, keys: seq<K>): T -> real {
    t => if key(t) in keys then weight(t) else 0.0
  }

  function TotalOver<T, K(==)>(rows: seq<T>, key: T -> K, weight: T -> real, keys: seq<K>): real {
    if keys == [] then 0.0
    else TotalOver(rows, key, weight, keys[..|keys| - 1]) + Total(Having(rows, key, keys[|keys| - 1]), weight)
  }

  lemma TotalAppends<T>(front: seq<T>, x: T, weight: T -> real)
    ensures Total(front + [x], weight) == Total(front, weight) + weight(x)
  {
    assert (front + [x])[..|front|] == front;
  }

  /** One more key adds exactly its group. */
  lemma {:induction false} OneMoreKey<T, K>(rows: seq<T>, key: T -> K, weight: T -> real, keys: seq<K>, k: K)
    requires k !in keys
    ensures Total(rows, Only(weight, key, keys + [k])) == Total(rows, Only(weight, key, keys)) + Total(Having(rows, key, k), weight)
  {
    if rows != [] {
      var front, last := rows[..|rows| - 1], rows[|rows| - 1];
      OneMoreKey(front, key, weight, keys, k);
      assert key(last) in keys + [k] <==> key(last) in keys || key(last) == k;
      if key(last) == k {
        TotalAppends(Having(front, key, k), last, weight);
      } else {
        assert Having(rows, key, k) == Having(front, key, k);
      }
    }
  }

  lemma {:induction false} KeysAddUp<T, K>(rows: seq<T>, key: T -> K, weight: T -> real, keys: seq<K>)
    requires Distinct(keys)
    ensures TotalOver(rows, key, weight, keys) == Total(rows, Only(weight, key, keys))
    decreases |keys|
  {
    if keys == [] {
      NothingWanted(rows, key, weight);
    } else {
      var front, k := keys[..|keys| - 1], keys[|keys| - 1];
      KeysAddUp(rows, key, weight, front);
      assert k !in front;
      OneMoreKey(rows, key, weight, front, k);
      assert keys == front + [k];
    }
  }

  lemma {:induction false} NothingWanted<T, K>(rows: seq<T>, key: T -> K, weight: T -> real)
    ensures Total(rows, Only(weight, key, [])) == 0.0
  {
    if rows != [] {
      NothingWanted(rows[..|rows| - 1], key, weight);
    }
  }

  lemma {:induction false} EverythingWanted<T, K>(rows: seq<T>, key: T -> K, weight: T -> real, keys: seq<K>)
    requires forall i :: 0 <= i < |rows| ==> key(rows[i]) in keys
    ensures Total(rows, Only(weight, key, keys)) == Total(rows, weight)
  {
    if rows != [] {
      EverythingWanted(rows[..|rows| - 1], key, weight, keys);
    }
  }

  /** The groups' totals add up to the total of the rows, whatever the rows are grouped by. */
  lemma GroupsConserve<T, K>(rows: seq<T>, key: T -> K, weight: T -> real, order: seq<K>)
    requires Distinct(order) && forall i :: 0 <= i < |rows| ==> key(rows[i]) in order
    ensures TotalOver(rows, key, weight, order) == Total(rows, weight)
  {
    KeysAddUp(rows, key, weight, order);
    EverythingWanted(rows, key, weight, order);
  }

  // ---- rounding ---------------------------------------------------------------------------------------

  /** To the nearest multiple of `1 / scale`, halves upwards. */
  function Round(x: real, scale: real): real
    requires scale > 0.0
  {
    (x * scale + 0.5).Floor as real / scale
  }

  function Round6(x: real): real {
    Round(x, 1000000.0)
  }

  /** Within half a millionth for each of `n` rounded amounts. */
  predicate Near(x: real, y: real, n: nat) {
    -0.0000005 * n as real <= x - y <= 0.0000005 * n as real
  }

  predicate Whole(x: real) {
    x == (x * 1000000.0).Floor as real / 1000000.0
  }

  lemma FloorBounds(y: real, k: int)
    requires k == (y + 0.5).Floor
    ensures -0.5 <= k as real - y <= 0.5
  {
  }

  lemma FloorOfWhole(n: int)
    ensures (n as real + 0.5).Floor == n
  {
    var k := (n as real + 0.5).Floor;
    FloorBounds(n as real, k);
    assert (k - n) as real == k as real - n as real;
  }

  lemma Millionth(k: int, r: real)
    requires r == k as real / 1000000.0
    ensures r * 1000000.0 == k as real && Whole(r)
  {
    assert r * 1000000.0 == k as real;
  }

  lemma RoundIsNear(x: real)
    ensures Near(Round6(x), x, 1) && Whole(Round6(x))
    ensures Whole(x) ==> Round6(x) == x
  {
    var k := (x * 1000000.0 + 0.5).Floor;
    FloorBounds(x * 1000000.0, k);
    Millionth(k, Round6(x));
    if Whole(x) {
      var n := (x * 1000000.0).Floor;
      Millionth(n, x);
      FloorOfWhole(n);
    }
  }

  lemma WholeAdds(x: real, y: real)
    requires Whole(x) && Whole(y)
    ensures Whole(x + y)
  {
    var j, k := (x * 1000000.0).Floor, (y * 1000000.0).Floor;
    assert (j + k) as real == j as real + k as real;
    Millionth(j + k, x + y);
  }

  /** The rounded totals of the groups. */
  function RoundedOver<T, K(==)>(rows: seq<T>, key: T -> K, weight: T -> real, keys: seq<K>): real {
    if keys == [] then 0.0
    else RoundedOver(rows, key, weight, keys[..|keys| - 1]) + Round6(Total(Having(rows, key, keys[|keys| - 1]), weight))
  }

  /** The total a report shows. */
  function ReportTotal<T, K(==)>(rows: seq<T>, key: T -> K, weight: T -> real, keys: seq<K>): real {
    Round6(RoundedOver(rows, key, weight, keys))
  }

  lemma {:induction false} RoundedIsNear<T, K>(rows: seq<T>, key: T -> K, weight: T -> real, keys: seq<K>)
    ensures Near(RoundedOver(rows, key, weight, keys), TotalOver(rows, key, weight, keys), |keys|)
    ensures Whole(RoundedOver(rows, key, weight, keys))
    decreases |keys|
  {
    if keys != [] {
      var front, last := keys[..|keys| - 1], Total(Having(rows, key, keys[|keys| - 1]), weight);
      RoundedIsNear(rows, key, weight, front);
      RoundIsNear(last);
      WholeAdds(RoundedOver(rows, key, weight, front), Round6(last));
    }
  }

  lemma TotalIsNear<T, K>(rows: seq<T>, key: T -> K, weight: T -> real, order: seq<K>)
    requires Distinct(order) && forall i :: 0 <= i < |rows| ==> key(rows[i]) in order
    ensures ReportTotal(rows, key, weight, order) == RoundedOver(rows, key, weight, order)
    ensures Near(ReportTotal(rows, key, weight, order), Total(rows, weight), |order|)
  {
    RoundedIsNear(rows, key, weight, order);
    RoundIsNear(RoundedOver(rows, key, weight, order));
    GroupsConserve(rows, key, weight, order);
  }

  /** How far two dimensions can disagree: half a millionth for every point of either. */
  lemma DimensionsAgreeNearly<T, K, L>(rows: seq<T>, weight: T -> real, key: T -> K, order: seq<K>, other: T -> L, others: seq<L>)
    requires Distinct(order) && forall i :: 0 <= i < |rows| ==> key(rows[i]) in order
    requires Distinct(others) && forall i :: 0 <= i < |rows| ==> other(rows[i]) in others
    ensures Near(ReportTotal(rows, key, weight, order), ReportTotal(rows, other, weight, others), |order| + |others|)
  {
    TotalIsNear(rows, key, weight, order);
    TotalIsNear(rows, other, weight, others);
  }

  // ---- when every dimension agrees ----------------------------------------------------------------------

  /** A row's amount rounded on its own, and what that rounding leaves over. */
  function Rounded<T>(weight: T -> real): T -> real {
    t => Round6(weight(t))
  }

  function Rest<T>(weight: T -> real): T -> real {
    t => weight(t) - Round6(weight(t))
  }

  function Positive<T>(weight: T -> real): T -> real {
    t => if weight(t) > 0.0 then weight(t) else 0.0
  }

  function Negative<T>(weight: T -> real): T -> real {
    t => if weight(t) < 0.0 then weight(t) else 0.0
  }

  /** No rows taken together have rests that add up to half a millionth. */
  ghost predicate RestsAreSmall<T>(rows: seq<T>, weight: T -> real) {
    Total(rows, Positive(Rest(weight))) < 0.0000005 && -0.0000005 <= Total(rows, Negative(Rest(weight)))
  }

  ghost predicate Groups<T, K>(rows: seq<T>, key: T -> K, order: seq<K>) {
    Distinct(order) && forall i :: 0 <= i < |rows| ==> key(rows[i]) in order
  }

  /** Whatever the rows are grouped by, the report shows the same total. */
  ghost predicate DimensionsAgree<T(!new)>(rows: seq<T>, weight: T -> real) {
    forall key: T -> int, order: seq<int>, other: T -> int, others: seq<int> ::
      Groups(rows, key, order) && Groups(rows, other, others) ==>
        ReportTotal(rows, key, weight, order) == ReportTotal(rows, other, weight, others)
  }

  lemma RoundShift(x: real, w: real)
    requires Whole(w)
    ensures Round6(w + x) == w + Round6(x)
  {
    var n, k := (w * 1000000.0).Floor, (x * 1000000.0 + 0.5).Floor;
    Millionth(n, w);
    assert (w + x) * 1000000.0 + 0.5 == n as real + (x * 1000000.0 + 0.5);
    FloorShift(n, x * 1000000.0 + 0.5);
    assert (n + k) as real == n as real + k as real;
  }

  lemma FloorShift(n: int, y: real)
    ensures (n as real + y).Floor == n + y.Floor
  {
    var k := y.Floor;
    assert (n + k) as real == n as real + k as real;
    FloorIs(n as real + y, n + k);
  }

  lemma FloorIs(y: real, k: int)
    requires k as real <= y < k as real + 1.0
    ensures y.Floor == k
  {
    assert (k - y.Floor) as real == k as real - y.Floor as real;
  }

  /** Exactly the amounts under half a millionth are rounded away. */
  lemma RoundsToNothing(x: real)
    ensures Round6(x) == 0.0 <==> -0.0000005 <= x < 0.0000005
  {
    var k := (x * 1000000.0 + 0.5).Floor;
    if -0.0000005 <= x < 0.0000005 {
      FloorIs(x * 1000000.0 + 0.5, 0);
    }
    if Round6(x) == 0.0 {
      Millionth(k, Round6(x));
    }
  }

  lemma RestIsSmall(x: real)
    ensures Round6(x - Round6(x)) == 0.0
  {
    RoundIsNear(x);
    RoundShift(x - Round6(x), Round6(x));
  }

  /** A group's total is the total of its rounded rows and of their rests. */
  lemma {:induction false} TotalSplits<T>(rows: seq<T>, weight: T -> real)
    ensures Total(rows, weight) == Total(rows, Rounded(weight)) + Total(rows, Rest(weight))
    ensures Whole(Total(rows, Rounded(weight)))
  {
    if rows != [] {
      var front, last := rows[..|rows| - 1], rows[|rows| - 1];
      TotalSplits(front, weight);
      RoundIsNear(weight(last));
      WholeAdds(Total(front, Rounded(weight)), Round6(weight(last)));
    }
  }

  lemma GroupSplits<T>(rows: seq<T>, weight: T -> real)
    ensures Round6(Total(rows, weight)) == Total(rows, Rounded(weight)) + Round6(Total(rows, Rest(weight)))
  {
    TotalSplits(rows, weight);
    RoundShift(Total(rows, Rest(weight)), Total(rows, Rounded(weight)));
  }

  lemma {:induction false} GroupsSplit<T, K>(rows: seq<T>, key: T -> K, weight: T -> real, keys: seq<K>)
    ensures RoundedOver(rows, key, weight, keys) ==
            TotalOver(rows, key, Rounded(weight), keys) + RoundedOver(rows, key, Rest(weight), keys)
    decreases |keys|
  {
    if keys != [] {
      GroupsSplit(rows, key, weight, keys[..|keys| - 1]);
      GroupSplits(Having(rows, key, keys[|keys| - 1]), weight);
    }
  }

  /** What a report shows is the total of the rounded rows, and the groups' rounded rests. */
  lemma ReportSplits<T, K>(rows: seq<T>, key: T -> K, weight: T -> real, order: seq<K>)
    requires Groups(rows, key, order)
    ensures ReportTotal(rows, key, weight, order) ==
            Total(rows, Rounded(weight)) + RoundedOver(rows, key, Rest(weight), order)
  {
    TotalIsNear(rows, key, weight, order);
    GroupsSplit(rows, key, weight, order);
    GroupsConserve(rows, key, Rounded(weight), order);
  }

  lemma LastTotal<T>(rows: seq<T>, weight: T -> real)
    requires rows != []
    ensures Total(rows, weight) == Total(rows[..|rows| - 1], weight) + weight(rows[|rows| - 1])
  {
  }

  lemma HavingLast<T, K>(rows: seq<T>, key: T -> K, weight: T -> real, k: K)
    requires rows != []
    ensures var front, last := rows[..|rows| - 1], rows[|rows| - 1];
            Total(Having(rows, key, k), weight) == Total(Having(front, key, k), weight) + if key(last) == k then weight(last) else 0.0
  {
    var front, last := rows[..|rows| - 1], rows[|rows| - 1];
    TotalAppends(Having(front, key, k), last, weight);
    assert Having(front, key, k) + [] == Having(front, key, k);
  }

  /** A group's rests lie between all the negative ones and all the positive ones. */
  lemma {:induction false} GroupWithin<T, K>(rows: seq<T>, key: T -> K, weight: T -> real, k: K)
    ensures Total(rows, Negative(weight)) <= Total(Having(rows, key, k), weight) <= Total(rows, Positive(weight))
    ensures Total(rows, Negative(weight)) <= 0.0 <= Total(rows, Positive(weight))
  {
    if rows != [] {
      var front, last := rows[..|rows| - 1], rows[|rows| - 1];
      GroupWithin(front, key, weight, k);
      HavingLast(rows, key, weight, k);
      LastTotal(rows, Negative(weight));
      LastTotal(rows, Positive(weight));
    }
  }

  lemma {:induction false} SmallRestsVanish<T, K>(rows: seq<T>, key: T -> K, weight: T -> real, keys: seq<K>)
    requires RestsAreSmall(rows, weight)
    ensures RoundedOver(rows, key, Rest(weight), keys) == 0.0
    decreases |keys|
  {
    if keys != [] {
      var k := keys[|keys| - 1];
      SmallRestsVanish(rows, key, weight, keys[..|keys| - 1]);
      GroupWithin(rows, key, Rest(weight), k);
      RoundsToNothing(Total(Having(rows, key, k), Rest(weight)));
    }
  }

  // one group of the picked rows, every other row in a group of its own

  function Upto(n: nat): (s: seq<int>)
    ensures |s| == n && forall i :: 0 <= i < n ==> s[i] == i
  {
    seq(n, i => i)
  }

  ghost predicate Picks<T>(rows: seq<T>, pick: T -> bool, key: T -> int) {
    forall i :: 0 <= i < |rows| ==> key(rows[i]) == if pick(rows[i]) then -1 else i
  }

  lemma {:induction false} OwnGroup<T>(rows: seq<T>, pick: T -> bool, key: T -> int, m: nat, k: nat)
    requires Picks(rows, pick, key) && m <= |rows|
    ensures Having(rows[..m], key, k) == if k < m && !pick(rows[k]) then [rows[k]] else []
  {
    if m > 0 {
      OwnGroup(rows, pick, key, m - 1, k);
      HavingAppends(rows, key, m - 1, k);
    }
  }

  lemma OwnRestVanishes<T>(rows: seq<T>, pick: T -> bool, key: T -> int, weight: T -> real, k: nat)
    requires Picks(rows, pick, key)
    ensures Round6(Total(Having(rows, key, k), Rest(weight))) == 0.0
  {
    OwnGroup(rows, pick, key, |rows|, k);
    assert rows[..|rows|] == rows;
    if k < |rows| && !pick(rows[k]) {
      OneRow(rows[k], Rest(weight));
      RestIsSmall(weight(rows[k]));
    } else {
      RoundsToNothing(0.0);
    }
  }

  lemma OneRow<T>(t: T, weight: T -> real)
    ensures Total([t], weight) == weight(t)
  {
    var none: seq<T> := [];
    assert none + [t] == [t];
    TotalAppends(none, t, weight);
  }

  lemma {:induction false} OwnRestsVanish<T>(rows: seq<T>, pick: T -> bool, key: T -> int, weight: T -> real, n: nat)
    requires Picks(rows, pick, key)
    ensures RoundedOver(rows, key, Rest(weight), Upto(n)) == 0.0
  {
    if n > 0 {
      OwnRestsVanish(rows, pick, key, weight, n - 1);
      OwnRestVanishes(rows, pick, key, weight, n - 1);
      assert Upto(n)[..n - 1] == Upto(n - 1);
    }
  }

  function Picked<T>(weight: T -> real, pick: T -> bool): T -> real {
    t => if pick(t) then weight(t) else 0.0
  }

  lemma {:induction false} PickedGroup<T>(rows: seq<T>, pick: T -> bool, key: T -> int, weight: T -> real, m: nat)
    requires Picks(rows, pick, key) && m <= |rows|
    ensures Total(Having(rows[..m], key, -1), weight) == Total(rows[..m], Picked(weight, pick))
  {
    if m > 0 {
      PickedGroup(rows, pick, key, weight, m - 1);
      HavingAppends(rows, key, m - 1, -1);
      assert rows[..m] == rows[..m - 1] + [rows[m - 1]];
      TotalAppends(rows[..m - 1], rows[m - 1], Picked(weight, pick));
      TotalAppends(Having(rows[..m - 1], key, -1), rows[m - 1], weight);
      assert Having(rows[..m - 1], key, -1) + [] == Having(rows[..m - 1], key, -1);
    }
  }

  /** Such a report shows the total of the rounded rows, and the rounded rest of the picked ones. */
  lemma PickedReport<T>(rows: seq<T>, pick: T -> bool, key: T -> int, weight: T -> real)
    requires Picks(rows, pick, key)
    ensures Groups(rows, key, Upto(|rows|) + [-1])
    ensures ReportTotal(rows, key, weight, Upto(|rows|) + [-1]) ==
            Total(rows, Rounded(weight)) + Round6(Total(rows, Picked(Rest(weight), pick)))
  {
    var order := Upto(|rows|) + [-1];
    PickedGroups(rows, pick, key);
    OneMoreRounded(rows, key, Rest(weight), Upto(|rows|), -1);
    OwnRestsVanish(rows, pick, key, weight, |rows|);
    PickedGroup(rows, pick, key, Rest(weight), |rows|);
    assert rows[..|rows|] == rows;
    ReportSplits(rows, key, weight, order);
  }

  lemma PickedGroups<T>(rows: seq<T>, pick: T -> bool, key: T -> int)
    requires Picks(rows, pick, key)
    ensures Groups(rows, key, Upto(|rows|) + [-1])
  {
    var order := Upto(|rows|) + [-1];
    forall i | 0 <= i < |rows| ensures key(rows[i]) in order {
      assert order[if pick(rows[i]) then |rows| else i] == key(rows[i]);
    }
  }

  lemma OneMoreRounded<T, K>(rows: seq<T>, key: T -> K, weight: T -> real, keys: seq<K>, k: K)
    ensures RoundedOver(rows, key, weight, keys + [k]) == RoundedOver(rows, key, weight, keys) + Round6(Total(Having(rows, key, k), weight))
  {
    assert (keys + [k])[..|keys|] == keys;
  }

  /** The position of a row. */
  function IndexOf<T(==)>(rows: seq<T>, t: T): int {
    if rows == [] then 0 else if rows[|rows| - 1] == t then |rows| - 1 else IndexOf(rows[..|rows| - 1], t)
  }

  lemma {:induction false} IndexOfIs<T>(rows: seq<T>, i: nat)
    requires Distinct(rows) && i < |rows|
    ensures IndexOf(rows, rows[i]) == i
  {
    if i < |rows| - 1 {
      IndexOfIs(rows[..|rows| - 1], i);
    }
  }

  lemma PickingKey<T>(rows: seq<T>, pick: T -> bool) returns (key: T -> int)
    requires Distinct(rows)
    ensures Picks(rows, pick, key)
  {
    key := t => if pick(t) then -1 else IndexOf(rows, t);
    forall i | 0 <= i < |rows| ensures IndexOf(rows, rows[i]) == i {
      IndexOfIs(rows, i);
    }
  }

  lemma {:induction false} SameTotal<T>(rows: seq<T>, weight: T -> real, other: T -> real)
    requires forall i :: 0 <= i < |rows| ==> weight(rows[i]) == other(rows[i])
    ensures Total(rows, weight) == Total(rows, other)
  {
    if rows != [] {
      SameTotal(rows[..|rows| - 1], weight, other);
    }
  }

  lemma {:induction false} NothingTotals<T>(rows: seq<T>, weight: T -> real)
    requires forall i :: 0 <= i < |rows| ==> weight(rows[i]) == 0.0
    ensures Total(rows, weight) == 0.0
  {
    if rows != [] {
      NothingTotals(rows[..|rows| - 1], weight);
    }
  }

  /** Picking rows whose rests do not round away changes the total. */
  lemma PickingShows<T(!new)>(rows: seq<T>, weight: T -> real, pick: T -> bool)
    requires Distinct(rows) && Round6(Total(rows, Picked(Rest(weight), pick))) != 0.0
    ensures !DimensionsAgree(rows, weight)
  {
    var none: T -> bool := t => false;
    var key := PickingKey(rows, pick);
    var other := PickingKey(rows, none);
    PickedReport(rows, pick, key, weight);
    PickedReport(rows, none, other, weight);
    NothingTotals(rows, Picked(Rest(weight), none));
    RoundsToNothing(0.0);
  }

  /**
   * Exactly when the total does not depend on the dimension: when the rests that rounding each row on
   * its own leaves over, the positive ones and the negative ones each taken together, round away.
   */
  lemma DimensionsAgreeIff<T(!new)>(rows: seq<T>, weight: T -> real)
    requires Distinct(rows)
    ensures DimensionsAgree(rows, weight) <==> RestsAreSmall(rows, weight)
  {
    var rest := Rest(weight);
    if RestsAreSmall(rows, weight) {
      forall key: T -> int, order: seq<int>, other: T -> int, others: seq<int>
        | Groups(rows, key, order) && Groups(rows, other, others)
        ensures ReportTotal(rows, key, weight, order) == ReportTotal(rows, other, weight, others)
      {
        AgreedTotal(rows, key, weight, order);
        AgreedTotal(rows, other, weight, others);
      }
    } else {
      var pos: T -> bool, neg: T -> bool := t => rest(t) > 0.0, t => rest(t) < 0.0;
      SameTotal(rows, Picked(rest, pos), Positive(rest));
      SameTotal(rows, Picked(rest, neg), Negative(rest));
      if Total(rows, Positive(rest)) >= 0.0000005 {
        RoundsToNothing(Total(rows, Picked(rest, pos)));
        PickingShows(rows, weight, pos);
      } else {
        RoundsToNothing(Total(rows, Picked(rest, neg)));
        PickingShows(rows, weight, neg);
      }
    }
  }

  /** Then it is the total of the rows, each rounded on its own. */
  lemma AgreedTotal<T, K>(rows: seq<T>, key: T -> K, weight: T -> real, order: seq<K>)
    requires Groups(rows, key, order) && RestsAreSmall(rows, weight)
    ensures ReportTotal(rows, key, weight, order) == Total(rows, Rounded(weight))
  {
    ReportSplits(rows, key, weight, order);
    SmallRestsVanish(rows, key, weight, order);
  }

  /** Rows of whole millionths, such as the run count's ones, are totalled exactly under every dimension. */
  lemma WholeAmountsAreExact<T, K>(rows: seq<T>, key: T -> K, weight: T -> real, order: seq<K>)
    requires Groups(rows, key, order) && forall i :: 0 <= i < |rows| ==> Whole(weight(rows[i]))
    ensures RestsAreSmall(rows, weight) && ReportTotal(rows, key, weight, order) == Total(rows, weight)
  {
    forall i | 0 <= i < |rows| ensures Round6(weight(rows[i])) == weight(rows[i]) {
      RoundIsNear(weight(rows[i]));
    }
    NothingTotals(rows, Positive(Rest(weight)));
    NothingTotals(rows, Negative(Rest(weight)));
    AgreedTotal(rows, key, weight, order);
    SameTotal(rows, Rounded(weight), weight);
  }

  // ---- and that they may not ------------------------------------------------------------------------------

  lemma Three<T>(a: T, b: T, c: T, weight: T -> real)
    ensures Total([a, b, c], weight) == weight(a) + weight(b) + weight(c)
    ensures Total([a], weight) == weight(a)
  {
    assert [a, b, c][..2] == [a, b] && [a, b][..1] == [a] && [a][..0] == [];
    assert Total([a, b, c], weight) == Total([a, b], weight) + weight(c);
    assert Total([a, b], weight) == Total([a], weight) + weight(b);
    assert Total([a][..0], weight) == 0.0;
  }

  lemma HavingThree<T, K>(a: T, b: T, c: T, key: T -> K, k: K)
    ensures Having([a, b, c], key, k) ==
            (if key(a) == k then [a] else []) + (if key(b) == k then [b] else []) + (if key(c) == k then [c] else [])
  {
    assert [a, b, c][..2] == [a, b] && [a, b][..1] == [a] && [a][..0] == [];
    var none: seq<T> := [];
    assert Having([a][..0], key, k) == none;
    assert Having([a], key, k) == none + if key(a) == k then [a] else [];
    assert Having([a, b], key, k) == Having([a], key, k) + if key(b) == k then [b] else [];
  }

  lemma RoundedOne<T, K>(rows: seq<T>, key: T -> K, weight: T -> real, k: K)
    ensures RoundedOver(rows, key, weight, [k]) == Round6(Total(Having(rows, key, k), weight))
  {
    assert [k][..0] == [];
    assert RoundedOver(rows, key, weight, [k][..0]) == 0.0;
  }

  lemma RoundedThree<T, K>(rows: seq<T>, key: T -> K, weight: T -> real, a: K, b: K, c: K)
    ensures RoundedOver(rows, key, weight, [a, b, c]) ==
            Round6(Total(Having(rows, key, a), weight)) + Round6(Total(Having(rows, key, b), weight)) + Round6(Total(Having(rows, key, c), weight))
  {
    assert [a, b, c][..2] == [a, b] && [a, b][..1] == [a];
    RoundedOne(rows, key, weight, a);
    assert RoundedOver(rows, key, weight, [a, b]) == RoundedOver(rows, key, weight, [a]) + Round6(Total(Having(rows, key, b), weight));
  }

  lemma Apart(rows: seq<int>, key: int -> int, weight: int -> real)
    requires rows == [0, 1, 2] && (forall t :: key(t) == t) && forall t :: weight(t) == 1.0 / 60.0
    ensures ReportTotal(rows, key, weight, [0, 1, 2]) == 0.050001
  {
    RoundedThree(rows, key, weight, 0, 1, 2);
    SixtiethRounds();
    forall k | 0 <= k < 3 ensures Round6(Total(Having(rows, key, k), weight)) == 0.016667 {
      HavingThree(0, 1, 2, key, k);
      assert Having(rows, key, k) == [k];
      Three(k, k, k, weight);
    }
    Millionth(50001, 0.050001);
    RoundIsNear(0.050001);
  }

  lemma SixtiethRounds()
    ensures Round6(1.0 / 60.0) == 0.016667 && Round6(0.05) == 0.05
  {
    FloorIs(1.0 / 60.0 * 1000000.0 + 0.5, 16667);
    FloorIs(0.05 * 1000000.0 + 0.5, 50000);
  }

  lemma Together(rows: seq<int>, key: int -> int, weight: int -> real)
    requires rows == [0, 1, 2] && (forall t :: key(t) == 0) && forall t :: weight(t) == 1.0 / 60.0
    ensures ReportTotal(rows, key, weight, [0]) == 0.05
  {
    RoundedOne(rows, key, weight, 0);
    HavingThree(0, 1, 2, key, 0);
    assert Having(rows, key, 0) == rows;
    Three(0, 1, 2, weight);
    SixtiethRounds();
  }

  /** Three jobs of one billable second each: 0.050001 minutes grouped apart, 0.05 together. */
  lemma DimensionsCanDisagree()
    ensures var rows, minutes := [0, 1, 2], (t: int) => 1.0 / 60.0;
            && ReportTotal(rows, t => t, minutes, [0, 1, 2]) == 0.050001
            && ReportTotal(rows, t => 0, minutes, [0]) == 0.05
  {
    var rows, minutes := [0, 1, 2], (t: int) => 1.0 / 60.0;
    Apart(rows, t => t, minutes);
    Together(rows, t => 0, minutes);
  }

  // ---- the additive metrics -----------------------------------------------------------------------------

  /** What an additive metric asks of a row: whether it can be measured at all, how much, and by which clock. */
  datatype Measure<!T> = Measure(eligible: T -> bool, amount: T -> real, measured: T -> bool)

  function Amount<T>(m: Measure<T>): T -> real {
    t => if m.eligible(t) then m.amount(t) else 0.0
  }

  function Eligible<T>(m: Measure<T>): T -> real {
    t => if m.eligible(t) then 1.0 else 0.0
  }

  function Measured<T>(m: Measure<T>): T -> real {
    t => if m.eligible(t) && m.measured(t) then 1.0 else 0.0
  }

  datatype Point<K> = Point(key: K, value: real, sampleSize: nat)

  function Keys<K>(points: seq<Point<K>>): (keys: seq<K>)
    ensures |keys| == |points| && forall i :: 0 <= i < |points| ==> keys[i] == points[i].key
  {
    seq(|points|, i requires 0 <= i < |points| => points[i].key)
  }

  /** No row the metric could measure counts as full coverage. */
  function Coverage(num: real, den: real): real {
    if den == 0.0 then 1.0 else Round(num / den, 10000.0)
  }

  /**
   * The coverage shown is within half a hundredth of a percent of the share measured, 0 to 1, and a
   * metric with nothing to measure shows 1.
   */
  lemma CoverageIsNear(num: real, den: real)
    requires 0.0 <= num <= den
    ensures 0.0 <= Coverage(num, den) <= 1.0
    ensures if den == 0.0 then Coverage(num, den) == 1.0 else -0.00005 <= Coverage(num, den) - num / den <= 0.00005
    ensures num == den ==> Coverage(num, den) == 1.0
    ensures den > 0.0 && num / den < 0.99995 ==> Coverage(num, den) < 1.0
  {
    if den > 0.0 {
      ShareIsShare(num, den);
      Nearest4(num / den);
    }
  }

  lemma ShareIsShare(num: real, den: real)
    requires 0.0 <= num <= den && den > 0.0
    ensures 0.0 <= num / den <= 1.0 && (num == den ==> num / den == 1.0)
  {
  }

  lemma Nearest4(x: real)
    requires 0.0 <= x <= 1.0
    ensures 0.0 <= Round(x, 10000.0) <= 1.0 && -0.00005 <= Round(x, 10000.0) - x <= 0.00005
    ensures (x == 1.0 ==> Round(x, 10000.0) == 1.0) && (x < 0.99995 ==> Round(x, 10000.0) < 1.0)
  {
    var k := (x * 10000.0 + 0.5).Floor;
    FloorBounds(x * 10000.0, k);
    if x == 1.0 {
      FloorOfWhole(10000);
    }
    if x < 0.99995 {
      assert x * 10000.0 + 0.5 < 10000.0;
    }
  }

  /**
   * `spend` and `billableMinutes`: one point per group, its value rounded; the total is that of the
   * rounded points, never further from the rows' own total than half a millionth a point. Both sides
   * of the coverage ratio are those of the rows themselves, so no choice of dimension changes them.
   */
  method ComputeAdditive<T, K(==, !new)>(rows: seq<T>, key: T -> K, m: Measure<T>)
    returns (points: seq<Point<K>>, total: real, coverage: real, coverageSampleSize: real)
    ensures total == ReportTotal(rows, key, Amount(m), Keys(points))
    ensures Near(total, Total(rows, Amount(m)), |points|)
    ensures coverageSampleSize == Total(rows, Eligible(m))
    ensures coverage == Coverage(Total(rows, Measured(m)), Total(rows, Eligible(m)))
    ensures forall i :: 0 <= i < |points| ==>
              points[i].value == Round6(Total(Having(rows, key, points[i].key), Amount(m)))
              && points[i].sampleSize == |Having(rows, key, points[i].key)|
    ensures Distinct(Keys(points)) && forall i :: 0 <= i < |rows| ==> key(rows[i]) in Keys(points)
  {
    var order, groups := GroupRows(rows, key);
    var sum, coverageNum, coverageDen := 0.0, 0.0, 0.0;
    points := [];
    for n := 0 to |order|
      invariant points == PointsOver(rows, key, Amount(m), order[..n])
      invariant sum == RoundedOver(rows, key, Amount(m), order[..n])
      invariant coverageNum == TotalOver(rows, key, Measured(m), order[..n])
      invariant coverageDen == TotalOver(rows, key, Eligible(m), order[..n])
    {
      assert order[..n + 1][..n] == order[..n];
      var value, num, den := FoldGroup(groups[order[n]], m);
      points := points + [Point(order[n], Round6(value), |groups[order[n]]|)];
      sum, coverageNum, coverageDen := sum + Round6(value), coverageNum + num, coverageDen + den;
    }
    assert order[..|order|] == order;
    total, coverage, coverageSampleSize := Round6(sum), Coverage(coverageNum, coverageDen), coverageDen;
    PointsAreKeyed(rows, key, Amount(m), order);
    TotalIsNear(rows, key, Amount(m), order);
    GroupsConserve(rows, key, Measured(m), order);
    GroupsConserve(rows, key, Eligible(m), order);
  }

  /** One point for each key. */
  ghost function PointsOver<T, K>(rows: seq<T>, key: T -> K, weight: T -> real, keys: seq<K>): seq<Point<K>> {
    if keys == [] then []
    else
      var k := keys[|keys| - 1];
      PointsOver(rows, key, weight, keys[..|keys| - 1])
      + [Point(k, Round6(Total(Having(rows, key, k), weight)), |Having(rows, key, k)|)]
  }

  lemma {:induction false} PointsAreKeyed<T, K>(rows: seq<T>, key: T -> K, weight: T -> real, keys: seq<K>)
    ensures var points := PointsOver(rows, key, weight, keys);
            && Keys(points) == keys
            && forall i :: 0 <= i < |points| ==>
                 points[i].value == Round6(Total(Having(rows, key, points[i].key), weight))
                 && points[i].sampleSize == |Having(rows, key, points[i].key)|
    decreases |keys|
  {
    if keys != [] {
      PointsAreKeyed(rows, key, weight, keys[..|keys| - 1]);
      assert keys == keys[..|keys| - 1] + [keys[|keys| - 1]];
    }
  }

  method FoldGroup<T>(rows: seq<T>, m: Measure<T>) returns (value: real, num: real, den: real)
    ensures value == Total(rows, Amount(m)) && num == Total(rows, Measured(m)) && den == Total(rows, Eligible(m))
  {
    value, num, den := 0.0, 0.0, 0.0;
    for n := 0 to |rows|
      invariant value == Total(rows[..n], Amount(m))
      invariant num == Total(rows[..n], Measured(m)) && den == Total(rows[..n], Eligible(m))
    {
      assert rows[..n + 1] == rows[..n] + [rows[n]];
      TotalAppends(rows[..n], rows[n], Amount(m));
      TotalAppends(rows[..n], rows[n], Measured(m));
      TotalAppends(rows[..n], rows[n], Eligible(m));
      if !m.eligible(rows[n]) {
        continue;
      }
      value, den := value + m.amount(rows[n]), den + 1.0;
      if m.measured(rows[n]) {
        num := num + 1.0;
      }
    }
    assert rows[..|rows|] == rows;
  }

  // ---- the workflow dimension -----------------------------------------------------------------------------

  /** The absent name gets a key no webhook value can produce. */
  function WorkflowKey(name: Option<string>): string {
    if name.None? || name.value == "" then "workflow:unrecorded" else "name:" + name.value
  }

  /** Two rows share a bar exactly when they name the same workflow, or both name none. */
  lemma WorkflowKeysMeet(a: Option<string>, b: Option<string>)
    ensures var none := (n: Option<string>) => n.None? || n.value == "";
            WorkflowKey(a) == WorkflowKey(b) <==> (none(a) && none(b)) || (!none(a) && !none(b) && a == b)
  {
    if a.Some? && b.Some? {
      assert ("name:" + a.value)[5..] == a.value && ("name:" + b.value)[5..] == b.value;
    }
    assert "workflow:unrecorded"[0] == 'w' && "name:"[0] == 'n';
  }

  // ---- percentiles ----------------------------------------------------------------------------------------

  ghost predicate Sorted(s: seq<int>) {
    forall i, j :: 0 <= i < j < |s| ==> s[i] <= s[j]
  }

  function Max(a: int, b: int): int {
    if a < b then b else a
  }

  function Min(a: int, b: int): int {
    if a < b then a else b
  }

  /** Nearest rank, no interpolation: index ceil(p * n / 100) - 1, clamped. */
  function Percentile(sorted: seq<int>, p: nat): int {
    if sorted == [] then 0
    else
      var index := Min(|sorted| - 1, Max(0, (p * |sorted| + 99) / 100 - 1));
      sorted[index]
  }

  function AtMost(s: seq<int>, v: int): nat {
    if s == [] then 0 else AtMost(s[..|s| - 1], v) + if s[|s| - 1] <= v then 1 else 0
  }

  lemma {:induction false} AtMostAtLeast(s: seq<int>, v: int, k: nat)
    requires k <= |s| && forall i :: 0 <= i < k ==> s[i] <= v
    ensures AtMost(s, v) >= k
  {
    if k > 0 {
      if k == |s| {
        AtMostAtLeast(s[..|s| - 1], v, k - 1);
      } else {
        AtMostAtLeast(s[..|s| - 1], v, k);
      }
    }
  }

  lemma {:induction false} AtMostBelow(s: seq<int>, v: int, k: nat)
    requires k <= |s| && forall i :: k <= i < |s| ==> v < s[i]
    ensures AtMost(s, v) <= k
  {
    if s != [] {
      AtMostBelow(s[..|s| - 1], v, if k == |s| then k - 1 else k);
    }
  }

  /** The p-th percentile is a sample: p% of the samples are at or below it, and no smaller value has that many. */
  lemma PercentileIsNearestRank(s: seq<int>, p: nat)
    requires s != [] && Sorted(s) && 0 < p <= 100
    ensures var v := Percentile(s, p);
            v in s && 100 * AtMost(s, v) >= p * |s| && forall u :: u < v ==> 100 * AtMost(s, u) < p * |s|
  {
    var rank := (p * |s| + 99) / 100;
    assert p * |s| <= 100 * |s| by {
      MulAtMost(p, 100, |s|);
    }
    assert p * |s| >= 1 by {
      MulAtMost(1, p, |s|);
    }
    assert 1 <= rank <= |s| && 100 * rank >= p * |s| > 100 * (rank - 1);
    var v := s[rank - 1];
    assert Percentile(s, p) == v;
    AtMostAtLeast(s, v, rank);
    forall u | u < v ensures 100 * AtMost(s, u) < p * |s| {
      AtMostBelow(s, u, rank - 1);
    }
  }

  lemma MulAtMost(a: nat, b: nat, n: nat)
    requires a <= b
    ensures a * n <= b * n
  {
  }
}
