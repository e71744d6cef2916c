// Intruder attacks: the order in which payload lists are turned into jobs. The
// source mutates one shared map between yields and advances an index vector in
// place; the specification says what the k-th yielded map is.
module Attack {
  import opened Common

  type Job = map<string, string>

  datatype Mode = Single | Sniper | BatteringRam | Pitchfork | ClusterBomb

  datatype Attack = Attack(mode: Mode, positions: seq<string>, lists: seq<seq<string>>, base: Job)

  function Min(a: nat, b: nat): nat {
    if a < b then a else b
  }

  // ---------- mixed radix ----------

  // The number of ways to pick from the lists from the i-th on.
  function Ways(lists: seq<seq<string>>, i: nat): nat
    requires i <= |lists|
    decreases |lists| - i
  {
    if i == |lists| then 1 else |lists[i]| * Ways(lists, i + 1)
  }

  predicate NoneEmpty(lists: seq<seq<string>>) {
    forall i :: 0 <= i < |lists| ==> lists[i] != []
  }

  lemma {:induction false} WaysPositive(lists: seq<seq<string>>, i: nat)
    requires i <= |lists| && NoneEmpty(lists)
    ensures Ways(lists, i) >= 1
    decreases |lists| - i
  {
    if i < |lists| {
      WaysPositive(lists, i + 1);
      MulMonotone(1, |lists[i]|, Ways(lists, i + 1));
    }
  }

  lemma MulMonotone(a: nat, b: nat, c: nat)
    requires a <= b
    ensures a * c <= b * c
  {
    assert (b - a) * c >= 0;
  }

  // The digit of k at position i, the last position counting fastest.
  function Digit(lists: seq<seq<string>>, k: nat, i: nat): nat
    requires i < |lists| && NoneEmpty(lists)
  {
    WaysPositive(lists, i + 1);
    (k / Ways(lists, i + 1)) % |lists[i]|
  }

  predicate InRange(lists: seq<seq<string>>, indices: seq<nat>) {
    |indices| == |lists| && forall i :: 0 <= i < |indices| ==> indices[i] < |lists[i]|
  }

  // The number an index vector spells from position i on.
  function Value(lists: seq<seq<string>>, indices: seq<nat>, i: nat): nat
    requires |indices| == |lists| && i <= |lists|
    decreases |lists| - i
  {
    if i == |lists| then 0 else indices[i] * Ways(lists, i + 1) + Value(lists, indices, i + 1)
  }

  lemma {:induction false} ValueBelowWays(lists: seq<seq<string>>, indices: seq<nat>, i: nat)
    requires InRange(lists, indices) && i <= |lists|
    ensures Value(lists, indices, i) < Ways(lists, i)
    decreases |lists| - i
  {
    if i < |lists| {
      ValueBelowWays(lists, indices, i + 1);
      var w := Ways(lists, i + 1);
      MulMonotone(indices[i] + 1, |lists[i]|, w);
      assert (indices[i] + 1) * w == indices[i] * w + w;
    }
  }

  lemma Distribute(a: nat, b: nat, c: nat)
    ensures (a + b) * c == a * c + b * c
  {
  }

  lemma DivMod(k: nat, w: nat)
    requires w > 0
    ensures k == (k / w) * w + k % w
  {
  }

  lemma QuotientUnique(q: nat, r: nat, m: nat, s: nat, d: nat)
    requires q * d + r == m * d + s && r < d && s < d
    ensures q == m && r == s
  {
    Distribute(m, 1, d);
    Distribute(q, 1, d);
    if m < q {
      MulMonotone(m + 1, q, d);
    } else if q < m {
      MulMonotone(q + 1, m, d);
    }
  }

  lemma DivModUnique(q: nat, d: nat, r: nat)
    requires r < d
    ensures (q * d + r) / d == q && (q * d + r) % d == r
  {
    var n := q * d + r;
    DivMod(n, d);
    QuotientUnique(q, r, n / d, n % d, d);
  }

  lemma ModOfSum(a: nat, b: nat, q: nat, d: nat)
    requires d > 0 && a == q * d + b
    ensures a % d == b % d
  {
    var m, r := b / d, b % d;
    DivMod(b, d);
    Distribute(q, m, d);
    assert a == (q + m) * d + r;
    DivModUnique(q + m, d, r);
  }

  // Quotient of the whole number by a suffix's weight, modulo what is above.
  lemma {:induction false} DigitsOfValue(lists: seq<seq<string>>, indices: seq<nat>, from: nat, i: nat)
    requires InRange(lists, indices) && NoneEmpty(lists) && from <= i < |lists|
    ensures Ways(lists, i + 1) > 0
    ensures (Value(lists, indices, from) / Ways(lists, i + 1)) % |lists[i]| == indices[i]
    decreases i - from
  {
    WaysPositive(lists, i + 1);
    var w := Ways(lists, i + 1);
    if from == i {
      ValueBelowWays(lists, indices, i + 1);
      DivModUnique(indices[i], w, Value(lists, indices, i + 1));
      DivModUnique(0, |lists[i]|, indices[i]);
    } else {
      DigitsOfValue(lists, indices, from + 1, i);
      var c := WaysMultiple(lists, from + 1, i);
      var rest := Value(lists, indices, from + 1);
      assert Value(lists, indices, from) == indices[from] * Ways(lists, from + 1) + rest;
      DigitUnmoved(indices[from], c, |lists[i]|, w, rest);
    }
  }

  lemma Regrouped(x: nat, c: nat, d: nat, w: nat)
    ensures x * (c * (d * w)) == ((x * c) * d) * w
  {
    assert x * (c * (d * w)) == (x * c) * (d * w);
  }

  // Adding a multiple of d * w leaves the quotient by w unchanged modulo d.
  lemma DigitUnmoved(x: nat, c: nat, d: nat, w: nat, rest: nat)
    requires d > 0 && w > 0
    ensures ((x * (c * (d * w)) + rest) / w) % d == (rest / w) % d
  {
    var most, q, r := (x * c) * d, rest / w, rest % w;
    Regrouped(x, c, d, w);
    DivMod(rest, w);
    Distribute(most, q, w);
    QuotientPlus(x * (c * (d * w)) + rest, most, q, r, w);
    ModOfSum(most + q, q, x * c, d);
  }

  lemma QuotientPlus(n: nat, most: nat, q: nat, r: nat, w: nat)
    requires r < w && n == (most + q) * w + r
    ensures n / w == most + q
  {
    DivModUnique(most + q, w, r);
  }

  lemma {:induction false} WaysMultiple(lists: seq<seq<string>>, from: nat, i: nat) returns (c: nat)
    requires from <= i < |lists|
    ensures Ways(lists, from) == c * (|lists[i]| * Ways(lists, i + 1))
    decreases i - from
  {
    if from == i {
      c := 1;
    } else {
      var d := WaysMultiple(lists, from + 1, i);
      c := |lists[from]| * d;
      assert |lists[from]| * (d * (|lists[i]| * Ways(lists, i + 1))) ==
        (|lists[from]| * d) * (|lists[i]| * Ways(lists, i + 1));
    }
  }

  // An index vector in range is the vector of digits of the number it spells.
  lemma IndicesAreDigits(lists: seq<seq<string>>, indices: seq<nat>)
    requires InRange(lists, indices) && NoneEmpty(lists)
    ensures forall i :: 0 <= i < |lists| ==> indices[i] == Digit(lists, Value(lists, indices, 0), i)
  {
    forall i | 0 <= i < |lists| ensures indices[i] == Digit(lists, Value(lists, indices, 0), i) {
      DigitsOfValue(lists, indices, 0, i);
    }
  }

  // ---------- the jobs ----------

  // Assign the chosen payload to each of the first n positions, in order.
  function Assigned(job: Job, positions: seq<string>, values: seq<string>): Job
    requires |values| <= |positions|
  {
    if values == [] then job
    else
      var n := |values| - 1;
      Assigned(job, positions, values[..n])[positions[n] := values[n]]
  }

  // The payloads job k of a cluster bomb uses.
  function Picked(lists: seq<seq<string>>, k: nat): seq<string>
    requires NoneEmpty(lists)
  {
    seq(|lists|, i requires 0 <= i < |lists| => lists[i][Digit(lists, k, i)])
  }

  function ClusterJobs(a: Attack): seq<Job> {
    var n := Min(|a.lists|, |a.positions|);
    var lists := a.lists[..n];
    if n == 0 then [a.base]
    else if !NoneEmpty(lists) then []
    else seq(Ways(lists, 0), k requires 0 <= k < Ways(lists, 0) => Assigned(a.base, a.positions, Picked(lists, k)))
  }

  function OnePosition(base: Job, pos: string, list: seq<string>): seq<Job> {
    seq(|list|, k requires 0 <= k < |list| => base[pos := list[k]])
  }

  function SniperJobs(a: Attack, n: nat): seq<Job>
    requires n <= |a.positions| && n <= |a.lists|
  {
    if n == 0 then [] else SniperJobs(a, n - 1) + OnePosition(a.base, a.positions[n - 1], a.lists[n - 1])
  }

  function Repeated(payload: string, n: nat): seq<string> {
    seq(n, _ => payload)
  }

  function RamJobs(a: Attack): seq<Job> {
    if a.lists == [] then []
    else seq(|a.lists[0]|, k requires 0 <= k < |a.lists[0]| =>
               Assigned(a.base, a.positions, Repeated(a.lists[0][k], |a.positions|)))
  }

  // The shortest of the first n lists.
  function Shortest(lists: seq<seq<string>>, n: nat): nat
    requires 1 <= n <= |lists|
  {
    if n == 1 then |lists[0]| else Min(Shortest(lists, n - 1), |lists[n - 1]|)
  }

  lemma {:induction false} ShortestIsLeast(lists: seq<seq<string>>, n: nat)
    requires 1 <= n <= |lists|
    ensures forall i :: 0 <= i < n ==> Shortest(lists, n) <= |lists[i]|
    ensures exists i :: 0 <= i < n && Shortest(lists, n) == |lists[i]|
  {
    if n == 1 {
      assert |lists[0]| == Shortest(lists, n);
    } else {
      ShortestIsLeast(lists, n - 1);
      assert Shortest(lists, n) == Shortest(lists, n - 1) || Shortest(lists, n) == |lists[n - 1]|;
    }
  }

  function Column(lists: seq<seq<string>>, n: nat, k: nat): seq<string>
    requires n <= |lists| && forall i :: 0 <= i < n ==> k < |lists[i]|
  {
    seq(n, i requires 0 <= i < n => lists[i][k])
  }

  function PitchforkCount(a: Attack): nat {
    if a.positions == [] || |a.positions| > |a.lists| then 0 else Shortest(a.lists, |a.positions|)
  }

  lemma PitchforkFits(a: Attack, k: nat)
    requires k < PitchforkCount(a)
    ensures |a.positions| <= |a.lists| && forall i :: 0 <= i < |a.positions| ==> k < |a.lists[i]|
  {
    ShortestIsLeast(a.lists, |a.positions|);
  }

  function PitchforkJob(a: Attack, k: nat): Job
    requires k < PitchforkCount(a)
  {
    PitchforkFits(a, k);
    Assigned(a.base, a.positions, Column(a.lists, |a.positions|, k))
  }

  function PitchforkJobs(a: Attack): seq<Job> {
    seq(PitchforkCount(a), k requires 0 <= k < PitchforkCount(a) => PitchforkJob(a, k))
  }

  // Every job of the attack, in order.
  function JobsOf(a: Attack): seq<Job> {
    match a.mode
    case Single => [a.base]
    case Sniper => SniperJobs(a, Min(|a.positions|, |a.lists|))
    case BatteringRam => RamJobs(a)
    case Pitchfork => PitchforkJobs(a)
    case ClusterBomb => ClusterJobs(a)
  }

  // ---------- how many, and which ----------

  predicate Distinct(positions: seq<string>) {
    forall i, j :: 0 <= i < j < |positions| ==> positions[i] != positions[j]
  }

  // Distinct positions each receive their own value; other keys keep theirs.
  lemma {:induction false} AssignedExactly(job: Job, positions: seq<string>, values: seq<string>)
    requires |values| <= |positions| && Distinct(positions)
    ensures forall i :: 0 <= i < |values| ==>
      positions[i] in Assigned(job, positions, values) && Assigned(job, positions, values)[positions[i]] == values[i]
    ensures forall key :: key !in positions[..|values|] ==>
      (key in Assigned(job, positions, values) <==> key in job) &&
      (key in job ==> Assigned(job, positions, values)[key] == job[key])
  {
    if values == [] {
    } else {
      var n := |values| - 1;
      AssignedExactly(job, positions, values[..n]);
      assert positions[..n + 1] == positions[..n] + [positions[n]];
    }
  }

  lemma {:induction false} EmptyListHasNoWays(lists: seq<seq<string>>, i: nat, e: nat)
    requires i <= e < |lists| && lists[e] == []
    ensures Ways(lists, i) == 0
    decreases e - i
  {
    if i < e {
      EmptyListHasNoWays(lists, i + 1, e);
    }
  }

  // A cluster bomb sends as many jobs as the product of the lengths of the lists
  // that have a position. Over distinct positions, the k-th job gives each of
  // them the payload at the corresponding digit of k and leaves every other key
  // as in Base.
  lemma ClusterBombIsMixedRadix(a: Attack, k: nat)
    requires a.mode == ClusterBomb
    ensures var n := Min(|a.lists|, |a.positions|);
      |JobsOf(a)| == Ways(a.lists[..n], 0)
    ensures var n := Min(|a.lists|, |a.positions|);
      k < |JobsOf(a)| && Distinct(a.positions) ==>
      && NoneEmpty(a.lists[..n])
      && (forall i :: 0 <= i < n ==>
            a.positions[i] in JobsOf(a)[k] && JobsOf(a)[k][a.positions[i]] == a.lists[i][Digit(a.lists[..n], k, i)])
      && (forall key :: key !in a.positions[..n] ==>
            (key in JobsOf(a)[k] <==> key in a.base) && (key in a.base ==> JobsOf(a)[k][key] == a.base[key]))
  {
    var n := Min(|a.lists|, |a.positions|);
    var lists := a.lists[..n];
    if n > 0 && !NoneEmpty(lists) {
      var e :| 0 <= e < |lists| && lists[e] == [];
      EmptyListHasNoWays(lists, 0, e);
    }
    if k < |JobsOf(a)| && Distinct(a.positions) {
      AssignedExactly(a.base, a.positions, Picked(lists, k));
    }
  }

  // A single request is Base as it is.
  lemma SingleIsBase(a: Attack)
    requires a.mode == Single
    ensures JobsOf(a) == [a.base]
  {
  }

  // The order of a cluster bomb, position by position: without positions it is
  // Base alone; one position more runs through its list for each job of the
  // others, the last position fastest.
  lemma ClusterBombOfNone(a: Attack)
    requires a.mode == ClusterBomb && (a.positions == [] || a.lists == [])
    ensures JobsOf(a) == [a.base]
  {
  }

  lemma ClusterBombLastFastest(a: Attack, k: nat, q: nat, r: nat)
    requires a.mode == ClusterBomb && a.positions != [] && a.lists != []
    ensures var n := (if |a.positions| < |a.lists| then |a.positions| else |a.lists|) - 1;
      var others, list := a.(positions := a.positions[..n], lists := a.lists[..n]), a.lists[n];
      && |JobsOf(a)| == |JobsOf(others)| * |list|
      && (q < |JobsOf(others)| && r < |list| && k == q * |list| + r ==>
           k < |JobsOf(a)| && JobsOf(a)[k] == JobsOf(others)[q][a.positions[n] := list[r]])
  {
    var n := (if |a.positions| < |a.lists| then |a.positions| else |a.lists|) - 1;
    var others, list := a.(positions := a.positions[..n], lists := a.lists[..n]), a.lists[n];
    OthersCount(a, others, list, n);
    if q < |JobsOf(others)| && r < |list| && k == q * |list| + r {
      hide JobsOf;
      RowBelow(q, |JobsOf(others)|, r, |list|);
      RowPicked(a, others, list, n, k, q, r);
      LastPicked(a, others, list, n, k, q, r);
    }
  }

  lemma RowBelow(q: nat, m: nat, r: nat, d: nat)
    requires q < m && r < d
    ensures q * d + r < m * d
  {
    MulMonotone(q + 1, m, d);
    Distribute(q, 1, d);
  }

  // The attack without its last position.
  predicate WithoutLast(a: Attack, others: Attack, list: seq<string>, n: nat) {
    && a.mode == ClusterBomb && n < |a.positions| && n < |a.lists| && n + 1 == Min(|a.lists|, |a.positions|)
    && others == a.(positions := a.positions[..n], lists := a.lists[..n]) && list == a.lists[n]
  }

  lemma OthersCount(a: Attack, others: Attack, list: seq<string>, n: nat)
    requires WithoutLast(a, others, list, n)
    ensures |JobsOf(a)| == |JobsOf(others)| * |list|
  {
    ClusterCount(a);
    ClusterCount(others);
    assert a.lists[..n + 1] == others.lists + [list];
    assert others.lists[..n] == others.lists;
    hide JobsOf, Ways;
    WaysSnoc(others.lists, list, 0);
  }

  lemma ListIsUsed(a: Attack, n: nat)
    requires a.mode == ClusterBomb && n < Min(|a.lists|, |a.positions|) && JobsOf(a) != []
    ensures NoneEmpty(a.lists[..Min(|a.lists|, |a.positions|)]) && a.lists[n] != []
  {
    ClusterCount(a);
    assert a.lists[..Min(|a.lists|, |a.positions|)][n] == a.lists[n];
  }

  lemma ClusterCount(a: Attack)
    requires a.mode == ClusterBomb
    ensures |JobsOf(a)| == Ways(a.lists[..Min(|a.lists|, |a.positions|)], 0)
    ensures JobsOf(a) != [] ==> NoneEmpty(a.lists[..Min(|a.lists|, |a.positions|)])
  {
    ClusterBombIsMixedRadix(a, 0);
    var lists := a.lists[..Min(|a.lists|, |a.positions|)];
    if !NoneEmpty(lists) {
      var e :| 0 <= e < |lists| && lists[e] == [];
      EmptyListHasNoWays(lists, 0, e);
    }
  }

  lemma RowPicked(a: Attack, others: Attack, list: seq<string>, n: nat, k: nat, q: nat, r: nat)
    requires WithoutLast(a, others, list, n) && k < |JobsOf(a)| && r < |list| && k == q * |list| + r
    ensures others.lists + [list] == a.lists[..n + 1] && others.lists[..n] == others.lists
    ensures NoneEmpty(others.lists + [list]) && NoneEmpty(others.lists)
    ensures Picked(others.lists + [list], k) == Picked(others.lists, q) + [list[r]]
  {
    ListIsUsed(a, n);
    assert a.lists[..n + 1] == others.lists + [list] && others.lists[..n] == others.lists;
    hide JobsOf, Picked, Digit;
    PickedSnoc(others.lists, list, k, q, r);
  }

  lemma LastPicked(a: Attack, others: Attack, list: seq<string>, n: nat, k: nat, q: nat, r: nat)
    requires WithoutLast(a, others, list, n) && k < |JobsOf(a)| && q < |JobsOf(others)| && r < |list|
    requires others.lists + [list] == a.lists[..n + 1] && others.lists[..n] == others.lists
    requires NoneEmpty(others.lists + [list]) && NoneEmpty(others.lists)
    requires Picked(others.lists + [list], k) == Picked(others.lists, q) + [list[r]]
    ensures JobsOf(a)[k] == JobsOf(others)[q][a.positions[n] := list[r]]
  {
    hide JobsOf, Assigned, Picked;
    JobIsPicked(a, others.lists + [list], k);
    JobIsPicked(others, others.lists, q);
    PickedLength(others.lists, q);
    AssignedLast(a.base, a.positions, Picked(others.lists, q), list[r]);
    AssignedFirst(a.base, a.positions, Picked(others.lists, q), n);
  }

  lemma PickedLength(lists: seq<seq<string>>, k: nat)
    requires NoneEmpty(lists)
    ensures |Picked(lists, k)| == |lists|
  {
  }

  lemma JobIsPicked(a: Attack, lists: seq<seq<string>>, k: nat)
    requires a.mode == ClusterBomb && lists == a.lists[..Min(|a.lists|, |a.positions|)]
    requires NoneEmpty(lists) && k < |JobsOf(a)|
    ensures JobsOf(a)[k] == Assigned(a.base, a.positions, Picked(lists, k))
  {
    if lists == [] {
      assert Picked(lists, k) == [];
    }
  }

  lemma AssignedLast(job: Job, positions: seq<string>, values: seq<string>, v: string)
    requires |values| < |positions|
    ensures Assigned(job, positions, values + [v]) == Assigned(job, positions, values)[positions[|values|] := v]
  {
    assert (values + [v])[..|values|] == values;
  }

  lemma {:induction false} AssignedFirst(job: Job, positions: seq<string>, values: seq<string>, n: nat)
    requires |values| <= n <= |positions|
    ensures Assigned(job, positions[..n], values) == Assigned(job, positions, values)
  {
    if values != [] {
      AssignedFirst(job, positions, values[..|values| - 1], n);
    }
  }

  lemma {:induction false} WaysSnoc(lists: seq<seq<string>>, list: seq<string>, i: nat)
    requires i <= |lists|
    ensures Ways(lists + [list], i) == Ways(lists, i) * |list|
    decreases |lists| - i
  {
    var all := lists + [list];
    if i < |lists| {
      WaysSnoc(lists, list, i + 1);
      assert all[i] == lists[i];
      MulAssociates(|lists[i]|, Ways(lists, i + 1), |list|);
    } else {
      assert Ways(all, i + 1) == 1 && all[i] == list;
    }
  }

  lemma MulAssociates(a: nat, b: nat, c: nat)
    ensures a * (b * c) == (a * b) * c
  {
  }

  lemma TwoFactors(q: nat, w: nat, r: nat, d: nat, low: nat)
    requires r < w && low < d
    ensures (q * w + r) * d + low == q * (w * d) + (r * d + low)
    ensures r * d + low < w * d
  {
    Distribute(q * w, r, d);
    MulAssociates(q, w, d);
    MulMonotone(r + 1, w, d);
    Distribute(r, 1, d);
  }

  // Dividing by a product is dividing by one factor after the other.
  lemma DivideTwice(k: nat, w: nat, d: nat)
    requires w > 0 && d > 0
    ensures w * d > 0 && k / (w * d) == (k / d) / w
  {
    DivMod(k, d);
    DivMod(k / d, w);
    TwoFactors((k / d) / w, w, (k / d) % w, d, k % d);
    DivModUnique((k / d) / w, w * d, ((k / d) % w) * d + k % d);
  }

  lemma PickedSnoc(lists: seq<seq<string>>, list: seq<string>, k: nat, q: nat, r: nat)
    requires NoneEmpty(lists + [list]) && r < |list| && k == q * |list| + r
    ensures NoneEmpty(lists)
    ensures Picked(lists + [list], k) == Picked(lists, q) + [list[r]]
  {
    var all := lists + [list];
    DivModUnique(q, |list|, r);
    assert all[|lists|] == list;
    forall i | 0 <= i < |lists| ensures lists[i] != [] { assert all[i] == lists[i]; }
    forall i | 0 <= i < |lists| ensures Digit(all, k, i) == Digit(lists, q, i) {
      assert all[i] == lists[i];
      WaysPositive(lists, i + 1);
      WaysSnoc(lists, list, i + 1);
      DivideTwice(k, Ways(lists, i + 1), |list|);
    }
    assert Digit(all, k, |lists|) == r;
  }

  // Two different job numbers differ in some digit: no combination is sent twice.
  lemma ClusterBombNeverRepeats(lists: seq<seq<string>>, indices: seq<nat>, k: nat)
    requires NoneEmpty(lists) && InRange(lists, indices) && k < Ways(lists, 0)
    ensures (forall i :: 0 <= i < |lists| ==> Digit(lists, k, i) == indices[i]) <==> k == Value(lists, indices, 0)
  {
    IndicesAreDigits(lists, indices);
    if forall i :: 0 <= i < |lists| ==> Digit(lists, k, i) == indices[i] {
      DigitsSpell(lists, k, indices, 0);
      DivModUnique(0, Ways(lists, 0), k);
    }
  }

  lemma {:induction false} DigitsSpell(lists: seq<seq<string>>, k: nat, indices: seq<nat>, i: nat)
    requires NoneEmpty(lists) && |indices| == |lists| && i <= |lists|
    requires forall j :: 0 <= j < |lists| ==> Digit(lists, k, j) == indices[j]
    ensures Ways(lists, i) > 0
    ensures Value(lists, indices, i) == k % Ways(lists, i)
    decreases |lists| - i
  {
    WaysPositive(lists, i);
    if i < |lists| {
      DigitsSpell(lists, k, indices, i + 1);
      var w, l := Ways(lists, i + 1), |lists[i]|;
      assert indices[i] == (k / w) % l;
      TwoDigits(k, l, w);
    }
  }

  lemma Regroup(high: nat, low: nat, l: nat, w: nat, r: nat)
    ensures (high * l + low) * w + r == high * (l * w) + (low * w + r)
  {
    Distribute(high * l, low, w);
    assert (high * l) * w == high * (l * w);
  }

  lemma TwoDigitsOf(k: nat, q: nat, r: nat, high: nat, low: nat, l: nat, w: nat)
    requires k == q * w + r && r < w && q == high * l + low && low < l
    ensures l * w > 0 && k % (l * w) == low * w + r
  {
    MulMonotone(1, l, w);
    MulMonotone(low + 1, l, w);
    Distribute(low, 1, w);
    Regroup(high, low, l, w, r);
    DivModUnique(high, l * w, low * w + r);
  }

  lemma TwoDigits(k: nat, l: nat, w: nat)
    requires l > 0 && w > 0
    ensures l * w > 0
    ensures k % (l * w) == ((k / w) % l) * w + k % w
  {
    DivMod(k, w);
    DivMod(k / w, l);
    TwoDigitsOf(k, k / w, k % w, (k / w) / l, (k / w) % l, l, w);
  }

  function Total(lists: seq<seq<string>>, n: nat): nat
    requires n <= |lists|
  {
    if n == 0 then 0 else Total(lists, n - 1) + |lists[n - 1]|
  }

  // The sniper sends the sum of the lengths of the lists that have a position;
  // the jobs of position i come together, in the lists' order, each being Base
  // with that one position replaced.
  lemma SniperIsOneAtATime(a: Attack, i: nat, k: nat)
    requires a.mode == Sniper
    ensures |JobsOf(a)| == Total(a.lists, if |a.positions| < |a.lists| then |a.positions| else |a.lists|)
    ensures i < |a.positions| && i < |a.lists| && k < |a.lists[i]| ==>
      && Total(a.lists, i) + k < |JobsOf(a)|
      && JobsOf(a)[Total(a.lists, i) + k] == a.base[a.positions[i] := a.lists[i][k]]
  {
    var n := if |a.positions| < |a.lists| then |a.positions| else |a.lists|;
    SniperCount(a, n);
    if i < |a.positions| && i < |a.lists| && k < |a.lists[i]| {
      SniperJobAt(a, n, i, k);
    }
  }

  lemma {:induction false} SniperJobAt(a: Attack, n: nat, i: nat, k: nat)
    requires i < n <= |a.positions| && n <= |a.lists| && k < |a.lists[i]|
    ensures |SniperJobs(a, n)| == Total(a.lists, n)
    ensures Total(a.lists, i) + k < |SniperJobs(a, n)|
    ensures SniperJobs(a, n)[Total(a.lists, i) + k] == a.base[a.positions[i] := a.lists[i][k]]
    decreases n
  {
    SniperCount(a, n - 1);
    if i < n - 1 {
      SniperJobAt(a, n - 1, i, k);
    }
  }

  lemma {:induction false} SniperCount(a: Attack, n: nat)
    requires n <= |a.positions| && n <= |a.lists|
    ensures |SniperJobs(a, n)| == Total(a.lists, n)
  {
    if n > 0 {
      SniperCount(a, n - 1);
    }
  }

  // The pitchfork sends as many jobs as the shortest list has payloads - none
  // when a position has no list - the k-th of each list together.
  lemma PitchforkIsLockstep(a: Attack, k: nat)
    requires a.mode == Pitchfork
    ensures a.positions == [] || |a.positions| > |a.lists| ==> JobsOf(a) == []
    ensures 0 < |a.positions| <= |a.lists| ==>
      && (forall i :: 0 <= i < |a.positions| ==> |JobsOf(a)| <= |a.lists[i]|)
      && (exists i :: 0 <= i < |a.positions| && |JobsOf(a)| == |a.lists[i]|)
    ensures k < |JobsOf(a)| && Distinct(a.positions) ==>
      && |a.positions| <= |a.lists|
      && (forall i :: 0 <= i < |a.positions| ==>
            k < |a.lists[i]| && a.positions[i] in JobsOf(a)[k] && JobsOf(a)[k][a.positions[i]] == a.lists[i][k])
      && (forall key :: key !in a.positions ==>
            (key in JobsOf(a)[k] <==> key in a.base) && (key in a.base ==> JobsOf(a)[k][key] == a.base[key]))
  {
    if 0 < |a.positions| <= |a.lists| {
      ShortestIsLeast(a.lists, |a.positions|);
    }
    if k < |JobsOf(a)| {
      PitchforkFits(a, k);
      if Distinct(a.positions) {
        AssignedExactly(a.base, a.positions, Column(a.lists, |a.positions|, k));
        assert a.positions[..|a.positions|] == a.positions;
      }
    }
  }

  lemma {:induction false} RepeatedEverywhere(job: Job, positions: seq<string>, payload: string, n: nat)
    requires n <= |positions|
    ensures var r := Assigned(job, positions, Repeated(payload, n));
      && (forall i :: 0 <= i < n ==> positions[i] in r && r[positions[i]] == payload)
      && (forall key :: key !in positions[..n] ==> (key in r <==> key in job) && (key in job ==> r[key] == job[key]))
    decreases n
  {
    if n > 0 {
      RepeatedEverywhere(job, positions, payload, n - 1);
      assert Repeated(payload, n)[..n - 1] == Repeated(payload, n - 1);
      assert positions[..n] == positions[..n - 1] + [positions[n - 1]];
    }
  }

  // The battering ram sends one job for each payload of the first list, at every
  // position at once, distinct or not; the other lists are not used.
  lemma BatteringRamIsEverywhere(a: Attack, k: nat)
    requires a.mode == BatteringRam
    ensures |JobsOf(a)| == if a.lists == [] then 0 else |a.lists[0]|
    ensures k < |JobsOf(a)| ==>
      && (forall i :: 0 <= i < |a.positions| ==>
            a.positions[i] in JobsOf(a)[k] && JobsOf(a)[k][a.positions[i]] == a.lists[0][k])
      && (forall key :: key !in a.positions ==>
            (key in JobsOf(a)[k] <==> key in a.base) && (key in a.base ==> JobsOf(a)[k][key] == a.base[key]))
  {
    if k < |JobsOf(a)| {
      RepeatedEverywhere(a.base, a.positions, a.lists[0][k], |a.positions|);
      assert a.positions[..|a.positions|] == a.positions;
    }
  }

  // ---------- the iterator ----------

  // What a consumer sees that stops at its n-th job, counting from one.
  function UpTo(jobs: seq<Job>, stop: Option<nat>): seq<Job> {
    if stop.Some? && 1 <= stop.value < |jobs| then jobs[..stop.value] else jobs
  }

  lemma UpToStops(jobs: seq<Job>, n: nat)
    requires 1 <= n <= |jobs|
    ensures UpTo(jobs, Some(n)) == jobs[..n]
  {
    assert jobs[..|jobs|] == jobs;
  }

  // The consumer's side of the iteration: it copies what it is given and asks to
  // stop after its n-th job.
  class Consumer {
    const stop: Option<nat>
    var jobs: seq<Job>

    constructor (s: Option<nat>)
      ensures stop == s && jobs == []
    {
      stop, jobs := s, [];
    }

    // `all` is the sequence the caller is walking through.
    method Yield(job: Job, ghost all: seq<Job>) returns (more: bool)
      requires |jobs| < |all| && jobs == all[..|jobs|] && all[|jobs|] == job
      modifies this
      ensures jobs == old(jobs) + [job] && jobs == all[..|jobs|]
      ensures more <==> stop != Some(|jobs|)
      ensures !more ==> jobs == UpTo(all, stop)
    {
      jobs := jobs + [job];
      more := stop != Some(|jobs|);
      assert all[..|jobs|] == all[..|jobs| - 1] + [job];
      if !more {
        UpToStops(all, |jobs|);
      }
    }

    // Nothing has asked to stop before the end.
    ghost predicate Going()
      reads this
    {
      stop.None? || stop.value == 0 || |jobs| < stop.value
    }
  }

  // Advance the odometer in place. It reports the end when every index was at
  // its last position.
  method Advance(indices: array<nat>, lists: seq<seq<string>>) returns (more: bool)
    requires indices.Length == |lists| > 0 && InRange(lists, indices[..])
    modifies indices
    ensures InRange(lists, indices[..])
    ensures more ==> Value(lists, indices[..], 0) == Value(lists, old(indices[..]), 0) + 1
    ensures !more ==> Value(lists, old(indices[..]), 0) == Ways(lists, 0) - 1
  {
    ghost var was := indices[..];
    var i := indices.Length - 1;
    while i >= 0
      invariant 0 <= i < indices.Length
      invariant forall j :: 0 <= j <= i ==> indices[j] == was[j]
      invariant forall j :: i < j < indices.Length ==> indices[j] == 0
      invariant InRange(lists, indices[..])
      invariant Value(lists, was, i + 1) == Ways(lists, i + 1) - 1
    {
      ZeroTail(lists, indices[..], i + 1);
      var w := Ways(lists, i + 1);
      if indices[i] + 1 < |lists[i]| {
        indices[i] := indices[i] + 1;
        ZeroTail(lists, indices[..], i + 1);
        assert (was[i] + 1) * w == was[i] * w + w;
        assert Value(lists, indices[..], i) == Value(lists, was, i) + 1;
        Carried(lists, was, indices[..], i);
        return true;
      }
      assert |lists[i]| == was[i] + 1;
      assert |lists[i]| * w == was[i] * w + w;
      indices[i] := 0;
      if i == 0 {
        return false;
      }
      i := i - 1;
    }
    assert false;
  }

  lemma {:induction false} ZeroTail(lists: seq<seq<string>>, indices: seq<nat>, i: nat)
    requires |indices| == |lists| && i <= |lists|
    requires forall j :: i <= j < |indices| ==> indices[j] == 0
    ensures Value(lists, indices, i) == 0
    decreases |lists| - i
  {
    if i < |lists| {
      ZeroTail(lists, indices, i + 1);
    }
  }

  lemma {:induction false} Carried(lists: seq<seq<string>>, was: seq<nat>, now: seq<nat>, i: nat)
    requires |was| == |now| == |lists| && i < |lists|
    requires forall j :: 0 <= j < i ==> was[j] == now[j]
    requires Value(lists, now, i) == Value(lists, was, i) + 1
    ensures Value(lists, now, 0) == Value(lists, was, 0) + 1
    decreases i
  {
    if i > 0 {
      Carried(lists, was, now, i - 1);
    }
  }

  // Write one value per position into the shared map.
  method Assign(job: Job, positions: seq<string>, values: seq<string>) returns (r: Job)
    requires |values| <= |positions|
    ensures r == Assigned(job, positions, values)
  {
    r := job;
    for i := 0 to |values|
      invariant r == Assigned(job, positions, values[..i])
    {
      assert values[..i + 1][..i] == values[..i];
      r := r[positions[i] := values[i]];
    }
    assert values[..|values|] == values;
  }

  // The positions already assigned are assigned again, so what an earlier job
  // left in the map does not show.
  lemma {:induction false} Reassigned(job: Job, positions: seq<string>, before: seq<string>, values: seq<string>)
    requires |before| <= |values| <= |positions|
    ensures Assigned(Assigned(job, positions, before), positions, values) == Assigned(job, positions, values)
  {
    var n := |values|;
    assert positions[..|before|] == positions[..n][..|before|];
    var left, right := Assigned(Assigned(job, positions, before), positions, values), Assigned(job, positions, values);
    AssignedKeys(job, positions, before);
    AssignedKeys(job, positions, values);
    AssignedKeys(Assigned(job, positions, before), positions, values);
    assert left.Keys == right.Keys;
    forall key | key in left ensures left[key] == right[key] {
      if key in positions[..n] {
        LastWins(job, positions, values, key);
        LastWins(Assigned(job, positions, before), positions, values, key);
      } else {
        Untouched(job, positions, before, key);
        Untouched(job, positions, values, key);
        Untouched(Assigned(job, positions, before), positions, values, key);
      }
    }
  }

  function KeysOf(positions: seq<string>): set<string> {
    set p | p in positions
  }

  lemma {:induction false} AssignedKeys(job: Job, positions: seq<string>, values: seq<string>)
    requires |values| <= |positions|
    ensures Assigned(job, positions, values).Keys == job.Keys + KeysOf(positions[..|values|])
  {
    if values == [] {
    } else {
      var n := |values| - 1;
      AssignedKeys(job, positions, values[..n]);
      assert positions[..n + 1] == positions[..n] + [positions[n]];
    }
  }

  function LastValue(positions: seq<string>, values: seq<string>, key: string): string
    requires |values| <= |positions| && key in positions[..|values|]
  {
    var n := |values| - 1;
    if positions[n] == key then values[n]
    else
      assert positions[..n + 1] == positions[..n] + [positions[n]];
      LastValue(positions, values[..n], key)
  }

  lemma {:induction false} LastWins(job: Job, positions: seq<string>, values: seq<string>, key: string)
    requires |values| <= |positions| && key in positions[..|values|]
    ensures key in Assigned(job, positions, values)
    ensures Assigned(job, positions, values)[key] == LastValue(positions, values, key)
  {
    var n := |values| - 1;
    if positions[n] != key {
      assert positions[..n + 1] == positions[..n] + [positions[n]];
      LastWins(job, positions, values[..n], key);
    }
  }

  lemma {:induction false} Untouched(job: Job, positions: seq<string>, values: seq<string>, key: string)
    requires |values| <= |positions| && key !in positions[..|values|]
    ensures key in Assigned(job, positions, values) <==> key in job
    ensures key in job ==> Assigned(job, positions, values)[key] == job[key]
  {
    if values != [] {
      var n := |values| - 1;
      assert positions[..n + 1] == positions[..n] + [positions[n]];
      Untouched(job, positions, values[..n], key);
    }
  }

  method IterateClusterBomb(a: Attack, c: Consumer)
    requires c.jobs == [] && a.mode == ClusterBomb
    modifies c
    ensures c.jobs == UpTo(JobsOf(a), c.stop)
  {
    var n := Min(|a.lists|, |a.positions|);
    var lists := a.lists[..n];
    if n == 0 {
      var _ := c.Yield(a.base, JobsOf(a));
      assert JobsOf(a)[..1] == JobsOf(a);
      return;
    }
    for i := 0 to n
      invariant c.jobs == []
      invariant forall j :: 0 <= j < i ==> lists[j] != []
    {
      if |lists[i]| == 0 {
        return;
      }
    }
    TurnOdometer(a, n, lists, c);
  }

  method TurnOdometer(a: Attack, n: nat, lists: seq<seq<string>>, c: Consumer)
    requires c.jobs == [] && a.mode == ClusterBomb
    requires n == Min(|a.lists|, |a.positions|) > 0 && lists == a.lists[..n] && NoneEmpty(lists)
    modifies c
    ensures c.jobs == UpTo(JobsOf(a), c.stop)
  {
    ClusterAll(a, n, lists);
    var indices := new nat[n](_ => 0);
    ZeroTail(lists, indices[..], 0);
    assert InRange(lists, indices[..]);
    hide Ways, Assigned, JobsOf, InRange, Value;
    WaysPositive(lists, 0);
    RunIndices(a, lists, indices, c);
  }

  // The loop over all settings of the odometer, from zero.
  method RunIndices(a: Attack, lists: seq<seq<string>>, indices: array<nat>, c: Consumer)
    requires NoneEmpty(lists) && 0 < |lists| <= |a.positions| && indices.Length == |lists|
    requires |JobsOf(a)| == Ways(lists, 0) > 0
    requires forall k :: 0 <= k < Ways(lists, 0) ==> JobsOf(a)[k] == Assigned(a.base, a.positions, Picked(lists, k))
    requires c.jobs == [] && InRange(lists, indices[..]) && Value(lists, indices[..], 0) == 0
    modifies c, indices
    ensures c.jobs == UpTo(JobsOf(a), c.stop)
  {
    hide Value, Ways, Assigned, Digit, JobsOf, Picked, InRange, NoneEmpty;
    var job := a.base;
    ghost var all := JobsOf(a);
    ghost var k := 0;
    var values: seq<string> := [];
    assert job == Assigned(a.base, a.positions, values) by { NothingAssigned(a.base, a.positions); }
    while true
      invariant InRange(lists, indices[..]) && k == Value(lists, indices[..], 0) < |all|
      invariant c.jobs == all[..k] && c.Going()
      invariant |values| <= |lists| && job == Assigned(a.base, a.positions, values)
      decreases |all| - k
    {
      job, values := FillIn(a, lists, indices[..], job, values);
      var more := c.Yield(job, all);
      if !more {
        return;
      }
      var going := Advance(indices, lists);
      ValueBelowWays(lists, indices[..], 0);
      k := k + 1;
      if !going {
        assert all[..k] == all;
        return;
      }
    }
  }

  lemma NothingAssigned(job: Job, positions: seq<string>)
    ensures Assigned(job, positions, []) == job
  {
  }

  // Overwrite the previous job's payloads with those the indices point at.
  method FillIn(a: Attack, lists: seq<seq<string>>, indices: seq<nat>, job: Job, before: seq<string>)
    returns (r: Job, values: seq<string>)
    requires NoneEmpty(lists) && InRange(lists, indices) && |lists| <= |a.positions|
    requires |before| <= |lists| && job == Assigned(a.base, a.positions, before)
    ensures |values| == |lists| && values == Picked(lists, Value(lists, indices, 0))
    ensures r == Assigned(a.base, a.positions, values)
  {
    values := seq(|lists|, i requires 0 <= i < |lists| => lists[i][indices[i]]);
    PickedByIndices(lists, indices, values);
    Reassigned(a.base, a.positions, before, values);
    r := Assign(job, a.positions, values);
  }

  lemma ClusterAll(a: Attack, n: nat, lists: seq<seq<string>>)
    requires a.mode == ClusterBomb
    requires n == Min(|a.lists|, |a.positions|) > 0 && lists == a.lists[..n] && NoneEmpty(lists)
    ensures |JobsOf(a)| == Ways(lists, 0)
    ensures forall k :: 0 <= k < Ways(lists, 0) ==> JobsOf(a)[k] == Assigned(a.base, a.positions, Picked(lists, k))
  {
  }

  lemma PickedByIndices(lists: seq<seq<string>>, indices: seq<nat>, values: seq<string>)
    requires InRange(lists, indices) && NoneEmpty(lists)
    requires |values| == |lists| && forall i :: 0 <= i < |values| ==> values[i] == lists[i][indices[i]]
    ensures values == Picked(lists, Value(lists, indices, 0))
  {
    IndicesAreDigits(lists, indices);
  }

  method IterateSniper(a: Attack, c: Consumer)
    requires c.jobs == [] && a.mode == Sniper
    modifies c
    ensures c.jobs == UpTo(JobsOf(a), c.stop)
  {
    var job := a.base;
    var n := Min(|a.positions|, |a.lists|);
    ghost var all := JobsOf(a);
    for i := 0 to n
      invariant job == a.base && c.Going()
      invariant c.jobs == SniperJobs(a, i)
    {
      SniperPrefix(a, i, n);
      SniperPrefix(a, i + 1, n);
      var pos := a.positions[i];
      SliceOf(all, c.jobs, OnePosition(a.base, pos, a.lists[i]));
      var more;
      job, more := WalkList(a.base, job, pos, a.lists[i], all, c);
      if !more {
        return;
      }
      job := if pos in a.base then job[pos := a.base[pos]] else job - {pos};
      assert job == a.base;
    }
  }

  lemma SliceOf(all: seq<Job>, front: seq<Job>, next: seq<Job>)
    requires |front + next| <= |all| && all[..|front + next|] == front + next
    ensures all[..|front|] == front && all[|front|..|front| + |next|] == next
  {
    assert all[..|front|] == all[..|front + next|][..|front|];
    assert all[|front|..|front| + |next|] == all[..|front + next|][|front|..];
  }

  // One position's payloads after another, from the base map on.
  method WalkList(base: Job, start: Job, pos: string, list: seq<string>, ghost all: seq<Job>, c: Consumer)
    returns (job: Job, more: bool)
    requires start == base && c.Going() && |c.jobs| + |list| <= |all| && all[..|c.jobs|] == c.jobs
    requires all[|c.jobs|..|c.jobs| + |list|] == OnePosition(base, pos, list)
    modifies c
    ensures more ==> c.Going() && c.jobs == old(c.jobs) + OnePosition(base, pos, list)
    ensures more ==> job == if list == [] then base else base[pos := list[|list| - 1]]
    ensures !more ==> c.jobs == UpTo(all, c.stop)
  {
    job, more := start, true;
    ghost var from := |c.jobs|;
    for k := 0 to |list|
      invariant c.Going() && c.jobs == all[..from + k]
      invariant more && job == if k == 0 then base else base[pos := list[k - 1]]
    {
      job := job[pos := list[k]];
      assert job == base[pos := list[k]] == OnePosition(base, pos, list)[k];
      assert all[from + k] == all[from..from + |list|][k];
      more := c.Yield(job, all);
      if !more {
        return;
      }
    }
    assert all[..from + |list|] == all[..from] + all[from..from + |list|];
  }

  lemma {:induction false} SniperPrefix(a: Attack, i: nat, n: nat)
    requires i <= n <= |a.positions| && n <= |a.lists|
    ensures |SniperJobs(a, i)| <= |SniperJobs(a, n)|
    ensures SniperJobs(a, n)[..|SniperJobs(a, i)|] == SniperJobs(a, i)
    decreases n
  {
    if i == n {
      assert SniperJobs(a, n)[..|SniperJobs(a, n)|] == SniperJobs(a, n);
    } else {
      SniperPrefix(a, i, n - 1);
    }
  }

  // One payload after another, at every position of the one shared map.
  method IterateRam(a: Attack, c: Consumer)
    requires c.jobs == [] && a.mode == BatteringRam
    modifies c
    ensures c.jobs == UpTo(JobsOf(a), c.stop)
  {
    if |a.lists| == 0 {
      return;
    }
    var job, n := a.base, |a.positions|;
    ghost var all, before := JobsOf(a), [];
    for k := 0 to |a.lists[0]|
      invariant c.jobs == all[..k] && c.Going()
      invariant (before == [] || |before| == n) && job == Assigned(a.base, a.positions, before)
    {
      ghost var start := job;
      var payload := a.lists[0][k];
      for i := 0 to n
        invariant job == Assigned(start, a.positions, Repeated(payload, i))
      {
        assert Repeated(payload, i + 1)[..i] == Repeated(payload, i);
        job := job[a.positions[i] := payload];
      }
      Reassigned(a.base, a.positions, before, Repeated(payload, n));
      before := Repeated(payload, n);
      var more := c.Yield(job, all);
      if !more {
        return;
      }
    }
    assert all[..|all|] == all;
  }

  // The length of the shortest list that has a position, or a count that yields
  // nothing.
  method CountRows(a: Attack) returns (n: int)
    ensures if a.positions == [] || |a.positions| > |a.lists| then n <= 0 else n == Shortest(a.lists, |a.positions|)
  {
    n := -1;
    for i := 0 to |a.positions|
      invariant i <= |a.lists|
      invariant n == if i == 0 then -1 else Shortest(a.lists, i)
    {
      if i >= |a.lists| {
        return 0;
      }
      var l := |a.lists[i]|;
      if n < 0 || l < n {
        n := l;
      }
    }
  }

  // The k-th payload of every list together, for as many k as the shortest list
  // has.
  method IteratePitchfork(a: Attack, c: Consumer)
    requires c.jobs == [] && a.mode == Pitchfork
    modifies c
    ensures c.jobs == UpTo(JobsOf(a), c.stop)
  {
    var n := CountRows(a);
    var job, width := a.base, |a.positions|;
    ghost var all, before := JobsOf(a), [];
    assert n > 0 ==> n == PitchforkCount(a);
    var k := 0;
    while k < n
      invariant 0 <= k <= |all| && (n > 0 ==> |all| == n)
      invariant c.jobs == all[..k] && c.Going()
      invariant |before| <= width && job == Assigned(a.base, a.positions, before)
    {
      PitchforkFits(a, k);
      job, before := FillColumn(a, k, job, before);
      var more := c.Yield(job, all);
      if !more {
        return;
      }
      k := k + 1;
    }
    assert all[..|all|] == all;
  }

  // Overwrite the previous job's payloads with the k-th of every list.
  method FillColumn(a: Attack, k: nat, job: Job, ghost before: seq<string>)
    returns (next: Job, ghost values: seq<string>)
    requires |before| <= |a.positions| <= |a.lists| && job == Assigned(a.base, a.positions, before)
    requires forall i :: 0 <= i < |a.positions| ==> k < |a.lists[i]|
    ensures values == Column(a.lists, |a.positions|, k) && next == Assigned(a.base, a.positions, values)
  {
    next := job;
    for i := 0 to |a.positions|
      invariant next == Assigned(job, a.positions, Column(a.lists, i, k))
    {
      assert Column(a.lists, i + 1, k)[..i] == Column(a.lists, i, k);
      next := next[a.positions[i] := a.lists[i][k]];
    }
    values := Column(a.lists, |a.positions|, k);
    Reassigned(a.base, a.positions, before, values);
  }

  // The iterator: for every attack, and wherever the consumer stops, it is given
  // the attack's jobs in order from the first.
  method Jobs(a: Attack, c: Consumer)
    requires c.jobs == []
    modifies c
    ensures c.jobs == UpTo(JobsOf(a), c.stop)
  {
    match a.mode
    case Sniper => IterateSniper(a, c);
    case BatteringRam => IterateRam(a, c);
    case Pitchfork => IteratePitchfork(a, c);
    case ClusterBomb => IterateClusterBomb(a, c);
    case Single =>
      var _ := c.Yield(a.base, JobsOf(a));
      assert JobsOf(a)[..1] == JobsOf(a);
  }
}
