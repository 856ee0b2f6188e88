/** Engine-telemetry aggregation: src/intentumdiff/_differ_runtime.py.
  *
  * Milliseconds are reals; round(x, 3) is the nearest multiple of 0.001.
  */
module Telemetry {
  import opened Common

  datatype Key = Key(plugin: string, function_: string)

  datatype Record = Record(key: Key, elapsed: real, consumed: Option<int>, bytes: Option<nat>, lines: Option<nat>,
                           status: string)

  /** One aggregated entry; `statuses` counts calls per status. */
  datatype Group = Group(key: Key, calls: nat, elapsed: real, peak: int, total: int, bytes: nat, lines: nat,
                         statuses: multiset<string>)

  function Round3(x: real): real {
    (x * 1000.0 + 0.5).Floor as real / 1000.0
  }

  lemma RoundIsClose(x: real)
    ensures -0.0005 <= Round3(x) - x <= 0.0005
    ensures Round3(x) * 1000.0 == (Round3(x) * 1000.0).Floor as real
  {
    var n := (x * 1000.0 + 0.5).Floor as real;
    assert n <= x * 1000.0 + 0.5 < n + 1.0;
    assert Round3(x) * 1000.0 == n;
  }

  function Or<T>(o: Option<T>, d: T): T {
    if o.Some? then o.value else d
  }

  function Fresh(key: Key): Group {
    Group(key, 0, 0.0, 0, 0, 0, 0, multiset{})
  }

  /** The loop body: one record into its entry. */
  function Add(g: Group, r: Record): Group {
    Group(g.key, g.calls + 1, Round3(g.elapsed + r.elapsed),
          if r.consumed.Some? then Max(g.peak, r.consumed.value) else g.peak,
          g.total + Or(r.consumed, 0), g.bytes + Or(r.bytes, 0), g.lines + Or(r.lines, 0),
          g.statuses + multiset{r.status})
  }

  /** What one call adds to its entry; what it does not report adds nothing. */
  lemma CallAdds(g: Group, r: Record)
    ensures var after := Add(g, r);
            && after.key == g.key && after.calls == g.calls + 1
            && -0.0005 <= after.elapsed - (g.elapsed + r.elapsed) <= 0.0005
            && (r.consumed == None ==> after.peak == g.peak && after.total == g.total)
            && (forall fuel: int :: r.consumed == Some(fuel) ==>
                  && after.total == g.total + fuel
                  && after.peak >= g.peak && after.peak >= fuel && (after.peak == g.peak || after.peak == fuel))
            && (r.bytes == None ==> after.bytes == g.bytes)
            && (forall n: nat :: r.bytes == Some(n) ==> after.bytes == g.bytes + n)
            && (r.lines == None ==> after.lines == g.lines)
            && (forall n: nat :: r.lines == Some(n) ==> after.lines == g.lines + n)
            && after.statuses == g.statuses + multiset{r.status}
  {
    RoundIsClose(g.elapsed + r.elapsed);
  }

  /** Where a key's entry stands, or |groups|. */
  function Find(groups: seq<Group>, key: Key): (k: nat)
    ensures k <= |groups|
    ensures k < |groups| ==> groups[k].key == key
    ensures forall j :: 0 <= j < k ==> groups[j].key != key
  {
    if groups == [] || groups[0].key == key then 0 else 1 + Find(groups[1..], key)
  }

  /** setdefault on an insertion-ordered table, then the loop body. */
  function Upsert(groups: seq<Group>, r: Record): seq<Group> {
    var k := Find(groups, r.key);
    if k < |groups| then groups[k := Add(groups[k], r)] else groups + [Add(Fresh(r.key), r)]
  }

  function Groups(records: seq<Record>): seq<Group> {
    if records == [] then [] else Upsert(Groups(records[..|records| - 1]), records[|records| - 1])
  }

  /* ----- What an entry holds. ----- */

  /** The records of one key, in order. */
  function Select(records: seq<Record>, key: Key): seq<Record> {
    if records == [] then []
    else
      var r := records[|records| - 1];
      var before := Select(records[..|records| - 1], key);
      if r.key == key then before + [r] else before
  }

  function Fold(key: Key, records: seq<Record>): Group {
    if records == [] then Fresh(key) else Add(Fold(key, records[..|records| - 1]), records[|records| - 1])
  }

  predicate HasKey(groups: seq<Group>, key: Key) {
    exists k :: 0 <= k < |groups| && groups[k].key == key
  }

  ghost predicate KeysDiffer(groups: seq<Group>) {
    forall i, j :: 0 <= i < j < |groups| ==> groups[i].key != groups[j].key
  }

  /** One entry per key that occurs, made of that key's records and no other. */
  lemma {:induction false} GroupsExact(records: seq<Record>)
    ensures KeysDiffer(Groups(records))
    ensures forall k :: 0 <= k < |Groups(records)| ==>
              Groups(records)[k] == Fold(Groups(records)[k].key, Select(records, Groups(records)[k].key))
    ensures forall key :: HasKey(Groups(records), key) <==> Select(records, key) != []
  {
    if records != [] {
      var before, r := records[..|records| - 1], records[|records| - 1];
      assert records == before + [r];
      GroupsExact(before);
      UpsertDiffer(Groups(before), r);
      forall k | 0 <= k < |Groups(records)|
        ensures Groups(records)[k] == Fold(Groups(records)[k].key, Select(records, Groups(records)[k].key))
      {
        UpsertEntry(Groups(before), before, r, k);
      }
      forall key: Key ensures HasKey(Groups(records), key) <==> Select(records, key) != [] {
        UpsertKeys(Groups(before), r, key);
        SelectGrows(before, r, key);
      }
    }
  }

  lemma UpsertDiffer(groups: seq<Group>, r: Record)
    requires KeysDiffer(groups)
    ensures KeysDiffer(Upsert(groups, r))
  {
  }

  lemma UpsertEntry(groups: seq<Group>, before: seq<Record>, r: Record, k: nat)
    requires KeysDiffer(groups) && k < |Upsert(groups, r)|
    requires k < |groups| ==> groups[k] == Fold(groups[k].key, Select(before, groups[k].key))
    requires HasKey(groups, r.key) <==> Select(before, r.key) != []
    ensures var g := Upsert(groups, r)[k]; g == Fold(g.key, Select(before + [r], g.key))
  {
    var g, at := Upsert(groups, r)[k], Find(groups, r.key);
    SelectGrows(before, r, g.key);
    FoldGrows(r.key, Select(before, r.key), r);
    assert at == |groups| ==> Fold(r.key, Select(before, r.key)) == Fresh(r.key);
    hide Fold, Select, Add, Fresh, HasKey;
    if k != at {
      assert g == groups[k];
    }
  }

  lemma UpsertKeys(groups: seq<Group>, r: Record, key: Key)
    ensures HasKey(Upsert(groups, r), key) <==> HasKey(groups, key) || key == r.key
  {
    var after, at := Upsert(groups, r), Find(groups, r.key);
    assert after[at].key == r.key;
    if HasKey(groups, key) {
      var k :| 0 <= k < |groups| && groups[k].key == key;
      assert after[k].key == key;
    }
    if HasKey(after, key) && key != r.key {
      var k :| 0 <= k < |after| && after[k].key == key;
      assert groups[k].key == key;
    }
  }

  /** Entries stand in the order in which their keys first occur. */
  lemma {:induction false} FirstSeenFirst(records: seq<Record>, i: nat, j: nat) returns (p: nat)
    requires i < j < |Groups(records)|
    ensures p < |records| && records[p].key == Groups(records)[i].key
    ensures forall q :: 0 <= q <= p ==> records[q].key != Groups(records)[j].key
  {
    var before, r := records[..|records| - 1], records[|records| - 1];
    assert records == before + [r];
    var groups := Groups(before);
    UpsertKeeps(groups, r);
    GroupsExact(before);
    hide Groups, Upsert, Select, Fold;
    if j < |groups| {
      p := FirstSeenFirst(before, i, j);
    } else {
      assert HasKey(groups, groups[i].key);
      p := SelectHas(before, groups[i].key);
      SelectNone(before, r.key);
    }
  }

  lemma UpsertKeeps(groups: seq<Group>, r: Record)
    ensures |groups| <= |Upsert(groups, r)| <= |groups| + 1
    ensures forall k :: 0 <= k < |groups| ==> Upsert(groups, r)[k].key == groups[k].key
    ensures |Upsert(groups, r)| > |groups| ==> Upsert(groups, r)[|groups|].key == r.key && !HasKey(groups, r.key)
  {
  }

  lemma {:induction false} SelectHas(records: seq<Record>, key: Key) returns (p: nat)
    requires Select(records, key) != []
    ensures p < |records| && records[p].key == key
  {
    if records[|records| - 1].key == key {
      p := |records| - 1;
    } else {
      p := SelectHas(records[..|records| - 1], key);
    }
  }

  lemma {:induction false} SelectNone(records: seq<Record>, key: Key)
    requires Select(records, key) == []
    ensures forall k :: 0 <= k < |records| ==> records[k].key != key
  {
    if records != [] {
      var before := records[..|records| - 1];
      SelectNone(before, key);
      assert forall k :: 0 <= k < |before| ==> records[k] == before[k];
    }
  }

  lemma SelectGrows(before: seq<Record>, r: Record, key: Key)
    ensures Select(before + [r], key) == if r.key == key then Select(before, key) + [r] else Select(before, key)
  {
    assert (before + [r])[..|before|] == before;
  }

  lemma FoldGrows(key: Key, records: seq<Record>, r: Record)
    ensures Fold(key, records + [r]) == Add(Fold(key, records), r)
  {
    assert (records + [r])[..|records|] == records;
  }

  /* ----- Conservation. ----- */

  function SumCalls(groups: seq<Group>): nat {
    if groups == [] then 0 else groups[0].calls + SumCalls(groups[1..])
  }

  function SumTotals(groups: seq<Group>): int {
    if groups == [] then 0 else groups[0].total + SumTotals(groups[1..])
  }

  function Spent(records: seq<Record>): int {
    if records == [] then 0 else Spent(records[..|records| - 1]) + Or(records[|records| - 1].consumed, 0)
  }

  lemma {:induction false} UpsertAddsOne(groups: seq<Group>, r: Record)
    ensures SumCalls(Upsert(groups, r)) == SumCalls(groups) + 1
    ensures SumTotals(Upsert(groups, r)) == SumTotals(groups) + Or(r.consumed, 0)
  {
    if groups == [] || groups[0].key == r.key {
      assert groups != [] ==> Upsert(groups, r)[1..] == groups[1..];
      assert groups == [] ==> Upsert(groups, r)[1..] == [];
    } else {
      UpsertAddsOne(groups[1..], r);
      assert Upsert(groups, r)[1..] == Upsert(groups[1..], r);
      assert Upsert(groups, r)[0] == groups[0];
    }
  }

  /** No record is lost or counted twice, and no fuel either. */
  lemma {:induction false} Conserved(records: seq<Record>)
    ensures SumCalls(Groups(records)) == |records|
    ensures SumTotals(Groups(records)) == Spent(records)
  {
    if records != [] {
      Conserved(records[..|records| - 1]);
      UpsertAddsOne(Groups(records[..|records| - 1]), records[|records| - 1]);
    }
  }

  function TrueElapsed(records: seq<Record>): real {
    if records == [] then 0.0 else TrueElapsed(records[..|records| - 1]) + records[|records| - 1].elapsed
  }

  function SumBytes(records: seq<Record>): nat {
    if records == [] then 0 else SumBytes(records[..|records| - 1]) + Or(records[|records| - 1].bytes, 0)
  }

  function SumLines(records: seq<Record>): nat {
    if records == [] then 0 else SumLines(records[..|records| - 1]) + Or(records[|records| - 1].lines, 0)
  }

  function CountStatus(records: seq<Record>, status: string): nat {
    if records == [] then 0
    else CountStatus(records[..|records| - 1], status) + if records[|records| - 1].status == status then 1 else 0
  }

  /** Sizes add up, and each status is counted as often as it was reported. */
  lemma {:induction false} FoldSizes(key: Key, records: seq<Record>, status: string)
    ensures Fold(key, records).bytes == SumBytes(records) && Fold(key, records).lines == SumLines(records)
    ensures Fold(key, records).statuses[status] == CountStatus(records, status)
  {
    if records != [] {
      FoldSizes(key, records[..|records| - 1], status);
    }
  }

  /** Status counts add up to the calls; rounding drifts by at most half a microsecond a call. */
  lemma {:induction false} FoldConserves(key: Key, records: seq<Record>)
    ensures Fold(key, records).calls == |records| == |Fold(key, records).statuses|
    ensures Fold(key, records).total == Spent(records)
    ensures var error := Fold(key, records).elapsed - TrueElapsed(records);
            -0.0005 * (|records| as real) <= error <= 0.0005 * (|records| as real)
  {
    if records != [] {
      var before, r := records[..|records| - 1], records[|records| - 1];
      FoldConserves(key, before);
      RoundIsClose(Fold(key, before).elapsed + r.elapsed);
    }
  }

  /** The peak is the largest consumption, and it was really reached. */
  lemma {:induction false} PeakIsMaximum(key: Key, records: seq<Record>)
    ensures Fold(key, records).peak >= 0
    ensures forall k :: 0 <= k < |records| && records[k].consumed.Some? ==>
              records[k].consumed.value <= Fold(key, records).peak
    ensures Fold(key, records).peak == 0
            || exists k :: 0 <= k < |records| && records[k].consumed == Some(Fold(key, records).peak)
  {
    if records != [] {
      var before, r := records[..|records| - 1], records[|records| - 1];
      PeakIsMaximum(key, before);
      assert forall k :: 0 <= k < |before| ==> before[k] == records[k];
      if Fold(key, records).peak != 0 && Fold(key, records).peak == Fold(key, before).peak {
        var k :| 0 <= k < |before| && before[k].consumed == Some(Fold(key, before).peak);
        assert records[k].consumed == Some(Fold(key, records).peak);
      } else if Fold(key, records).peak != 0 {
        assert records[|before|].consumed == Some(Fold(key, records).peak);
      }
    }
  }

  /** Everything but the rounded time. */
  function Facts(g: Group): Group {
    g.(elapsed := 0.0)
  }

  lemma AddsCommute(g: Group, h: Group, a: Record, b: Record)
    requires Facts(g) == Facts(h)
    ensures Facts(Add(g, a)) == Facts(Add(h, a))
    ensures Facts(Add(Add(g, a), b)) == Facts(Add(Add(h, b), a))
  {
  }

  /** Any record may be taken last. */
  lemma {:induction false} TakenLast(key: Key, a: seq<Record>, r: Record, b: seq<Record>)
    ensures Facts(Fold(key, a + [r] + b)) == Facts(Add(Fold(key, a + b), r))
    decreases |b|
  {
    if b == [] {
      assert a + [r] + b == a + [r] && a + b == a;
      FoldGrows(key, a, r);
    } else {
      var shorter, last := b[..|b| - 1], b[|b| - 1];
      assert a + [r] + b == (a + [r] + shorter) + [last] && a + b == (a + shorter) + [last];
      hide Fold, Add, Facts;
      TakenLast(key, a, r, shorter);
      FoldGrows(key, a + [r] + shorter, last);
      FoldGrows(key, a + shorter, last);
      SwapLast(Fold(key, a + [r] + shorter), Fold(key, a + shorter), r, last);
    }
  }

  lemma SwapLast(g: Group, h: Group, r: Record, last: Record)
    requires Facts(g) == Facts(Add(h, r))
    ensures Facts(Add(g, last)) == Facts(Add(Add(h, last), r))
  {
    hide Facts;
    AddsCommute(g, Add(h, r), last, last);
    AddsCommute(h, h, r, last);
  }

  /** Counts, sums and the peak of an entry do not depend on the order of its records. */
  lemma {:induction false} FoldOrderIndependent(key: Key, a: seq<Record>, b: seq<Record>)
    requires multiset(a) == multiset(b)
    ensures Facts(Fold(key, a)) == Facts(Fold(key, b))
  {
    if a == [] {
      assert |multiset(b)| == 0;
      assert b == [];
    } else {
      var before, r := a[..|a| - 1], a[|a| - 1];
      var k := Occurs(a, b);
      var rest := b[..k] + b[k + 1..];
      FoldOrderIndependent(key, before, rest);
      assert b == b[..k] + [r] + b[k + 1..];
      TakenLast(key, b[..k], r, b[k + 1..]);
      AddsCommute(Fold(key, before), Fold(key, rest), r, r);
    }
  }

  /** The last record of one order, found in the other. */
  lemma Occurs(a: seq<Record>, b: seq<Record>) returns (k: nat)
    requires multiset(a) == multiset(b) && a != []
    ensures k < |b| && b[k] == a[|a| - 1]
    ensures multiset(a[..|a| - 1]) == multiset(b[..k] + b[k + 1..])
  {
    var before, r := a[..|a| - 1], a[|a| - 1];
    assert a == before + [r];
    assert multiset(a) == multiset(before) + multiset{r};
    assert r in multiset(b);
    k :| 0 <= k < |b| && b[k] == r;
    assert b == b[..k] + [r] + b[k + 1..];
    assert multiset(b) == multiset(b[..k]) + multiset{r} + multiset(b[k + 1..]);
    var rest := b[..k] + b[k + 1..];
    assert multiset(rest) == multiset(b) - multiset{r};
    assert multiset(before) == multiset(a) - multiset{r};
  }

  lemma {:induction false} SelectCounts(records: seq<Record>, key: Key, r: Record)
    ensures multiset(Select(records, key))[r] == if r.key == key then multiset(records)[r] else 0
  {
    if records != [] {
      var before, last := records[..|records| - 1], records[|records| - 1];
      SelectCounts(before, key, r);
      assert records == before + [last];
      assert multiset(records) == multiset(before) + multiset{last};
      SelectGrows(before, last, key);
    }
  }

  /** The table has the same keys, and the same counts, sums and peaks, for every order of the records. */
  lemma OrderIndependent(a: seq<Record>, b: seq<Record>)
    requires multiset(a) == multiset(b)
    ensures forall key :: HasKey(Groups(a), key) <==> HasKey(Groups(b), key)
    ensures forall i, j :: 0 <= i < |Groups(a)| && 0 <= j < |Groups(b)| && Groups(a)[i].key == Groups(b)[j].key ==>
              Facts(Groups(a)[i]) == Facts(Groups(b)[j])
  {
    hide Groups, Select, Fold, Facts, HasKey;
    GroupsExact(a);
    GroupsExact(b);
    forall key: Key ensures multiset(Select(a, key)) == multiset(Select(b, key)) {
      forall r: Record ensures multiset(Select(a, key))[r] == multiset(Select(b, key))[r] {
        SelectCounts(a, key, r);
        SelectCounts(b, key, r);
      }
    }
    forall key: Key ensures Select(a, key) == [] <==> Select(b, key) == [] {
      assert |multiset(Select(a, key))| == |multiset(Select(b, key))|;
    }
    forall i, j | 0 <= i < |Groups(a)| && 0 <= j < |Groups(b)| && Groups(a)[i].key == Groups(b)[j].key
      ensures Facts(Groups(a)[i]) == Facts(Groups(b)[j])
    {
      var key := Groups(a)[i].key;
      FoldOrderIndependent(key, Select(a, key), Select(b, key));
    }
  }

  /* ----- The report. ----- */

  /** The sort key, largest first; entries that tie keep their order in the table. */
  predicate Before(table: seq<Group>, a: Group, b: Group) {
    || a.peak > b.peak
    || (a.peak == b.peak && a.elapsed > b.elapsed)
    || (a.peak == b.peak && a.elapsed == b.elapsed && Find(table, a.key) < Find(table, b.key))
  }

  predicate Sorted(table: seq<Group>, groups: seq<Group>) {
    forall i, j :: 0 <= i < j < |groups| ==> Before(table, groups[i], groups[j])
  }

  function Insert(g: Group, sorted: seq<Group>): seq<Group> {
    if sorted == [] || sorted[0].peak < g.peak || (sorted[0].peak == g.peak && sorted[0].elapsed < g.elapsed) then
      [g] + sorted
    else [sorted[0]] + Insert(g, sorted[1..])
  }

  /** Everything in a sorted list with g inserted follows what went before both. */
  lemma {:induction false} InsertFollows(table: seq<Group>, g: Group, sorted: seq<Group>, first: Group)
    requires Before(table, first, g) && forall j :: 0 <= j < |sorted| ==> Before(table, first, sorted[j])
    ensures forall j :: 0 <= j < |Insert(g, sorted)| ==> Before(table, first, Insert(g, sorted)[j])
  {
    hide Before;
    if sorted != [] && Insert(g, sorted) != [g] + sorted {
      InsertFollows(table, g, sorted[1..], first);
    }
  }

  lemma SortedCons(table: seq<Group>, first: Group, rest: seq<Group>)
    requires Sorted(table, rest) && forall j :: 0 <= j < |rest| ==> Before(table, first, rest[j])
    ensures Sorted(table, [first] + rest)
  {
    hide Before;
  }

  /** A later entry of the table goes behind those it ties with. */
  lemma {:induction false} InsertSorted(table: seq<Group>, g: Group, sorted: seq<Group>)
    requires Sorted(table, sorted)
    requires forall j :: 0 <= j < |sorted| ==> Find(table, sorted[j].key) < Find(table, g.key)
    ensures Sorted(table, Insert(g, sorted))
  {
    hide Find;
    if sorted == [] {
      SortedCons(table, g, sorted);
    } else if Insert(g, sorted) == [g] + sorted && !Before(table, sorted[0], g) {
      assert forall j :: 0 <= j < |sorted| ==> Before(table, g, sorted[j]);
      SortedCons(table, g, sorted);
    } else {
      InsertSorted(table, g, sorted[1..]);
      InsertFollows(table, g, sorted[1..], sorted[0]);
      SortedCons(table, sorted[0], Insert(g, sorted[1..]));
    }
  }

  lemma {:induction false} InsertPermutes(g: Group, sorted: seq<Group>)
    ensures multiset(Insert(g, sorted)) == multiset(sorted) + multiset{g}
  {
    if sorted != [] && Insert(g, sorted) != [g] + sorted {
      InsertPermutes(g, sorted[1..]);
      assert sorted == [sorted[0]] + sorted[1..];
    }
  }

  /** The aggregation loop. */
  method Aggregate(records: seq<Record>) returns (table: seq<Group>)
    ensures table == Groups(records)
  {
    hide Add, Find;
    table := [];
    var i := 0;
    while i < |records|
      invariant 0 <= i <= |records|
      invariant table == Groups(records[..i])
    {
      assert records[..i + 1][..i] == records[..i];
      var r := records[i];
      var k := Find(table, r.key);
      if k == |table| {
        table := table + [Add(Fresh(r.key), r)];
      } else {
        table := table[k := Add(table[k], r)];
      }
      i := i + 1;
    }
    assert records[..i] == records;
  }

  /** `calls`: the entries sorted by peak and time, largest first, ties in table order; none
    * lost, none invented.
    */
  method SortedCalls(records: seq<Record>) returns (calls: seq<Group>)
    ensures Sorted(Groups(records), calls)
    ensures multiset(calls) == multiset(Groups(records))
  {
    hide Sorted, Groups, Insert, Find;
    var table := Aggregate(records);
    GroupsExact(records);
    calls := [];
    EmptySorted(table);
    var i := 0;
    while i < |table|
      invariant 0 <= i <= |table|
      invariant Sorted(table, calls) && multiset(calls) == multiset(table[..i])
    {
      OneMore(table, i);
      forall j | 0 <= j < |calls| ensures Find(table, calls[j].key) < Find(table, table[i].key) {
        assert calls[j] in multiset(table[..i]);
        var k :| 0 <= k < i && table[k] == calls[j];
        FindAt(table, k);
        FindAt(table, i);
      }
      InsertSorted(table, table[i], calls);
      InsertPermutes(table[i], calls);
      calls := Insert(table[i], calls);
      i := i + 1;
    }
    assert table[..i] == table;
  }

  lemma FindAt(groups: seq<Group>, k: nat)
    requires KeysDiffer(groups) && k < |groups|
    ensures Find(groups, groups[k].key) == k
  {
  }

  /** The order determines the list: what is sorted by peak, time and place is sorted in one way. */
  lemma SortedMeans(table: seq<Group>, calls: seq<Group>, i: nat, j: nat)
    requires KeysDiffer(table) && Sorted(table, calls) && multiset(calls) == multiset(table) && i < j < |calls|
    ensures calls[i].peak >= calls[j].peak
    ensures calls[i].peak == calls[j].peak ==> calls[i].elapsed >= calls[j].elapsed
    ensures calls[i].peak == calls[j].peak && calls[i].elapsed == calls[j].elapsed ==>
              exists p, q :: 0 <= p < q < |table| && table[p] == calls[i] && table[q] == calls[j]
  {
    assert Before(table, calls[i], calls[j]);
    assert calls[i] in multiset(table) && calls[j] in multiset(table);
    var p :| 0 <= p < |table| && table[p] == calls[i];
    var q :| 0 <= q < |table| && table[q] == calls[j];
    FindAt(table, p);
    FindAt(table, q);
  }

  lemma OneMore(table: seq<Group>, i: nat)
    requires i < |table|
    ensures multiset(table[..i + 1]) == multiset(table[..i]) + multiset{table[i]}
  {
    assert table[..i + 1] == table[..i] + [table[i]];
  }

  lemma EmptySorted(table: seq<Group>)
    ensures Sorted(table, [])
  {
  }

  /* ----- Hotspots. ----- */

  const HOTSPOT_ABSOLUTE := 30_000_000
  const HOTSPOT_PER_KB := 22_000_000.0
  const HOTSPOT_PER_LINE := 1_500_000.0

  /** _fuel_hotspot_for_call: the thresholds exceeded, when the call is reported at all. */
  method FuelHotspot(g: Group) returns (exceeded: Option<seq<string>>)
    ensures exceeded.Some? <==> g.peak * 1024 > 22_000_000 * Max(g.bytes, 1024) || g.peak > 1_500_000 * Max(g.lines, 1)
    ensures exceeded.Some? <==> Hot(g)
    ensures exceeded.Some? ==>
              exceeded.value == (if g.peak > 30_000_000 then ["absolute"] else [])
                                + (if PerKb(g) then ["per_kb"] else [])
                                + (if PerLine(g) then ["per_line"] else [])
  {
    if g.peak <= 0 {
      return None;
    }
    var kb := if g.bytes as real / 1024.0 > 1.0 then g.bytes as real / 1024.0 else 1.0;
    var lines := Max(g.lines, 1);
    ThresholdsInIntegers(g.peak, g.bytes, kb, lines);
    var names: seq<string> := [];
    if g.peak > HOTSPOT_ABSOLUTE {
      names := names + ["absolute"];
    }
    if g.peak as real / kb > HOTSPOT_PER_KB {
      names := names + ["per_kb"];
    }
    if g.peak as real / lines as real > HOTSPOT_PER_LINE {
      names := names + ["per_line"];
    }
    var normalized := "per_kb" in names || "per_line" in names;
    if names == [] || ("absolute" in names && !normalized) {
      return None;
    }
    return Some(names);
  }

  predicate PerKb(g: Group) {
    g.peak * 1024 > 22_000_000 * Max(g.bytes, 1024)
  }

  predicate PerLine(g: Group) {
    g.peak > 1_500_000 * Max(g.lines, 1)
  }

  predicate Hot(g: Group) {
    PerKb(g) || PerLine(g)
  }

  /** The real quotients, as integer comparisons. */
  lemma ThresholdsInIntegers(peak: int, bytes: nat, kb: real, lines: int)
    requires kb == (if bytes as real / 1024.0 > 1.0 then bytes as real / 1024.0 else 1.0) && lines >= 1
    ensures peak as real / kb > HOTSPOT_PER_KB <==> peak * 1024 > 22_000_000 * Max(bytes, 1024)
    ensures peak as real / lines as real > HOTSPOT_PER_LINE <==> peak > 1_500_000 * lines
  {
    assert kb * 1024.0 == Max(bytes, 1024) as real;
    QuotientExceeds(peak as real, kb, HOTSPOT_PER_KB);
    QuotientExceeds(peak as real, lines as real, HOTSPOT_PER_LINE);
    assert HOTSPOT_PER_KB * kb * 1024.0 == (22_000_000 * Max(bytes, 1024)) as real;
    assert HOTSPOT_PER_LINE * lines as real == (1_500_000 * lines) as real;
    assert peak as real * 1024.0 == (peak * 1024) as real;
  }

  lemma QuotientExceeds(a: real, b: real, t: real)
    requires b > 0.0
    ensures a / b > t <==> a > t * b
  {
    assert a / b * b == a;
    if a / b > t {
      assert a / b * b > t * b;
    } else {
      assert a / b * b <= t * b;
    }
  }

  /** A call that would be a hotspot by itself. */
  predicate HotAlone(r: Record) {
    && r.consumed.Some?
    && (|| r.consumed.value * 1024 > 22_000_000 * Max(Or(r.bytes, 0), 1024)
        || r.consumed.value > 1_500_000 * Max(Or(r.lines, 0), 1))
  }

  lemma HotAloneIsHot(key: Key, r: Record)
    ensures HotAlone(r) <==> Hot(Fold(key, [r]))
  {
    FoldGrows(key, [], r);
    assert [] + [r] == [r];
  }

  lemma {:induction false} SumsCoverEach(records: seq<Record>, k: nat)
    requires k < |records|
    ensures Or<nat>(records[k].bytes, 0) <= SumBytes(records) && Or<nat>(records[k].lines, 0) <= SumLines(records)
  {
    if k < |records| - 1 {
      SumsCoverEach(records[..|records| - 1], k);
    }
  }

  /** A reported entry has a call that is a hotspot by itself. */
  lemma HotEntryHasHotCall(key: Key, records: seq<Record>) returns (k: nat)
    requires Hot(Fold(key, records))
    ensures k < |records| && HotAlone(records[k])
  {
    PeakIsMaximum(key, records);
    FoldSizes(key, records, "");
    k :| 0 <= k < |records| && records[k].consumed == Some(Fold(key, records).peak);
    SumsCoverEach(records, k);
  }

  /** The converse fails.  Peaks are per call but bytes and lines are summed over the calls, so
    * an entry with a call that is a hotspot by itself goes unreported exactly when its calls
    * together are large enough for the largest consumption among them.
    */
  lemma HiddenExactly(key: Key, records: seq<Record>, k: nat)
    requires k < |records| && HotAlone(records[k])
    ensures !Hot(Fold(key, records)) <==>
            && Fold(key, records).peak * 1024 <= 22_000_000 * Max(SumBytes(records), 1024)
            && Fold(key, records).peak <= 1_500_000 * Max(SumLines(records), 1)
    ensures Fold(key, records).peak >= records[k].consumed.value > 0
  {
    PeakIsMaximum(key, records);
    FoldSizes(key, records, "");
  }

  /** For instance, two calls of this kind hide each other. */
  lemma CallsDilute(key: Key, r: Record)
    requires r.consumed.Some? && HotAlone(r)
    ensures Hot(Fold(key, [r]))
    ensures !Hot(Fold(key, [r, r])) <==>
            && r.consumed.value * 1024 <= 22_000_000 * Max(2 * Or(r.bytes, 0), 1024)
            && r.consumed.value <= 1_500_000 * Max(2 * Or(r.lines, 0), 1)
  {
    HotAloneIsHot(key, r);
    FoldGrows(key, [], r);
    FoldGrows(key, [r], r);
    assert [] + [r] == [r] && [r] + [r] == [r, r];
  }

  lemma CallsDiluteHappens(key: Key) returns (r: Record)
    ensures r.key == key && HotAlone(r) && !Hot(Fold(key, [r, r]))
  {
    r := Record(key, 1.0, Some(30_000_000), Some(1024), Some(30), "ok");
    CallsDilute(key, r);
  }
}
