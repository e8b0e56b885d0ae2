/**
  `CompositeHealthChecker.Check` and `CheckStorage` of
  pkg/observability/health/health.go: run the checkers in order, stop at the first
  that is not healthy, and merge the details of those that ran.
 */
module Composite {

  datatype HealthStatus = HealthStatus(status: string, message: string, details: Details, error: string)

  predicate Healthy(s: HealthStatus) {
    s.status == "healthy"
  }

  // ------------------------------------------------------------ detail keys

  function Digit(d: nat): char
    requires d < 10
  {
    "0123456789"[d]
  }

  /** Decimal notation, as `%d` prints it. */
  function Itoa(n: nat): string {
    if n < 10 then [Digit(n)] else Itoa(n / 10) + [Digit(n % 10)]
  }

  function DetailKey(i: nat, key: string): string {
    "checker_" + Itoa(i) + "_" + key
  }

  /** The number that a text of digits denotes. */
  function Decimal(s: string): int {
    if s == "" then 0 else 10 * Decimal(s[..|s| - 1]) + (s[|s| - 1] as int - '0' as int)
  }

  /** The notation of `n` is made of the ten digits, without a leading zero, and denotes `n`. */
  lemma {:induction false} ItoaMeaning(n: nat)
    ensures Decimal(Itoa(n)) == n && Itoa(n) != ""
    ensures forall i :: 0 <= i < |Itoa(n)| ==> '0' <= Itoa(n)[i] <= '9'
    ensures n > 0 ==> Itoa(n)[0] != '0'
    ensures n == 0 ==> Itoa(n) == "0"
  {
    var s := Itoa(n);
    if n >= 10 {
      ItoaMeaning(n / 10);
      assert s[..|s| - 1] == Itoa(n / 10);
    } else {
      assert s[..|s| - 1] == "";
    }
  }

  /** The first underscore ends the number. */
  lemma SameUpToUnderscore(a: string, b: string, x: string, y: string)
    requires '_' !in a && '_' !in b && a + "_" + x == b + "_" + y
    ensures a == b && x == y
  {
    var s := a + "_" + x;
    assert s[|a|] == '_' && s[|b|] == '_';
    assert forall i :: 0 <= i < |a| ==> s[i] == a[i];
    assert forall i :: 0 <= i < |b| ==> s[i] == b[i];
    assert |a| == |b|;
    assert a == s[..|a|] == b;
    assert x == s[|a| + 1..] == y;
  }

  /** Two details never share a key: neither within nor across checkers. */
  lemma DetailKeyInjective(i: nat, k: string, j: nat, l: string)
    requires DetailKey(i, k) == DetailKey(j, l)
    ensures i == j && k == l
  {
    var head := "checker_";
    assert Itoa(i) + "_" + k == DetailKey(i, k)[|head|..];
    assert Itoa(j) + "_" + l == DetailKey(j, l)[|head|..];
    ItoaMeaning(i);
    ItoaMeaning(j);
    SameUpToUnderscore(Itoa(i), Itoa(j), k, l);
  }

  // ---------------------------------------------------------- merged details

  type Details = map<string, string>

  /** The detail that a label of checker `i` stands for. */
  function Unlabel(i: nat, d: string): string {
    var head := "checker_" + Itoa(i) + "_";
    if |head| <= |d| then d[|head|..] else ""
  }

  lemma UnlabelLabel(i: nat, k: string)
    ensures Unlabel(i, DetailKey(i, k)) == k
  {
    var head := "checker_" + Itoa(i) + "_";
    assert DetailKey(i, k) == head + k;
  }

  /** The details of checker `i` under their labels. */
  ghost function Labelled(i: nat, details: Details): Details {
    map d | d in (set k | k in details :: DetailKey(i, k)) && Unlabel(i, d) in details :: details[Unlabel(i, d)]
  }

  lemma LabelledAdd(i: nat, part: Details, key: string, value: string)
    requires key !in part
    ensures DetailKey(i, key) !in Labelled(i, part)
    ensures Labelled(i, part[key := value]) == Labelled(i, part)[DetailKey(i, key) := value]
  {
    hide DetailKey, Unlabel;
    forall k { UnlabelLabel(i, k); }
  }

  lemma PlusUpdate<K, V>(a: map<K, V>, b: map<K, V>, k: K, v: V)
    ensures a + b[k := v] == (a + b)[k := v]
  {
  }

  lemma PlusNothing(all: Details, i: nat)
    ensures all + Labelled(i, map[]) == all
  {
  }

  /** The inner loop: copy the details of checker `i`, in any order. */
  method Merge(all: Details, i: nat, details: Details) returns (merged: Details)
    ensures merged == all + Labelled(i, details)
  {
    hide DetailKey, Unlabel, Labelled;
    PlusNothing(all, i);
    merged := all;
    var todo := details.Keys;
    ghost var part: Details := map[];
    while todo != {}
      invariant part.Keys + todo == details.Keys && part.Keys !! todo
      invariant forall k :: k in part ==> part[k] == details[k]
      invariant merged == all + Labelled(i, part)
      decreases todo
    {
      var key :| key in todo;
      LabelledAdd(i, part, key, details[key]);
      PlusUpdate(all, Labelled(i, part), DetailKey(i, key), details[key]);
      merged := merged[DetailKey(i, key) := details[key]];
      part := part[key := details[key]];
      todo := todo - {key};
    }
    assert part == details;
  }

  /** The union of the details of the first `n` checkers. */
  ghost function Union(outcomes: seq<HealthStatus>, n: nat): Details
    requires n <= |outcomes|
  {
    if n == 0 then map[] else Union(outcomes, n - 1) + Labelled(n - 1, outcomes[n - 1].details)
  }

  function Total(outcomes: seq<HealthStatus>, n: nat): nat
    requires n <= |outcomes|
  {
    if n == 0 then 0 else Total(outcomes, n - 1) + |outcomes[n - 1].details|
  }

  lemma LabelledAt(i: nat, details: Details, j: nat, k: string)
    ensures DetailKey(j, k) in Labelled(i, details) <==> i == j && k in details
    ensures i == j && k in details ==> Labelled(i, details)[DetailKey(j, k)] == details[k]
  {
    UnlabelLabel(i, k);
    if DetailKey(j, k) in Labelled(i, details) {
      var l :| l in details && DetailKey(i, l) == DetailKey(j, k);
      DetailKeyInjective(i, l, j, k);
    }
  }

  lemma {:induction false} UnionHas(outcomes: seq<HealthStatus>, n: nat, j: nat, k: string)
    requires n <= |outcomes|
    ensures DetailKey(j, k) in Union(outcomes, n) <==> j < n && k in outcomes[j].details
    ensures j < n && k in outcomes[j].details ==> Union(outcomes, n)[DetailKey(j, k)] == outcomes[j].details[k]
  {
    hide DetailKey, Labelled;
    if n > 0 {
      UnionHas(outcomes, n - 1, j, k);
      LabelledAt(n - 1, outcomes[n - 1].details, j, k);
    }
  }

  /** Detail `k` of checker `j` is in the union exactly if that checker is among the first `n`, and with its own value. */
  lemma UnionAt(outcomes: seq<HealthStatus>, n: nat, j: nat, k: string)
    requires n <= |outcomes|
    ensures var key := "checker_" + Itoa(j) + "_" + k;
            && (key in Union(outcomes, n) <==> j < n && k in outcomes[j].details)
            && (j < n && k in outcomes[j].details ==> Union(outcomes, n)[key] == outcomes[j].details[k])
  {
    hide Union, Itoa;
    UnionHas(outcomes, n, j, k);
  }

  lemma {:induction false} LabelledSize(i: nat, details: Details)
    ensures |Labelled(i, details)| == |details|
    decreases |details|
  {
    if details != map[] {
      var key :| key in details;
      var rest := details - {key};
      assert details == rest[key := details[key]];
      LabelledSize(i, rest);
      LabelledAdd(i, rest, key, details[key]);
    }
  }

  /** No label of checker `i` is used by the checkers before it. */
  lemma LabelsFresh(outcomes: seq<HealthStatus>, i: nat)
    requires i < |outcomes|
    ensures Union(outcomes, i).Keys !! Labelled(i, outcomes[i].details).Keys
  {
    forall d | d in Labelled(i, outcomes[i].details)
      ensures d !in Union(outcomes, i)
    {
      var k :| k in outcomes[i].details && d == DetailKey(i, k);
      UnionHas(outcomes, i, i, k);
    }
  }

  lemma DisjointSize<K, V>(a: map<K, V>, b: map<K, V>)
    requires a.Keys !! b.Keys
    ensures |a + b| == |a| + |b|
  {
    assert (a + b).Keys == a.Keys + b.Keys;
    assert |a.Keys + b.Keys| == |a.Keys| + |b.Keys|;
  }

  /** Nothing is overwritten: the union has as many details as its parts together. */
  lemma {:induction false} UnionSize(outcomes: seq<HealthStatus>, n: nat)
    requires n <= |outcomes|
    ensures |Union(outcomes, n)| == Total(outcomes, n)
  {
    hide Union, Labelled;
    UnionOfNone(outcomes);
    if n > 0 {
      UnionSize(outcomes, n - 1);
      UnionGrows(outcomes, n - 1);
    }
  }

  lemma UnionOfNone(outcomes: seq<HealthStatus>)
    ensures Union(outcomes, 0) == map[]
  {
  }

  lemma UnionNext(outcomes: seq<HealthStatus>, i: nat)
    requires i < |outcomes|
    ensures Union(outcomes, i + 1) == Union(outcomes, i) + Labelled(i, outcomes[i].details)
  {
  }

  lemma UnionGrows(outcomes: seq<HealthStatus>, i: nat)
    requires i < |outcomes|
    ensures |Union(outcomes, i + 1)| == |Union(outcomes, i)| + |outcomes[i].details|
  {
    LabelsFresh(outcomes, i);
    LabelledSize(i, outcomes[i].details);
    var a, b := Union(outcomes, i), Labelled(i, outcomes[i].details);
    UnionNext(outcomes, i);
    hide Labelled, Union;
    DisjointSize(a, b);
  }

  // ------------------------------------------------------------- the checks

  /** How many of the checkers run: up to and including the first failing one. */
  ghost predicate RunsExactly(outcomes: seq<HealthStatus>, ran: nat) {
    && ran <= |outcomes|
    && (forall i :: 0 <= i < ran - 1 ==> Healthy(outcomes[i]))
    && (ran < |outcomes| ==> ran > 0 && !Healthy(outcomes[ran - 1]))
  }

  /**
    The loop of `Check` and of `CheckStorage`: `outcomes[i]` is what checker `i` answers
    if it is run, and `ran` counts those that were.
   */
  method RunCheckers(outcomes: seq<HealthStatus>) returns (failed: bool, details: Details, ran: nat)
    ensures RunsExactly(outcomes, ran)
    ensures failed <==> exists i :: 0 <= i < |outcomes| && !Healthy(outcomes[i])
    ensures failed ==> ran > 0 && !Healthy(outcomes[ran - 1])
    ensures details == Union(outcomes, ran)
  {
    hide Union, Labelled;
    UnionOfNone(outcomes);
    details := map[];
    ran := 0;
    while ran < |outcomes|
      invariant ran <= |outcomes|
      invariant forall i :: 0 <= i < ran ==> Healthy(outcomes[i])
      invariant details == Union(outcomes, ran)
    {
      var i := ran;
      details := Merge(details, i, outcomes[i].details);
      UnionNext(outcomes, i);
      ran := ran + 1;
      if outcomes[i].status != "healthy" {
        return true, details, ran;
      }
    }
    failed := false;
  }

  method Check(outcomes: seq<HealthStatus>) returns (r: HealthStatus, ran: nat)
    ensures RunsExactly(outcomes, ran)
    ensures r.status == "healthy" <==> forall i :: 0 <= i < |outcomes| ==> outcomes[i].status == "healthy"
    ensures r.status == "healthy" ==> r.message == "All health checks passed" && r.error == ""
    ensures r.status != "healthy" ==>
              && r.status == "unhealthy" && ran > 0 && outcomes[ran - 1].status != "healthy"
              && r.message == "Health check " + Itoa(ran - 1) + " failed: " + outcomes[ran - 1].message
              && r.error == outcomes[ran - 1].error
    ensures r.details == Union(outcomes, ran)
  {
    var failed, details;
    failed, details, ran := RunCheckers(outcomes);
    if failed {
      var i := ran - 1;
      r := HealthStatus("unhealthy", "Health check " + Itoa(i) + " failed: " + outcomes[i].message, details, outcomes[i].error);
    } else {
      r := HealthStatus("healthy", "All health checks passed", details, "");
    }
  }

  method CheckStorage(outcomes: seq<HealthStatus>) returns (r: HealthStatus, ran: nat)
    ensures RunsExactly(outcomes, ran)
    ensures r.status == "healthy" <==> forall i :: 0 <= i < |outcomes| ==> outcomes[i].status == "healthy"
    ensures r.status == "healthy" ==> r.message == "All storage checks passed" && r.error == ""
    ensures r.status != "healthy" ==>
              && r.status == "unhealthy" && ran > 0 && outcomes[ran - 1].status != "healthy"
              && r.message == "Storage check " + Itoa(ran - 1) + " failed: " + outcomes[ran - 1].message
              && r.error == outcomes[ran - 1].error
    ensures r.details == Union(outcomes, ran)
  {
    var failed, details;
    failed, details, ran := RunCheckers(outcomes);
    if failed {
      var i := ran - 1;
      r := HealthStatus("unhealthy", "Storage check " + Itoa(i) + " failed: " + outcomes[i].message, details, outcomes[i].error);
    } else {
      r := HealthStatus("healthy", "All storage checks passed", details, "");
    }
  }
}
