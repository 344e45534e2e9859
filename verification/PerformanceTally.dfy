// Requests, and what it means for buckets to tally them.
module PerformanceTally {
  import opened PerformanceFlusher

  /** One recorded request. */
  datatype Request = Request(name: string, duration: real, at: int)

  // ---------------------------------------------------------------- counting requests

  function CountOf(name: string, requests: seq<Request>): nat {
    if requests == [] then 0
    else CountOf(name, requests[..|requests| - 1]) + (if requests[|requests| - 1].name == name then 1 else 0)
  }

  function SumOf(name: string, requests: seq<Request>): real {
    if requests == [] then 0.0
    else
      SumOf(name, requests[..|requests| - 1]) +
      (if requests[|requests| - 1].name == name then requests[|requests| - 1].duration else 0.0)
  }

  predicate InRange(name: string, range: string, request: Request) {
    request.name == name && LabelFor(request.duration) == range
  }

  function RangeCount(name: string, range: string, requests: seq<Request>): nat {
    if requests == [] then 0
    else
      RangeCount(name, range, requests[..|requests| - 1]) +
      (if InRange(name, range, requests[|requests| - 1]) then 1 else 0)
  }

  lemma {:induction false} CountsAdd(name: string, range: string, a: seq<Request>, b: seq<Request>)
    ensures CountOf(name, a + b) == CountOf(name, a) + CountOf(name, b)
    ensures SumOf(name, a + b) == SumOf(name, a) + SumOf(name, b)
    ensures RangeCount(name, range, a + b) == RangeCount(name, range, a) + RangeCount(name, range, b)
    decreases |b|
  {
    hide InRange;
    if b == [] {
      assert a + b == a;
    } else {
      var m := |b| - 1;
      assert (a + b)[..|a + b| - 1] == a + b[..m];
      CountsAdd(name, range, a, b[..m]);
    }
  }

  lemma CountsAdd1(name: string, range: string, a: seq<Request>, r: Request)
    ensures CountOf(name, a + [r]) == CountOf(name, a) + (if r.name == name then 1 else 0)
    ensures SumOf(name, a + [r]) == SumOf(name, a) + (if r.name == name then r.duration else 0.0)
    ensures RangeCount(name, range, a + [r]) == RangeCount(name, range, a) + (if InRange(name, range, r) then 1 else 0)
  {
  }

  // ---------------------------------------------------------------- what a tally means

  /** The histogram counts these requests, holds no other entry, and no zero. */
  ghost predicate Histogram(histogram: map<string, int>, name: string, requests: seq<Request>) {
    forall range :: RangeTallied(histogram, range, RangeCount(name, range, requests))
  }

  predicate RangeTallied(histogram: map<string, int>, range: string, count: int) {
    At(histogram, range) == count && (range in histogram <==> count > 0)
  }

  /** The bucket of that name, if any, tallies these requests; its maximum may be higher than theirs. */
  ghost predicate BucketTallies(buckets: Buckets, name: string, requests: seq<Request>) {
    && (name in buckets <==> CountOf(name, requests) > 0)
    && (name in buckets ==>
          && buckets[name].count == CountOf(name, requests)
          && buckets[name].durationSum == SumOf(name, requests)
          && Histogram(buckets[name].histogram, name, requests))
  }

  ghost predicate Tallies(buckets: Buckets, requests: seq<Request>) {
    forall name :: BucketTallies(buckets, name, requests)
  }

  lemma {:induction false} NoneOf(name: string, requests: seq<Request>)
    requires CountOf(name, requests) == 0
    ensures SumOf(name, requests) == 0.0 && forall range :: RangeCount(name, range, requests) == 0
  {
    if requests != [] {
      NoneOf(name, requests[..|requests| - 1]);
    }
  }

  lemma RecordTalliesOne(buckets: Buckets, requests: seq<Request>, r: Request, name: string)
    requires BucketTallies(buckets, name, requests)
    ensures BucketTallies(Tallied(buckets, r.name, r.duration), name, requests + [r])
  {
    hide LabelFor, SumOf, CountOf, RangeCount;
    var after := Tallied(buckets, r.name, r.duration);
    CountsAdd1(name, "", requests, r);
    if name in after {
      var had := if name in buckets then buckets[name].histogram else map[];
      if name !in buckets {
        NoneOf(name, requests);
      }
      forall range ensures RangeTallied(after[name].histogram, range, RangeCount(name, range, requests + [r])) {
        CountsAdd1(name, range, requests, r);
        assert RangeTallied(had, range, RangeCount(name, range, requests));
      }
    }
  }

  /** Recording a request tallies it. */
  lemma RecordTallies(buckets: Buckets, requests: seq<Request>, r: Request)
    requires Tallies(buckets, requests)
    ensures Tallies(Tallied(buckets, r.name, r.duration), requests + [r])
  {
    hide Tallied;
    forall name ensures BucketTallies(Tallied(buckets, r.name, r.duration), name, requests + [r]) {
      assert BucketTallies(buckets, name, requests);
      RecordTalliesOne(buckets, requests, r, name);
    }
  }

  /** A snapshot tallied p and q. Of these, p has been taken out of the buckets since, and b recorded.
      Taking the snapshot out leaves the tally of b, for one transaction, if and only if that transaction
      is not both in p and in b. */
  lemma SubtractIsExactIff(current: Buckets, sent: Buckets, name: string, p: seq<Request>, q: seq<Request>,
                           b: seq<Request>)
    requires BucketTallies(sent, name, p + q) && BucketTallies(current, name, q + b)
    ensures BucketTallies(Subtract(current, sent), name, b) <==> CountOf(name, p) == 0 || CountOf(name, b) == 0
  {
    hide SumOf, CountOf, RangeCount, SubtractHistogram;
    CountsAdd(name, "", p, q);
    CountsAdd(name, "", q, b);
    if CountOf(name, p) == 0 && name in Subtract(current, sent) {
      NoneOf(name, p);
      SubtractLeaves(current, sent, name, p, q, b);
    }
  }

  lemma SubtractLeaves(current: Buckets, sent: Buckets, name: string, p: seq<Request>, q: seq<Request>,
                       b: seq<Request>)
    requires BucketTallies(sent, name, p + q) && BucketTallies(current, name, q + b)
    requires CountOf(name, p) == 0 && name in Subtract(current, sent)
    ensures BucketTallies(Subtract(current, sent), name, b)
  {
    hide SumOf, CountOf, RangeCount, SubtractHistogram;
    var after := Subtract(current, sent);
    CountsAdd(name, "", p, q);
    CountsAdd(name, "", q, b);
    NoneOf(name, p);
    if name !in sent {
      NoneOf(name, q);
    }
    forall range ensures RangeTallied(after[name].histogram, range, RangeCount(name, range, b)) {
      CountsAdd(name, range, p, q);
      CountsAdd(name, range, q, b);
      assert RangeTallied(current[name].histogram, range, RangeCount(name, range, q + b));
      if name in sent {
        assert RangeTallied(sent[name].histogram, range, RangeCount(name, range, p + q));
        LeftOfRange(current[name].histogram, sent[name].histogram, range);
      }
    }
  }

  /** Subtracting the tally of the first requests leaves the tally of the rest: no zero entry, no empty
      bucket, nothing of theirs and nothing missing. */
  lemma SubtractIsExact(current: Buckets, sent: Buckets, a: seq<Request>, b: seq<Request>)
    requires Tallies(current, a + b) && Tallies(sent, a)
    ensures Tallies(Subtract(current, sent), b)
  {
    hide BucketTallies;
    assert [] + a == a;
    forall name ensures BucketTallies(Subtract(current, sent), name, b) {
      SubtractIsExactIff(current, sent, name, [], a, b);
    }
  }

  // ---------------------------------------------------------------- a histogram adds up to its count

  function Ranges(): (ranges: seq<string>)
    ensures |ranges| == 9
  {
    ["50", "100", "250", "500", "1000", "2500", "5000", "10000", "inf"]
  }

  lemma Decimals()
    ensures Decimal(50) == "50" && Decimal(100) == "100" && Decimal(250) == "250" && Decimal(500) == "500"
    ensures Decimal(1000) == "1000" && Decimal(2500) == "2500" && Decimal(5000) == "5000" && Decimal(10000) == "10000"
  {
    assert Decimal(5) == "5" && Decimal(1) == "1" && Decimal(2) == "2";
    assert Decimal(50) == "50" && Decimal(10) == "10" && Decimal(25) == "25";
    assert Decimal(100) == "100" && Decimal(250) == "250" && Decimal(500) == "500";
    assert Decimal(1000) == "1000";
  }

  function Position(duration: real): (p: nat)
    ensures p < 9
  {
    if duration <= 50.0 then 0 else if duration <= 100.0 then 1 else if duration <= 250.0 then 2
    else if duration <= 500.0 then 3 else if duration <= 1000.0 then 4 else if duration <= 2500.0 then 5
    else if duration <= 5000.0 then 6 else if duration <= 10000.0 then 7 else 8
  }

  lemma LabelIs(duration: real)
    ensures LabelFor(duration) == Ranges()[Position(duration)]
  {
    Decimals();
    hide Decimal;
    var b := Boundaries();
    assert b[1..] == [100, 250, 500, 1000, 2500, 5000, 10000];
    assert b[1..][1..] == b[2..] && b[2..][1..] == b[3..] && b[3..][1..] == b[4..] && b[4..][1..] == b[5..];
    assert b[5..][1..] == b[6..] && b[6..][1..] == b[7..] && b[7..][1..] == b[8..] && b[8..] == [];
    assert LabelAmong(b[7..], duration) == if duration <= 10000.0 then "10000" else "inf";
    assert LabelAmong(b[5..], duration) ==
           if duration <= 2500.0 then "2500" else if duration <= 5000.0 then "5000" else LabelAmong(b[7..], duration);
    assert LabelAmong(b[3..], duration) ==
           if duration <= 500.0 then "500" else if duration <= 1000.0 then "1000" else LabelAmong(b[5..], duration);
    assert LabelAmong(b[1..], duration) ==
           if duration <= 100.0 then "100" else if duration <= 250.0 then "250" else LabelAmong(b[3..], duration);
  }

  lemma RangesDiffer(i: nat, j: nat)
    requires i < 9 && j < 9 && i != j
    ensures Ranges()[i] != Ranges()[j]
  {
  }

  function RangeSum(name: string, requests: seq<Request>, n: nat): nat
    requires n <= 9
  {
    if n == 0 then 0 else RangeSum(name, requests, n - 1) + RangeCount(name, Ranges()[n - 1], requests)
  }

  function Total(histogram: map<string, int>, n: nat): int
    requires n <= 9
  {
    if n == 0 then 0 else Total(histogram, n - 1) + At(histogram, Ranges()[n - 1])
  }

  lemma {:induction false} RangeSumGrows(name: string, requests: seq<Request>, r: Request, n: nat)
    requires n <= 9
    ensures RangeSum(name, requests + [r], n)
         == RangeSum(name, requests, n) + (if r.name == name && Position(r.duration) < n then 1 else 0)
    decreases n
  {
    hide LabelFor, Ranges, Position;
    if n > 0 {
      RangeSumGrows(name, requests, r, n - 1);
      CountsAdd1(name, Ranges()[n - 1], requests, r);
      LabelIs(r.duration);
      if Position(r.duration) != n - 1 {
        RangesDiffer(n - 1, Position(r.duration));
      }
    }
  }

  lemma {:induction false} NothingInRanges(name: string, n: nat)
    requires n <= 9
    ensures RangeSum(name, [], n) == 0
  {
    if n > 0 {
      NothingInRanges(name, n - 1);
    }
  }

  lemma {:induction false} RangesCoverAll(name: string, requests: seq<Request>)
    ensures RangeSum(name, requests, 9) == CountOf(name, requests)
  {
    if requests == [] {
      NothingInRanges(name, 9);
    } else {
      var m := |requests| - 1;
      RangesCoverAll(name, requests[..m]);
      RangeSumGrows(name, requests[..m], requests[m], 9);
      assert requests[..m] + [requests[m]] == requests;
    }
  }

  lemma {:induction false} TotalIsRangeSum(histogram: map<string, int>, name: string, requests: seq<Request>, n: nat)
    requires n <= 9 && Histogram(histogram, name, requests)
    ensures Total(histogram, n) == RangeSum(name, requests, n)
  {
    hide Ranges, RangeCount;
    if n > 0 {
      TotalIsRangeSum(histogram, name, requests, n - 1);
      assert RangeTallied(histogram, Ranges()[n - 1], RangeCount(name, Ranges()[n - 1], requests));
    }
  }

  lemma {:induction false} OnlyTheseRanges(name: string, range: string, requests: seq<Request>)
    requires RangeCount(name, range, requests) > 0
    ensures range in Ranges()
  {
    hide LabelFor, Ranges;
    var m := |requests| - 1;
    if InRange(name, range, requests[m]) {
      LabelIs(requests[m].duration);
    } else {
      OnlyTheseRanges(name, range, requests[..m]);
    }
  }

  /** A tallied bucket's histogram has entries for the nine ranges only, and they add up to its count. */
  lemma HistogramAddsUp(buckets: Buckets, name: string, requests: seq<Request>)
    requires Tallies(buckets, requests) && name in buckets
    ensures Total(buckets[name].histogram, 9) == buckets[name].count
    ensures forall range :: range in buckets[name].histogram ==> range in Ranges()
  {
    hide Ranges;
    assert BucketTallies(buckets, name, requests);
    forall range | range in buckets[name].histogram ensures range in Ranges() {
      assert RangeTallied(buckets[name].histogram, range, RangeCount(name, range, requests));
      OnlyTheseRanges(name, range, requests);
    }
    TotalIsRangeSum(buckets[name].histogram, name, requests, 9);
    RangesCoverAll(name, requests);
  }

  // ---------------------------------------------------------------- members and maxima

  lemma SomeRequest(buckets: Buckets, requests: seq<Request>)
    requires Tallies(buckets, requests)
    ensures buckets == map[] <==> requests == []
  {
    if requests == [] {
      forall name ensures name !in buckets {
        assert BucketTallies(buckets, name, requests);
      }
      assert buckets.Keys == {};
    } else {
      var r := requests[|requests| - 1];
      assert BucketTallies(buckets, r.name, requests);
    }
  }

  lemma {:induction false} MemberIsCounted(requests: seq<Request>, k: nat)
    requires k < |requests|
    ensures CountOf(requests[k].name, requests) > 0
  {
    if k < |requests| - 1 {
      MemberIsCounted(requests[..|requests| - 1], k);
    }
  }

  /** The longest of one transaction's requests, and 0 when it has none longer. */
  function LongestOf(name: string, requests: seq<Request>): real {
    if requests == [] then 0.0
    else
      var rest := LongestOf(name, requests[..|requests| - 1]);
      var r := requests[|requests| - 1];
      if r.name == name && r.duration > rest then r.duration else rest
  }

  lemma {:induction false} LongestOfJoin(name: string, a: seq<Request>, b: seq<Request>)
    ensures var x, y := LongestOf(name, a), LongestOf(name, b);
            LongestOf(name, a + b) == if x > y then x else y
    decreases |b|
  {
    if b == [] {
      assert a + b == a;
      LongestOfAtLeast(name, a);
    } else {
      var m := |b| - 1;
      assert (a + b)[..|a + b| - 1] == a + b[..m];
      LongestOfJoin(name, a, b[..m]);
    }
  }

  lemma {:induction false} LongestOfAtLeast(name: string, requests: seq<Request>)
    ensures LongestOf(name, requests) >= 0.0
  {
    if requests != [] {
      LongestOfAtLeast(name, requests[..|requests| - 1]);
    }
  }

  lemma {:induction false} CountedIsThere(name: string, requests: seq<Request>) returns (k: nat)
    requires CountOf(name, requests) > 0
    ensures k < |requests| && requests[k].name == name
  {
    k := |requests| - 1;
    if requests[k].name != name {
      k := CountedIsThere(name, requests[..k]);
    }
  }

  lemma {:induction false} NoneLongest(name: string, requests: seq<Request>)
    requires CountOf(name, requests) == 0
    ensures LongestOf(name, requests) == 0.0
  {
    if requests != [] {
      NoneLongest(name, requests[..|requests| - 1]);
    }
  }

  /** Recording keeps a bucket's maximum that of the requests since it has been there. */
  lemma RecordKeepsLongest(buckets: Buckets, requests: seq<Request>, r: Request, name: string)
    requires name in buckets ==> buckets[name].maxDuration == LongestOf(name, requests)
    requires name !in buckets ==> name == r.name && requests == []
    ensures Tallied(buckets, r.name, r.duration)[name].maxDuration == LongestOf(name, requests + [r])
  {
    hide LabelFor;
    assert (requests + [r])[..|requests|] == requests;
  }

  lemma TalliedKeys(buckets: Buckets, name: string, duration: real)
    ensures Tallied(buckets, name, duration).Keys == buckets.Keys + {name}
  {
  }

  lemma Nothing(name: string, range: string)
    ensures CountOf(name, []) == 0 && SumOf(name, []) == 0.0 && RangeCount(name, range, []) == 0
  {
  }
}
