/**
  The pure part of `get_mx_records`: the DNS answer is given as data (a list
  of MX records, or a failure), each record becomes the pair
  `(preference, exchange.rstrip('.'))`, the pairs are sorted the way Python
  sorts tuples, and the hostnames are read off in that order.
 */
module Mx {
  import opened Text

  /** One MX resource record: its preference and its exchange name as text. */
  datatype MxRecord = MxRecord(preference: int, exchange: string)

  /** What the resolver gives back: the records, or any failure (NXDOMAIN, no answer, timeout, ...). */
  datatype DnsAnswer = Answer(records: seq<MxRecord>) | ResolutionFailed

  /** The tuple `(preference, host)` that `get_mx_records` sorts. */
  datatype MxPair = MxPair(preference: int, host: string)

  /** Python's `<=` on `(int, str)` tuples. */
  predicate PairLe(a: MxPair, b: MxPair)
  {
    a.preference < b.preference || (a.preference == b.preference && StrLe(a.host, b.host))
  }

  predicate Sorted(ps: seq<MxPair>)
  {
    forall i, j :: 0 <= i < j < |ps| ==> PairLe(ps[i], ps[j])
  }

  lemma PairLeTotal(a: MxPair, b: MxPair)
    ensures PairLe(a, b) || PairLe(b, a)
  {
    StrLeTotal(a.host, b.host);
  }

  lemma PairLeTransitive(a: MxPair, b: MxPair, c: MxPair)
    requires PairLe(a, b) && PairLe(b, c)
    ensures PairLe(a, c)
  {
    if a.preference == b.preference == c.preference {
      StrLeTransitive(a.host, b.host, c.host);
    }
  }

  lemma PairLeAntisymmetric(a: MxPair, b: MxPair)
    requires PairLe(a, b) && PairLe(b, a)
    ensures a == b
  {
    StrLeAntisymmetric(a.host, b.host);
  }

  /** The list comprehension `[(r.preference, str(r.exchange).rstrip('.')) for r in records]`. */
  function Pairs(records: seq<MxRecord>): (ps: seq<MxPair>)
    ensures |ps| == |records|
    ensures forall k :: 0 <= k < |ps| ==>
      ps[k].preference == records[k].preference &&
      ps[k].host == TrimTrailing(records[k].exchange, '.')
  {
    if records == [] then []
    else [MxPair(records[0].preference, TrimTrailing(records[0].exchange, '.'))] + Pairs(records[1..])
  }

  /** Places `p` into the sorted list `ps`. */
  function Insert(p: MxPair, ps: seq<MxPair>): (r: seq<MxPair>)
    requires Sorted(ps)
    ensures Sorted(r)
    ensures multiset(r) == multiset(ps) + multiset{p}
  {
    if ps == [] then [p]
    else if PairLe(p, ps[0]) then
      forall j | 0 <= j < |ps| ensures PairLe(p, ps[j]) {
        if j > 0 { PairLeTransitive(p, ps[0], ps[j]); }
      }
      [p] + ps
    else
      PairLeTotal(p, ps[0]);
      var rest := Insert(p, ps[1..]);
      assert ps == [ps[0]] + ps[1..];
      forall j | 0 <= j < |rest| ensures PairLe(ps[0], rest[j]) {
        assert rest[j] in multiset(rest);
        if rest[j] != p {
          assert rest[j] in ps[1..];
        }
      }
      [ps[0]] + rest
  }

  /** Python's `sorted` on the pairs (an insertion sort; the order it yields is the only sorted one). */
  function SortPairs(ps: seq<MxPair>): (r: seq<MxPair>)
    ensures Sorted(r)
    ensures multiset(r) == multiset(ps)
  {
    if ps == [] then []
    else
      assert ps == [ps[0]] + ps[1..];
      Insert(ps[0], SortPairs(ps[1..]))
  }

  /** The projection `[host for _, host in mx_hosts]`. */
  function Hosts(ps: seq<MxPair>): (hs: seq<string>)
    ensures |hs| == |ps|
    ensures forall k :: 0 <= k < |ps| ==> hs[k] == ps[k].host
  {
    if ps == [] then [] else [ps[0].host] + Hosts(ps[1..])
  }

  /** `h` does not end in a dot. */
  predicate IsStripped(h: string)
  {
    h == [] || h[|h| - 1] != '.'
  }

  /** No hostname in `ps` ends in a dot. */
  predicate AllStripped(ps: seq<MxPair>)
  {
    forall k :: 0 <= k < |ps| ==> IsStripped(ps[k].host)
  }

  lemma PairsStripped(records: seq<MxRecord>)
    ensures AllStripped(Pairs(records))
  {
    var ps := Pairs(records);
    forall k | 0 <= k < |ps| ensures IsStripped(ps[k].host) {
      var h := TrimTrailing(records[k].exchange, '.');
      assert ps[k].host == h;
    }
  }

  /** Rearranging the pairs keeps their number and keeps every hostname stripped. */
  lemma SameHostsStripped(a: seq<MxPair>, b: seq<MxPair>)
    requires multiset(a) == multiset(b)
    requires AllStripped(a)
    ensures |a| == |b| && AllStripped(b)
  {
    assert |multiset(a)| == |a| && |multiset(b)| == |b|;
    forall k | 0 <= k < |b| ensures IsStripped(b[k].host) {
      assert b[k] in multiset(a);
      var j :| 0 <= j < |a| && a[j] == b[k];
    }
  }

  /**
    The successful path of `get_mx_records`: the pairs sorted, then their
    hostnames, one per record and none ending in a dot.
   */
  function SortedHosts(records: seq<MxRecord>): (hosts: seq<string>)
    ensures |hosts| == |records|
    ensures forall k :: 0 <= k < |hosts| ==> IsStripped(hosts[k])
  {
    var pairs := Pairs(records);
    var sorted := SortPairs(pairs);
    PairsStripped(records);
    SameHostsStripped(pairs, sorted);
    Hosts(sorted)
  }

  /** `get_mx_records(domain)` applied to the resolver's answer for `domain`; any failure gives no hosts. */
  function GetMxRecords(answer: DnsAnswer): (hosts: seq<string>)
    ensures answer.ResolutionFailed? ==> hosts == []
    ensures answer.Answer? ==> |hosts| == |answer.records|
    ensures forall k :: 0 <= k < |hosts| ==> IsStripped(hosts[k])
  {
    match answer
    case ResolutionFailed => []
    case Answer(records) => SortedHosts(records)
  }

  /** The head of a sorted list is below every element of it. */
  lemma HeadIsLeast(a: seq<MxPair>, x: MxPair)
    requires Sorted(a) && x in multiset(a)
    ensures PairLe(a[0], x)
  {
    var i :| 0 <= i < |a| && a[i] == x;
    if i == 0 {
      StrLeReflexive(x.host);
    }
  }

  /** Two sorted arrangements of the same pairs start with the same pair. */
  lemma SameHead(a: seq<MxPair>, b: seq<MxPair>)
    requires Sorted(a) && Sorted(b) && a != [] && b != []
    requires multiset(a) == multiset(b)
    ensures a[0] == b[0]
  {
    assert a[0] in multiset(b) && b[0] in multiset(a);
    HeadIsLeast(a, b[0]);
    HeadIsLeast(b, a[0]);
    PairLeAntisymmetric(a[0], b[0]);
  }

  /** The tail of a sorted list is sorted and holds the other pairs. */
  lemma SortedTail(a: seq<MxPair>)
    requires Sorted(a) && a != []
    ensures Sorted(a[1..])
    ensures multiset(a[1..]) == multiset(a) - multiset{a[0]}
  {
    assert a == [a[0]] + a[1..];
  }

  /** Two sorted arrangements of the same pairs are the same list. */
  lemma {:induction false} SortedUnique(a: seq<MxPair>, b: seq<MxPair>)
    requires Sorted(a) && Sorted(b)
    requires multiset(a) == multiset(b)
    ensures a == b
  {
    if a != [] && b != [] {
      SameHead(a, b);
      SortedTail(a);
      SortedTail(b);
      SortedUnique(a[1..], b[1..]);
      assert a == [a[0]] + a[1..] && b == [b[0]] + b[1..];
    } else {
      assert |multiset(a)| == |a| && |multiset(b)| == |b|;
    }
  }

  /**
    The hostnames come out in the order of the sorted pairs: for any sorted
    arrangement `ps` of the stripped records, the result is its hostnames.
   */
  lemma MxRecordsOrdered(records: seq<MxRecord>, ps: seq<MxPair>)
    requires Sorted(ps) && multiset(ps) == multiset(Pairs(records))
    ensures GetMxRecords(Answer(records)) == Hosts(ps)
  {
    SortedUnique(SortPairs(Pairs(records)), ps);
  }

  /**
    The result lists the hostnames of the records in the order of non-decreasing
    preference (ties by hostname), one per record, each stripped of its trailing dots.
   */
  lemma MxRecordsSorted(records: seq<MxRecord>)
    ensures var hosts := GetMxRecords(Answer(records));
      exists ps: seq<MxPair> ::
        Sorted(ps) && multiset(ps) == multiset(Pairs(records)) && hosts == Hosts(ps)
  {
    var ps := SortPairs(Pairs(records));
    assert Sorted(ps) && multiset(ps) == multiset(Pairs(records));
  }
}
