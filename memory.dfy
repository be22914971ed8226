/**
 * The in-memory store: one map from a composite string key to the stored
 * record. Each method is one atomic step (the Go code serialises them with a
 * read-write mutex); records are values, so the copies the Go code makes on
 * the way in and out are implicit.
 */
module Memory {
  import opened Wrappers
  import opened Records

  /* ---------------- the composite key ---------------- */

  function DigitChar(d: nat): (c: char)
    requires d < 10
    ensures '0' <= c <= '9'
  {
    ('0' as int + d) as char
  }

  /** The decimal form Go's %d gives a non-negative integer: no sign, no leading zeros. */
  function Decimal(n: nat): (s: string)
    ensures |s| >= 1
    ensures forall i :: 0 <= i < |s| ==> '0' <= s[i] <= '9'
    decreases n
  {
    if n < 10 then [DigitChar(n)] else Decimal(n / 10) + [DigitChar(n % 10)]
  }

  /** Distinct numbers have distinct decimal forms. */
  lemma {:induction false} DecimalInjective(a: nat, b: nat)
    requires Decimal(a) == Decimal(b)
    ensures a == b
    decreases a
  {
    if a >= 10 && b >= 10 {
      var s := Decimal(a);
      var n := |s|;
      assert s[n - 1] == DigitChar(a % 10) == DigitChar(b % 10);
      assert Decimal(a / 10) == s[..n - 1] == Decimal(b / 10);
      DecimalInjective(a / 10, b / 10);
    }
  }

  /** makeKey: Go's fmt.Sprintf("%s:%d:%s", ip, port, service). */
  function MakeKey(ip: string, port: Uint32, service: string): (key: string)
    ensures |key| >= |ip| + |service| + 3
  {
    ip + ":" + Decimal(port) + ":" + service
  }

  /** The key a record is stored under. */
  function KeyOf(r: ServiceRecord): (key: string)
  {
    MakeKey(r.ip, r.port, r.service)
  }

  /** When one split ends in a longer tail, that tail contains the other split's separator. */
  lemma SeparatorInLongerTail(s1: string, t1: string, s2: string, t2: string)
    requires s1 + [':'] + t1 == s2 + [':'] + t2
    requires |t1| < |t2|
    ensures ':' in t2
  {
    var x := s1 + [':'] + t1;
    assert x[|s1|] == ':';
    assert t2[|s1| - |s2| - 1] == x[|s1|];
  }

  /** A separator followed by a colon-free tail splits a string in one way only. */
  lemma SplitAtLastColon(s1: string, t1: string, s2: string, t2: string)
    requires ':' !in t1 && ':' !in t2
    requires s1 + [':'] + t1 == s2 + [':'] + t2
    ensures s1 == s2 && t1 == t2
  {
    var x := s1 + [':'] + t1;
    if |t1| < |t2| {
      SeparatorInLongerTail(s1, t1, s2, t2);
      assert false;
    } else if |t2| < |t1| {
      SeparatorInLongerTail(s2, t2, s1, t1);
      assert false;
    }
    assert s1 == x[..|s1|] == s2;
    assert t1 == x[|s1| + 1..] == t2;
  }

  /**
   * Keys identify endpoints: when neither service name contains ':', two keys
   * are equal exactly when the (ip, port, service) triples are.
   */
  lemma MakeKeyInjective(ip1: string, port1: Uint32, service1: string,
                         ip2: string, port2: Uint32, service2: string)
    requires ':' !in service1 && ':' !in service2
    ensures MakeKey(ip1, port1, service1) == MakeKey(ip2, port2, service2)
            <==> ip1 == ip2 && port1 == port2 && service1 == service2
  {
    if MakeKey(ip1, port1, service1) == MakeKey(ip2, port2, service2) {
      var d1, d2 := Decimal(port1), Decimal(port2);
      assert MakeKey(ip1, port1, service1) == (ip1 + [':'] + d1) + [':'] + service1;
      assert MakeKey(ip2, port2, service2) == (ip2 + [':'] + d2) + [':'] + service2;
      SplitAtLastColon(ip1 + [':'] + d1, service1, ip2 + [':'] + d2, service2);
      assert ':' !in d1 && ':' !in d2;
      SplitAtLastColon(ip1, d1, ip2, d2);
      DecimalInjective(port1, port2);
    }
  }

  /** Without that condition keys collide: two different endpoints share one key. */
  lemma MakeKeyCollision()
    ensures MakeKey(":", 1, "80:HTTP") == MakeKey("::1", 80, "HTTP")
  {
    assert Decimal(80) == Decimal(8) + [DigitChar(0)] == "80";
    assert Decimal(1) == "1";
  }

  /* ---------------- the stored map and its updates ---------------- */

  /** The record stored under a key, if any. */
  function Stored(m: map<string, ServiceRecord>, key: string): (found: Option<ServiceRecord>)
  {
    if key in m then Some(m[key]) else None
  }

  /** Every record sits under the key built from its own fields. */
  ghost predicate Keyed(m: map<string, ServiceRecord>)
  {
    forall k :: k in m ==> KeyOf(m[k]) == k
  }

  /** The map after Upsert(r): written when r supersedes what is stored, unchanged otherwise. */
  function Upserted(m: map<string, ServiceRecord>, r: ServiceRecord): (m': map<string, ServiceRecord>)
    ensures Keyed(m) ==> Keyed(m')
  {
    var key := KeyOf(r);
    if Supersedes(r, Stored(m, key)) then m[key := r] else m
  }

  /* ---------------- listing ---------------- */

  /** Non-increasing in LastTimestamp. */
  ghost predicate NonIncreasing(s: seq<ServiceRecord>)
  {
    forall p, q :: 0 <= p < q < |s| ==> s[p].lastTimestamp >= s[q].lastTimestamp
  }

  /** s holds every stored record exactly once and nothing else. */
  ghost predicate IsListing(m: map<string, ServiceRecord>, s: seq<ServiceRecord>)
  {
    && |s| == |m|
    && (forall k :: k in m ==> m[k] in s)
    && (forall x :: x in s ==> x in m.Values)
    && (forall x :: x in s ==> multiset(s)[x] == 1)
  }

  /** Reordering a listing gives a listing. */
  lemma ListingPermutation(m: map<string, ServiceRecord>, s: seq<ServiceRecord>, t: seq<ServiceRecord>)
    requires IsListing(m, s) && multiset(s) == multiset(t)
    ensures IsListing(m, t)
  {
    assert |t| == |multiset(t)| == |multiset(s)| == |s|;
    forall x | x in t ensures x in s {
      assert x in multiset(t);
    }
    forall k | k in m ensures m[k] in t {
      assert m[k] in multiset(s);
    }
  }

  /** The length of a page of a listing of n records: offset dropped, then at most limit if limit > 0. */
  function PageSize(n: nat, limit: int, offset: nat): (size: nat)
    ensures offset >= n ==> size == 0
    ensures offset < n ==> 0 < size <= n - offset
    ensures limit > 0 ==> size <= limit
    ensures limit <= 0 && offset < n ==> size == n - offset
    ensures limit > 0 && offset < n && size < n - offset ==> size == limit
  {
    if offset >= n then 0
    else if 0 < limit < n - offset then limit
    else n - offset
  }

  /** The first i cells of a are non-increasing in LastTimestamp. */
  ghost predicate DescendingUpTo(a: array<ServiceRecord>, i: int)
    reads a
    requires 0 <= i <= a.Length
  {
    forall p, q :: 0 <= p < q < i ==> a[p].lastTimestamp >= a[q].lastTimestamp
  }

  /** Exchanges two cells. */
  method Swap(a: array<ServiceRecord>, i: int, j: int)
    requires 0 <= i < a.Length && 0 <= j < a.Length
    modifies a
    ensures a[i] == old(a[j]) && a[j] == old(a[i])
    ensures forall k :: 0 <= k < a.Length && k != i && k != j ==> a[k] == old(a[k])
    ensures multiset(a[..]) == old(multiset(a[..]))
  {
    a[i], a[j] := a[j], a[i];
  }

  /** Moves a[i] left past every cell with a smaller timestamp. */
  method InsertLast(a: array<ServiceRecord>, i: int)
    requires 0 <= i < a.Length
    requires DescendingUpTo(a, i)
    modifies a
    ensures DescendingUpTo(a, i + 1)
    ensures multiset(a[..]) == old(multiset(a[..]))
  {
    var j := i;
    while j > 0 && a[j - 1].lastTimestamp < a[j].lastTimestamp
      invariant 0 <= j <= i
      invariant multiset(a[..]) == old(multiset(a[..]))
      invariant forall p, q :: 0 <= p < q <= i && p != j && q != j ==>
                  a[p].lastTimestamp >= a[q].lastTimestamp
      invariant forall q :: j < q <= i ==> a[j].lastTimestamp > a[q].lastTimestamp
    {
      Swap(a, j - 1, j);
      j := j - 1;
    }
  }

  /** sort.Slice with "greater timestamp first", in place on the slice's backing array. */
  method SortByTimestampDesc(a: array<ServiceRecord>)
    modifies a
    ensures NonIncreasing(a[..])
    ensures multiset(a[..]) == old(multiset(a[..]))
  {
    var i := 0;
    while i < a.Length
      invariant 0 <= i <= a.Length
      invariant DescendingUpTo(a, i)
      invariant multiset(a[..]) == old(multiset(a[..]))
    {
      InsertLast(a, i);
      i := i + 1;
    }
  }

  /* ---------------- the store ---------------- */

  /** The append loop of List: one entry per stored record, in whatever order the map yields them. */
  method CollectRecords(m: map<string, ServiceRecord>) returns (all: seq<ServiceRecord>)
    requires Keyed(m)
    ensures IsListing(m, all)
  {
    all := [];
    var pending := m.Keys;
    while pending != {}
      invariant pending <= m.Keys
      invariant |all| + |pending| == |m|
      invariant forall k :: k in m && k !in pending ==> m[k] in all
      invariant forall x :: x in all ==> KeyOf(x) in m && KeyOf(x) !in pending && m[KeyOf(x)] == x
      invariant forall x :: x in all ==> multiset(all)[x] == 1
      decreases |pending|
    {
      var k :| k in pending;
      assert m[k] !in all;
      all := all + [m[k]];
      pending := pending - {k};
    }
  }

  class MemoryStore {
    var records: map<string, ServiceRecord>

    ghost predicate Valid()
      reads this
    {
      Keyed(records)
    }

    /** NewMemoryStore: an empty map. */
    constructor ()
      ensures Valid() && records == map[]
    {
      records := map[];
    }

    /**
     * Writes r under makeKey(r.IP, r.Port, r.Service) when no record is
     * stored there or r's timestamp is strictly greater; reports whether it did.
     */
    method Upsert(r: ServiceRecord) returns (applied: bool)
      requires Valid()
      modifies this
      ensures Valid()
      ensures applied <==> Supersedes(r, Stored(old(records), KeyOf(r)))
      ensures records == Upserted(old(records), r)
    {
      var key := MakeKey(r.ip, r.port, r.service);
      if key !in records || r.lastTimestamp > records[key].lastTimestamp {
        records := records[key := r];
        applied := true;
      } else {
        applied := false;
      }
    }

    /** The record stored under makeKey(ip, port, service), or None. */
    method Get(ip: string, port: Uint32, service: string) returns (found: Option<ServiceRecord>)
      requires Valid()
      ensures found == Stored(records, MakeKey(ip, port, service))
      ensures found.Some? ==> KeyOf(found.value) == MakeKey(ip, port, service)
      ensures found.Some? && ':' !in service && ':' !in found.value.service ==>
                found.value.ip == ip && found.value.port == port && found.value.service == service
    {
      var key := MakeKey(ip, port, service);
      if key in records {
        found := Some(records[key]);
        var r := found.value;
        if ':' !in service && ':' !in r.service {
          MakeKeyInjective(r.ip, r.port, r.service, ip, port, service);
        }
      } else {
        found := None;
      }
    }

    /**
     * Every stored record, sorted by timestamp descending, offset dropped and
     * cut to limit when limit > 0. Which of several records with equal
     * timestamps comes first is not fixed: `ordered` is the listing this
     * call happened to sort.
     */
    method List(limit: int, offset: int) returns (page: seq<ServiceRecord>, ghost ordered: seq<ServiceRecord>)
      requires Valid()
      requires offset >= 0
      ensures IsListing(records, ordered) && NonIncreasing(ordered)
      ensures |page| == PageSize(|records|, limit, offset)
      ensures forall i :: 0 <= i < |page| ==> page[i] == ordered[offset + i]
      ensures NonIncreasing(page)
      ensures offset >= |records| ==> page == []
      ensures limit <= 0 && offset == 0 ==> page == ordered
    {
      var m := records;
      var all := CollectRecords(m);

      var a := new ServiceRecord[|all|](i requires 0 <= i < |all| => all[i]);
      assert a[..] == all;
      SortByTimestampDesc(a);
      ordered := a[..];
      ListingPermutation(m, all, ordered);

      if offset >= a.Length {
        page := [];
        return;
      }
      page := a[offset..];
      if limit > 0 && limit < |page| {
        page := page[..limit];
      }
    }

    /** Close is a no-op that never fails. */
    method Close() returns (err: Option<string>)
      ensures err == None
    {
      err := None;
    }

    /** The number of stored records. */
    method Len() returns (n: int)
      ensures n == |records|
    {
      n := |records|;
    }
  }
}
