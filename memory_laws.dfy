/**
 * What the Upsert rule guarantees across calls: the frame of one write, the
 * independence of endpoints, idempotence under redelivery, and convergence
 * of any sequence of writes for one key to the maximum timestamp seen.
 */
module MemoryLaws {
  import opened Wrappers
  import opened Records
  import opened Memory

  /* ---------------- one Upsert ---------------- */

  /**
   * Upsert touches at most the entry under the record's own key, always
   * leaves a record there, and adds one entry exactly when the key was absent.
   */
  lemma UpsertFrame(m: map<string, ServiceRecord>, r: ServiceRecord)
    ensures var m' := Upserted(m, r);
            && KeyOf(r) in m'
            && (forall k :: k != KeyOf(r) ==> Stored(m', k) == Stored(m, k))
            && |m'| == if KeyOf(r) in m then |m| else |m| + 1
  {
  }

  /** A record that is not strictly newer changes nothing, ties included. */
  lemma UpsertNotNewerIsNoop(m: map<string, ServiceRecord>, r: ServiceRecord)
    requires KeyOf(r) in m && r.lastTimestamp <= m[KeyOf(r)].lastTimestamp
    ensures Upserted(m, r) == m
  {
  }

  /** A record for a new key, or a strictly newer one, is stored wholesale. */
  lemma UpsertNewerReplaces(m: map<string, ServiceRecord>, r: ServiceRecord)
    requires KeyOf(r) !in m || r.lastTimestamp > m[KeyOf(r)].lastTimestamp
    ensures Stored(Upserted(m, r), KeyOf(r)) == Some(r)
  {
  }

  /** The stored timestamp under any key never goes down. */
  lemma StoredTimestampMonotone(m: map<string, ServiceRecord>, r: ServiceRecord, k: string)
    requires k in m
    ensures k in Upserted(m, r) && Upserted(m, r)[k].lastTimestamp >= m[k].lastTimestamp
  {
  }

  /**
   * Redelivery is harmless: a second identical Upsert reports "skipped" and
   * leaves the map as the first one left it.
   */
  lemma UpsertIdempotent(m: map<string, ServiceRecord>, r: ServiceRecord)
    ensures !Supersedes(r, Stored(Upserted(m, r), KeyOf(r)))
    ensures Upserted(Upserted(m, r), r) == Upserted(m, r)
  {
  }

  /**
   * Endpoints are independent: an Upsert for one (ip, port, service) triple
   * leaves what Get returns for any other triple unchanged, provided neither
   * service name contains ':'.
   */
  lemma EndpointsIndependent(m: map<string, ServiceRecord>, r: ServiceRecord,
                             ip: string, port: Uint32, service: string)
    requires ':' !in service && ':' !in r.service
    requires (ip, port, service) != (r.ip, r.port, r.service)
    ensures Stored(Upserted(m, r), MakeKey(ip, port, service)) == Stored(m, MakeKey(ip, port, service))
  {
    MakeKeyInjective(ip, port, service, r.ip, r.port, r.service);
  }

  /**
   * With a service name containing ':' the independence fails: a write for
   * (":", 1, "80:HTTP") is what Get returns for ("::1", 80, "HTTP").
   */
  lemma CollidingEndpointsShareARecord(r: ServiceRecord)
    requires r.ip == ":" && r.port == 1 && r.service == "80:HTTP"
    ensures Stored(Upserted(map[], r), MakeKey("::1", 80, "HTTP")) == Some(r)
  {
    MakeKeyCollision();
  }

  /* ---------------- a sequence of Upserts ---------------- */

  /** The map after Upserting rs one by one, in order. */
  function UpsertAll(m: map<string, ServiceRecord>, rs: seq<ServiceRecord>): (m': map<string, ServiceRecord>)
    decreases |rs|
  {
    if rs == [] then m else Upserted(UpsertAll(m, rs[..|rs| - 1]), rs[|rs| - 1])
  }

  /** Every record in rs is stored under key. */
  ghost predicate SameKey(rs: seq<ServiceRecord>, key: string)
  {
    forall j :: 0 <= j < |rs| ==> KeyOf(rs[j]) == key
  }

  /** rs[i] carries the maximum timestamp of rs and no earlier record carries it. */
  ghost predicate FirstMaximum(rs: seq<ServiceRecord>, i: int)
  {
    && 0 <= i < |rs|
    && (forall j :: 0 <= j < |rs| ==> rs[j].lastTimestamp <= rs[i].lastTimestamp)
    && (forall j :: 0 <= j < i ==> rs[j].lastTimestamp < rs[i].lastTimestamp)
  }

  /** Every non-empty sequence has a first maximum. */
  lemma {:induction false} FirstMaximumExists(rs: seq<ServiceRecord>) returns (i: int)
    requires |rs| > 0
    ensures FirstMaximum(rs, i)
    decreases |rs|
  {
    if |rs| == 1 {
      i := 0;
    } else {
      var p := rs[..|rs| - 1];
      var k := FirstMaximumExists(p);
      assert forall j :: 0 <= j < |p| ==> p[j] == rs[j];
      if rs[|rs| - 1].lastTimestamp > rs[k].lastTimestamp {
        i := |rs| - 1;
      } else {
        i := k;
      }
    }
  }

  /**
   * Latest observation wins: after Upserting any sequence of records for one
   * key into a map without it, the key holds the first record that carries
   * the maximum timestamp, and every other key is as it was.
   */
  lemma {:induction false} LatestObservationWins(m: map<string, ServiceRecord>, rs: seq<ServiceRecord>,
                                                key: string, i: int)
    requires key !in m && SameKey(rs, key) && FirstMaximum(rs, i)
    ensures Stored(UpsertAll(m, rs), key) == Some(rs[i])
    ensures forall k :: k != key ==> Stored(UpsertAll(m, rs), k) == Stored(m, k)
    decreases |rs|
  {
    var n := |rs|;
    var p := rs[..n - 1];
    var last := rs[n - 1];
    assert forall j :: 0 <= j < |p| ==> p[j] == rs[j];
    assert UpsertAll(m, rs) == Upserted(UpsertAll(m, p), last);
    if n == 1 {
      assert UpsertAll(m, p) == m;
    } else if i == n - 1 {
      var k := FirstMaximumExists(p);
      LatestObservationWins(m, p, key, k);
      assert last.lastTimestamp > p[k].lastTimestamp;
    } else {
      assert FirstMaximum(p, i);
      LatestObservationWins(m, p, key, i);
      assert last.lastTimestamp <= rs[i].lastTimestamp;
    }
  }

  /**
   * Convergence, stated without reference to order: the record left under
   * the key is one of the records written and none of them is newer.
   */
  lemma ConvergesToMaximum(m: map<string, ServiceRecord>, rs: seq<ServiceRecord>, key: string)
    requires key !in m && SameKey(rs, key) && |rs| > 0
    ensures var f := Stored(UpsertAll(m, rs), key);
            && f.Some? && f.value in rs
            && forall j :: 0 <= j < |rs| ==> rs[j].lastTimestamp <= f.value.lastTimestamp
  {
    var i := FirstMaximumExists(rs);
    LatestObservationWins(m, rs, key, i);
  }

  /**
   * The n-th Upsert of a sequence for one key reports "applied" exactly when
   * its timestamp is strictly greater than every earlier one.
   */
  lemma AppliedExactlyOnNewMaximum(m: map<string, ServiceRecord>, rs: seq<ServiceRecord>, key: string, n: int)
    requires key !in m && SameKey(rs, key) && 0 <= n < |rs|
    ensures Supersedes(rs[n], Stored(UpsertAll(m, rs[..n]), key))
            <==> forall j :: 0 <= j < n ==> rs[j].lastTimestamp < rs[n].lastTimestamp
  {
    var p := rs[..n];
    assert forall j :: 0 <= j < |p| ==> p[j] == rs[j];
    if n == 0 {
      assert UpsertAll(m, p) == m;
    } else {
      var i := FirstMaximumExists(p);
      LatestObservationWins(m, p, key, i);
    }
  }

  /** A record of the out-of-order scenario: endpoint 3.3.3.3:22/SSH. */
  function SshObservation(t: Int64, response: string): (r: ServiceRecord)
  {
    ServiceRecord("3.3.3.3", 22, "SSH", t, response)
  }

  /** Timestamps 1000, 2000, 500, 1500, 3000 for one endpoint, in arrival order. */
  function OutOfOrderArrivals(): (rs: seq<ServiceRecord>)
    ensures |rs| == 5
    ensures forall j :: 0 <= j < |rs| ==> KeyOf(rs[j]) == MakeKey("3.3.3.3", 22, "SSH")
  {
    [SshObservation(1000, "response 1000"), SshObservation(2000, "response 2000"),
     SshObservation(500, "response 500"), SshObservation(1500, "response 1500"),
     SshObservation(3000, "response 3000")]
  }

  /**
   * Only the first, second and fifth of those Upserts report "applied", and
   * the final record is the one with timestamp 3000.
   */
  lemma OutOfOrderScenario()
    ensures var rs, key := OutOfOrderArrivals(), MakeKey("3.3.3.3", 22, "SSH");
            && Supersedes(rs[0], Stored(UpsertAll(map[], rs[..0]), key))
            && Supersedes(rs[1], Stored(UpsertAll(map[], rs[..1]), key))
            && !Supersedes(rs[2], Stored(UpsertAll(map[], rs[..2]), key))
            && !Supersedes(rs[3], Stored(UpsertAll(map[], rs[..3]), key))
            && Supersedes(rs[4], Stored(UpsertAll(map[], rs[..4]), key))
            && Stored(UpsertAll(map[], rs), key) == Some(SshObservation(3000, "response 3000"))
  {
    var rs, key := OutOfOrderArrivals(), MakeKey("3.3.3.3", 22, "SSH");
    var m: map<string, ServiceRecord> := map[];
    assert SameKey(rs, key);
    AppliedExactlyOnNewMaximum(m, rs, key, 0);
    AppliedExactlyOnNewMaximum(m, rs, key, 1);
    AppliedExactlyOnNewMaximum(m, rs, key, 2);
    assert rs[1].lastTimestamp >= rs[2].lastTimestamp;
    AppliedExactlyOnNewMaximum(m, rs, key, 3);
    assert rs[1].lastTimestamp >= rs[3].lastTimestamp;
    AppliedExactlyOnNewMaximum(m, rs, key, 4);
    assert FirstMaximum(rs, 4);
    LatestObservationWins(m, rs, key, 4);
  }
}
