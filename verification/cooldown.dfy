/**
  The per-identity cooldown kept in the cache: one record per identity whose
  value is the absolute time (in Unix seconds) at which it expires. The
  cache's own TTL deletion is modelled by treating a record as absent once
  `now >= expiresAt`. The stored expiry is a whole second and the cache's
  TTL starts at the write, so the cache may keep a record up to a second
  past `expiresAt`: times this model allows at `expiresAt` are the earliest
  the server can allow, not times it must.
 */
module Cooldown {

  /** Seconds an identity waits between placements (five minutes). */
  const WindowSeconds := 300

  /** Identity (the account's e-mail) to expiry time. */
  type Records = map<string, int>

  /** The cache still holds a record for `id` at time `now`. */
  predicate Live(m: Records, id: string, now: int)
  {
    id in m && now < m[id]
  }

  datatype Decision = Allowed(expiresAt: int) | Denied(expiresAt: int)

  datatype Reservation = Reservation(decision: Decision, records: Records)

  /**
    The rate-limit block of the `/set_pixel` handler: with no live record, a
    record expiring `WindowSeconds` from now is written and the request
    goes on; with one, its stored expiry is reported and nothing is written.
   */
  function Reserve(m: Records, id: string, now: int): (r: Reservation)
    ensures r.decision.Denied? <==> Live(m, id, now)
    ensures r.decision.Denied? ==> r.decision.expiresAt == m[id] && r.records == m
    ensures r.decision.Allowed? ==> r.decision.expiresAt == now + WindowSeconds
    ensures r.decision.Allowed? ==> r.records.Keys == m.Keys + {id} && r.records[id] == now + WindowSeconds
    ensures forall k :: k in m && k != id ==> k in r.records && r.records[k] == m[k]
  {
    if Live(m, id, now) then Reservation(Denied(m[id]), m)
    else Reservation(Allowed(now + WindowSeconds), m[id := now + WindowSeconds])
  }

  /** An expired record behaves exactly as if the cache had already deleted it. */
  lemma ExpiredRecordActsAbsent(m: Records, id: string, now: int)
    requires id in m && now >= m[id]
    ensures Reserve(m, id, now) == Reserve(m - {id}, id, now)
  {
    assert m[id := now + WindowSeconds] == (m - {id})[id := now + WindowSeconds];
  }

  /** A reservation denies every later attempt by the same identity until it lapses. */
  lemma DeniedWithinWindow(m: Records, id: string, now: int, later: int)
    requires Reserve(m, id, now).decision.Allowed?
    requires later < now + WindowSeconds
    ensures Reserve(Reserve(m, id, now).records, id, later) == Reservation(Denied(now + WindowSeconds), Reserve(m, id, now).records)
  {
  }

  /** Once the window has passed, the identity is allowed again with a fresh expiry. */
  lemma AllowedAfterWindow(m: Records, id: string, now: int, later: int)
    requires Reserve(m, id, now).decision.Allowed?
    requires later >= now + WindowSeconds
    ensures Reserve(Reserve(m, id, now).records, id, later).decision == Allowed(later + WindowSeconds)
  {
  }

  /** The times, among `times`, at which attempts by `id` are allowed, in order. */
  function Replay(m: Records, id: string, times: seq<int>): seq<int>
    decreases |times|
  {
    if |times| == 0 then []
    else
      var r := Reserve(m, id, times[0]);
      (if r.decision.Allowed? then [times[0]] else []) + Replay(r.records, id, times[1..])
  }

  /** No attempt is allowed before the record in force when the replay starts has lapsed. */
  lemma {:induction false} ReplayRespectsExistingRecord(m: Records, id: string, times: seq<int>)
    requires id in m
    ensures forall k :: 0 <= k < |Replay(m, id, times)| ==> Replay(m, id, times)[k] >= m[id]
    decreases |times|
  {
    if |times| > 0 {
      var r := Reserve(m, id, times[0]);
      ReplayRespectsExistingRecord(r.records, id, times[1..]);
    }
  }

  /** Any two entries of `a`, taken in order, are at least one window apart. */
  predicate Spaced(a: seq<int>)
  {
    forall i, j :: 0 <= i < j < |a| ==> a[j] >= a[i] + WindowSeconds
  }

  /**
    At most one allowed attempt per identity per window: any two allowed
    attempts, in whatever order the attempts arrive, are at least
    `WindowSeconds` apart.
   */
  lemma {:induction false} ReplayAllowedAreSpaced(m: Records, id: string, times: seq<int>)
    ensures Spaced(Replay(m, id, times))
    decreases |times|
  {
    if |times| > 0 {
      var r := Reserve(m, id, times[0]);
      var rest := Replay(r.records, id, times[1..]);
      ReplayAllowedAreSpaced(r.records, id, times[1..]);
      var a := Replay(m, id, times);
      if r.decision.Allowed? {
        assert a == [times[0]] + rest;
        ReplayRespectsExistingRecord(r.records, id, times[1..]);
        forall i, j | 0 <= i < j < |a|
          ensures a[j] >= a[i] + WindowSeconds
        {
          assert a[j] == rest[j - 1];
          if i > 0 {
            assert a[i] == rest[i - 1];
          } else {
            assert a[i] == times[0];
          }
        }
      } else {
        assert a == rest;
      }
    }
  }
}
