/** The walk that answers a request for missing events. */
module MissingEvents {
  import opened Collections

  type Event = string

  const LIMIT_MAX := 50

  /** What is known about an event: whether it is stored, which events precede it, and whether the
      requester may see it and it can be sent. */
  datatype Known = Known(prev: seq<Event>, visible: bool, canonical: bool)

  predicate Sendable(db: map<Event, Known>, earliest: set<Event>, e: Event)
  {
    e in db && e !in earliest && db[e].visible && db[e].canonical
  }

  /** Index of the first event that can be sent, or the length. */
  function FirstSendable(db: map<Event, Known>, earliest: set<Event>, s: seq<Event>): (n: nat)
    ensures n <= |s|
    ensures forall i :: 0 <= i < n ==> !Sendable(db, earliest, s[i])
    ensures n < |s| ==> Sendable(db, earliest, s[n])
  {
    if s == [] || Sendable(db, earliest, s[0]) then 0 else 1 + FirstSendable(db, earliest, s[1..])
  }

  function Repeat(e: Event, n: nat): (s: seq<Event>)
    ensures |s| == n && forall i :: 0 <= i < n ==> s[i] == e
  {
    seq(n, i => e)
  }

  /** What the walk returns. It never moves past an event it has sent, so it sends the first event
      of the request that can be sent, as often as the limit allows. */
  function Response(db: map<Event, Known>, earliest: set<Event>, latest: seq<Event>, limit: nat): seq<Event>
  {
    var n := FirstSendable(db, earliest, latest);
    if n < |latest| then Repeat(latest[n], limit) else []
  }

  /** The walk itself: the queue grows while it is consumed, and the loop ends because each round
      either sends an event or moves on in the queue. */
  method GetMissingEvents(db: map<Event, Known>, earliest: set<Event>, latest: seq<Event>, requested: nat)
    returns (events: seq<Event>)
    ensures var limit := if requested < LIMIT_MAX then requested else LIMIT_MAX;
      events == Response(db, earliest, latest, limit)
    ensures |events| <= requested && |events| <= 50
    ensures events != [] ==> |events| == requested || |events| == 50
  {
    var limit := if requested < LIMIT_MAX then requested else LIMIT_MAX;
    var queued := latest;
    events := [];
    var i := 0;
    ghost var n := FirstSendable(db, earliest, latest);
    while i < |queued| && |events| < limit
      invariant |events| <= limit && i <= n && latest <= queued
      invariant events == [] ==> queued == latest
      invariant events != [] ==> i == n < |latest| && events == Repeat(latest[n], |events|)
      decreases limit - |events|, |queued| - i
    {
      var e := queued[i];
      if e !in db {
        i := i + 1;
        continue;
      }
      if e in earliest {
        i := i + 1;
        continue;
      }
      if !db[e].visible {
        i := i + 1;
        continue;
      }
      if !db[e].canonical {
        i := i + 1;
        continue;
      }
      queued := queued + db[e].prev;
      events := events + [e];
    }
  }

  /** Everything returned may be sent, at most `limit` times over. */
  lemma ResponseSendable(db: map<Event, Known>, earliest: set<Event>, latest: seq<Event>, limit: nat, e: Event)
    requires e in Response(db, earliest, latest, limit)
    ensures e in latest && e in db && e !in earliest && db[e].visible && db[e].canonical
    ensures |Response(db, earliest, latest, limit)| <= limit
  {
    var r := Response(db, earliest, latest, limit);
    var i :| 0 <= i < |r| && r[i] == e;
  }

  /** The response is free of repetitions exactly when the limit is at most one or nothing can be sent. */
  lemma DistinctExactly(db: map<Event, Known>, earliest: set<Event>, latest: seq<Event>, limit: nat)
    ensures NoRepeats(Response(db, earliest, latest, limit))
        <==> limit <= 1 || forall e :: e in latest ==> e !in db || e in earliest || !db[e].visible || !db[e].canonical
  {
    var r := Response(db, earliest, latest, limit);
    var n := FirstSendable(db, earliest, latest);
    if n < |latest| && limit > 1 {
      assert r[0] == r[1] && latest[n] in latest;
    }
  }

  /** So the predecessors that the request is about are never returned unless they were named in it:
      here the missing event "b" is not. */
  lemma PredecessorsNotReturned()
    ensures var db := map["a" := Known(["b"], true, true), "b" := Known([], true, true)];
      Response(db, {}, ["a"], 2) == ["a", "a"]
  {
    var db := map["a" := Known(["b"], true, true), "b" := Known([], true, true)];
    assert FirstSendable(db, {}, ["a"]) == 0;
    assert Repeat("a", 2) == ["a", "a"];
  }
}
