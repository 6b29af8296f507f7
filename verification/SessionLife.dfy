/**
  How long a session lives, said in times and without the functions of the machine: what one lookup and
  one creation do to the store, until when the session can then be resumed, and what the collector takes.
  A lookup by any connection sets the deadline anew, so only the last one counts.
 */
module SessionLife {
  import opened SessionMachine

  // ------------------------------------------------------------ the deadline

  /** For the times and durations that the program has, the deadline is the sum if that is a signed
      64-bit number; otherwise it lies in the past. */
  lemma ExpiryExactly(now: int, keepalive: nat)
    requires 0 <= now < 0x8000_0000_0000_0000 && keepalive < 0x1_0000_0000_0000_0000
    ensures if now + keepalive < 0x8000_0000_0000_0000
            then Expiry(now, keepalive) == now + keepalive
            else Expiry(now, keepalive) < now
  {
  }

  /** The time and the duration have a deadline. */
  predicate InRange(now: int, keepalive: nat) {
    0 <= now && now + keepalive < 0x8000_0000_0000_0000
  }

  /** What is stored under `id` at a state, seen by a lookup at `now1` from the address `ip`. */
  datatype Finding = Missing | Expired | Foreign | Usable

  function Found<O, V>(s: State<O, V>, id: Id, mode: ValidateIP, now1: int, ip: string): Finding
    requires id in s.store ==> s.store[id] in s.objs
  {
    if id !in s.store then Missing
    else if s.objs[s.store[id]].expires <= now1 then Expired
    else if mode != Off && s.objs[s.store[id]].sourceIP != ip then Foreign
    else Usable
  }

  /** What a lookup changes.  A usable session is taken, which gives it a new deadline; an expired one and,
      in strict mode, one of another address are erased; nothing else changes but the time. */
  lemma LookupOutcome<O, V>(s: State<O, V>, c: ConnId, id: Id, mode: ValidateIP, now1: int, now2: int,
                            keepalive: nat)
    requires Inv(s) && Enabled(s, Resume(c, id, mode, now1, now2, keepalive)) && InRange(now2, keepalive)
    ensures var s' := Apply(s, Resume(c, id, mode, now1, now2, keepalive));
            var found := Found(s, id, mode, now1, s.conns[c].ip);
            var gone := found == Expired || (found == Foreign && mode == Strict);
            && s' == s.(clock := now2, store := s'.store, objs := s'.objs, conns := s'.conns)
            && s'.objs.Keys == s.objs.Keys && s'.conns.Keys == s.conns.Keys
            && (forall i :: i in s'.store <==> i in s.store && !(i == id && gone))
            && (forall i :: i in s'.store ==> s'.store[i] == s.store[i])
            && (forall o :: o in s.objs ==>
                  s'.objs[o].data == s.objs[o].data && s'.objs[o].sourceIP == s.objs[o].sourceIP)
            && (forall o :: o in s.objs ==>
                  s'.objs[o].expires == if found == Usable && o == s.store[id] then now2 + keepalive
                                        else s.objs[o].expires)
            && (forall d :: d in s.conns ==> s'.conns[d].ip == s.conns[d].ip && s'.conns[d].id == s.conns[d].id)
            && (forall d :: d in s.conns ==>
                  s'.conns[d].phase == if found == Usable && d == c then Starting(s.store[id], id)
                                       else s.conns[d].phase)
  {
    LookupCases(s, c, id, mode, now1, now2, keepalive);
    hide *;
  }

  lemma LookupCases<O, V>(s: State<O, V>, c: ConnId, id: Id, mode: ValidateIP, now1: int, now2: int, keepalive: nat)
    requires Inv(s) && Enabled(s, Resume(c, id, mode, now1, now2, keepalive)) && InRange(now2, keepalive)
    ensures c in s.conns && (id in s.store ==> s.store[id] in s.objs)
    ensures var s' := Apply(s, Resume(c, id, mode, now1, now2, keepalive));
            match Found(s, id, mode, now1, s.conns[c].ip)
            case Missing => s' == s.(clock := now2) && id !in s.store
            case Expired => s' == s.(clock := now2, store := s.store - {id})
            case Foreign => s' == s.(clock := now2, store := if mode == Strict then s.store - {id} else s.store)
            case Usable =>
              id in s.store &&
              var o := s.store[id];
              s' == s.(clock := now2, objs := s.objs[o := s.objs[o].(expires := now2 + keepalive)],
                       conns := s.conns[c := s.conns[c].(phase := Starting(o, id))])
  {
    hide ConnInv;
    ExpiryInRange(now2, keepalive);
    hide Expiry;
  }

  lemma ExpiryInRange(now: int, keepalive: nat)
    requires InRange(now, keepalive)
    ensures Expiry(now, keepalive) == now + keepalive
  {
  }

  /** A creation stores one new object, without data, with its deadline and the address of the connection. */
  lemma CreationOutcome<O, V>(s: State<O, V>, c: ConnId, id: Id, o: O, now: int, keepalive: nat)
    requires Inv(s) && Enabled(s, Create(c, id, o, now, keepalive)) && InRange(now, keepalive)
    ensures var s' := Apply(s, Create(c, id, o, now, keepalive));
            && s'.clock == now && s'.store == s.store[id := o] && s'.origin == s.origin[o := id]
            && s'.objs == s.objs[o := Obj(map[], now + keepalive, s.conns[c].ip)]
            && s'.conns.Keys == s.conns.Keys && s'.conns[c] == Conn(s.conns[c].ip, s.conns[c].id, Starting(o, id))
            && forall d :: d in s.conns && d != c ==> s'.conns[d] == s.conns[d]
  {
    ExpiryInRange(now, keepalive);
  }

  // ------------------------------------------------------------ how long it lives

  /** The event looks the id up with an earlier deadline. */
  predicate Shortens<O, V>(e: Event<O, V>, id: Id, deadline: int) {
    e.Resume? && e.id == id && !(InRange(e.now2, e.keepalive) && deadline <= e.now2 + e.keepalive)
  }

  lemma DeadlineStep<O, V>(s: State<O, V>, e: Event<O, V>, id: Id, o: O, deadline: int)
    requires Inv(s) && Enabled(s, e) && id in s.store && s.store[id] == o
    requires s.objs[o].expires >= deadline && !Shortens(e, id, deadline)
    ensures o in Apply(s, e).objs && Apply(s, e).objs[o].expires >= deadline
    ensures Apply(s, e).objs[o].sourceIP == s.objs[o].sourceIP
  {
    hide ConnInv, Expiry;
    if e.Resume? && e.id == id { ExpiryInRange(e.now2, e.keepalive); }
    if e.Resume? && e.id != id { assert e.id in s.store ==> s.store[e.id] != o; }
  }

  /** In a run that does not harm it and does not look it up with an earlier deadline, a session lives on as
      long as its deadline has not come. */
  lemma {:induction false} KeptAlive<O, V>(s: State<O, V>, es: seq<Event<O, V>>, id: Id, o: O, deadline: int)
    requires Inv(s) && Runs(s, es) && id in s.store && s.store[id] == o && s.objs[o].expires >= deadline
    requires Unharmed(s, es, id, o) && (forall e :: e in es ==> !Shortens(e, id, deadline))
    requires After(s, es).clock < deadline
    ensures var t := After(s, es);
            && id in t.store && t.store[id] == o && t.objs[o].expires >= deadline
            && t.objs[o].sourceIP == s.objs[o].sourceIP
    decreases |es|
  {
    if es != [] {
      hide Enabled, Apply, Kills, Shortens;
      var t := Apply(s, es[0]);
      StepKeepsInv(s, es[0]);
      LiveStep(s, es[0], id, o);
      DeadlineStep(s, es[0], id, o, deadline);
      assert t.clock <= After(t, es[1..]).clock;
      KeptAlive(t, es[1..], id, o, deadline);
    }
  }

  /** A lookup from the session's own address takes it, in every mode, if it reads a time before the
      deadline. */
  ghost predicate Resumable<O, V>(s: State<O, V>, id: Id, o: O, deadline: int)
    requires Inv(s) && o in s.objs
  {
    forall c, mode, now1, now2, keepalive ::
      Enabled(s, Resume(c, id, mode, now1, now2, keepalive)) && s.conns[c].ip == s.objs[o].sourceIP && now1 < deadline
      ==> Holds(Apply(s, Resume(c, id, mode, now1, now2, keepalive)), c, o)
  }

  lemma StoredResumable<O, V>(s: State<O, V>, id: Id, o: O, deadline: int)
    requires Inv(s) && id in s.store && s.store[id] == o && s.objs[o].expires >= deadline
    ensures Resumable(s, id, o, deadline)
  {
    assert o in s.objs;
    hide Apply, Inv;
    forall c, mode, now1, now2, keepalive |
      Enabled(s, Resume(c, id, mode, now1, now2, keepalive)) && s.conns[c].ip == s.objs[o].sourceIP && now1 < deadline
      ensures Holds(Apply(s, Resume(c, id, mode, now1, now2, keepalive)), c, o)
    {
      ResumeExactly(s, c, id, mode, now1, now2, keepalive, o);
    }
  }

  /** A session that was resumed at `now2` can be resumed from its own address until `now2 + keepalive`,
      whatever else happens that does not harm it or give it an earlier deadline. */
  lemma ResumedLives<O, V>(s: State<O, V>, c: ConnId, id: Id, mode: ValidateIP, now1: int, now2: int, keepalive: nat,
                           s': State<O, V>, es: seq<Event<O, V>>)
    requires Inv(s) && Enabled(s, Resume(c, id, mode, now1, now2, keepalive)) && InRange(now2, keepalive)
    requires Found(s, id, mode, now1, s.conns[c].ip) == Usable
    requires s' == Apply(s, Resume(c, id, mode, now1, now2, keepalive)) && Inv(s') && Runs(s', es)
    requires Unharmed(s', es, id, s.store[id]) && (forall e :: e in es ==> !Shortens(e, id, now2 + keepalive))
    ensures s'.objs[s.store[id]].expires == now2 + keepalive && Holds(s', c, s.store[id])
    ensures var t := After(s', es);
            t.clock < now2 + keepalive ==>
              id in t.store && t.store[id] == s.store[id] && Resumable(t, id, s.store[id], now2 + keepalive)
  {
    LookupOutcome(s, c, id, mode, now1, now2, keepalive);
    hide Apply, Enabled, Runs, After, Unharmed, Shortens, Resumable;
    if After(s', es).clock < now2 + keepalive {
      KeptAlive(s', es, id, s.store[id], now2 + keepalive);
      StoredResumable(After(s', es), id, s.store[id], now2 + keepalive);
    }
  }

  /** The same for a new session, which has the address of the connection that began it and no data. */
  lemma CreatedLives<O, V>(s: State<O, V>, c: ConnId, id: Id, o: O, now: int, keepalive: nat,
                           s': State<O, V>, es: seq<Event<O, V>>)
    requires Inv(s) && Enabled(s, Create(c, id, o, now, keepalive)) && InRange(now, keepalive)
    requires s' == Apply(s, Create(c, id, o, now, keepalive)) && Inv(s') && Runs(s', es)
    requires Unharmed(s', es, id, o) && (forall e :: e in es ==> !Shortens(e, id, now + keepalive))
    ensures s'.objs[o] == Obj(map[], now + keepalive, s.conns[c].ip) && Holds(s', c, o)
    ensures var t := After(s', es);
            t.clock < now + keepalive ==>
              id in t.store && t.store[id] == o && Resumable(t, id, o, now + keepalive)
  {
    CreationOutcome(s, c, id, o, now, keepalive);
    hide Apply, Enabled, Runs, After, Unharmed, Shortens, Resumable;
    if After(s', es).clock < now + keepalive {
      KeptAlive(s', es, id, o, now + keepalive);
      StoredResumable(After(s', es), id, o, now + keepalive);
    }
  }

  /** Lookups of the id last at least as long as `keepalive` each. */
  predicate LastsAtLeast<O, V>(e: Event<O, V>, id: Id, keepalive: nat) {
    e.Resume? && e.id == id ==> keepalive <= e.keepalive && InRange(e.now2, e.keepalive)
  }

  lemma LaterEnds<O, V>(s: State<O, V>, e: Event<O, V>, id: Id, now: int, keepalive: nat)
    requires Inv(s) && Enabled(s, e) && now <= s.clock && LastsAtLeast(e, id, keepalive)
    ensures !Shortens(e, id, now + keepalive)
  {
  }

  /** As time does not go back, lookups with the same duration, or a longer one, give no earlier deadline. */
  lemma {:induction false} NoneShortens<O, V>(s: State<O, V>, es: seq<Event<O, V>>, id: Id, now: int, keepalive: nat)
    requires Inv(s) && Runs(s, es) && now <= s.clock && forall e :: e in es ==> LastsAtLeast(e, id, keepalive)
    ensures forall e :: e in es ==> !Shortens(e, id, now + keepalive)
    decreases |es|
  {
    if es != [] {
      hide Enabled, Apply, LastsAtLeast, Shortens;
      StepKeepsInv(s, es[0]);
      LaterEnds(s, es[0], id, now, keepalive);
      NoneShortens(Apply(s, es[0]), es[1..], id, now, keepalive);
      assert forall e :: e in es ==> e == es[0] || e in es[1..];
    }
  }

  predicate LooksUp<O, V>(e: Event<O, V>, id: Id) {
    e.Resume? && e.id == id
  }

  lemma SameDeadlineStep<O, V>(s: State<O, V>, e: Event<O, V>, id: Id, o: O)
    requires Inv(s) && Enabled(s, e) && o in s.objs && s.origin[o] == id && !LooksUp(e, id)
    ensures var t := Apply(s, e);
            o in t.objs && t.origin[o] == id && t.objs[o].expires == s.objs[o].expires
            && t.objs[o].sourceIP == s.objs[o].sourceIP
  {
    hide ConnInv, Expiry;
  }

  lemma {:induction false} SameDeadline<O, V>(s: State<O, V>, es: seq<Event<O, V>>, id: Id, o: O)
    requires Inv(s) && Runs(s, es) && o in s.objs && s.origin[o] == id && forall e :: e in es ==> !LooksUp(e, id)
    ensures var t := After(s, es);
            t.objs[o].expires == s.objs[o].expires && t.objs[o].sourceIP == s.objs[o].sourceIP
    decreases |es|
  {
    if es != [] {
      hide Enabled, Apply, LooksUp;
      StepKeepsInv(s, es[0]);
      SameDeadlineStep(s, es[0], id, o);
      SameDeadline(Apply(s, es[0]), es[1..], id, o);
    }
  }

  /** Until its next lookup nothing but harm changes what becomes of a session: a lookup from its own
      address takes it exactly if it reads a time before the deadline that the session has now. */
  lemma ResumableExactly<O, V>(s: State<O, V>, es: seq<Event<O, V>>, id: Id, o: O, c: ConnId, mode: ValidateIP,
                               now1: int, now2: int, keepalive: nat)
    requires Inv(s) && Runs(s, es) && id in s.store && s.store[id] == o
    requires Unharmed(s, es, id, o) && (forall e :: e in es ==> !LooksUp(e, id))
    requires Enabled(After(s, es), Resume(c, id, mode, now1, now2, keepalive))
    requires After(s, es).conns[c].ip == s.objs[o].sourceIP
    ensures Holds(Apply(After(s, es), Resume(c, id, mode, now1, now2, keepalive)), c, o)
       <==> now1 < s.objs[o].expires
  {
    var t := After(s, es);
    SameDeadline(s, es, id, o);
    ResumeExactly(t, c, id, mode, now1, now2, keepalive, o);
    assert t.clock <= now1;
    hide *;
    if now1 < s.objs[o].expires { LiveStays(s, es, id, o); }
  }

  // ------------------------------------------------------------ when it ends

  /** A session is dead as soon as it was created exactly if its duration is zero or its deadline no signed
      64-bit number. */
  lemma CreatedDeadExactly<O, V>(s: State<O, V>, c: ConnId, id: Id, o: O, now: int, keepalive: nat)
    requires Inv(s) && Enabled(s, Create(c, id, o, now, keepalive))
    requires 0 <= now < 0x8000_0000_0000_0000 && keepalive < 0x1_0000_0000_0000_0000
    ensures Dead(Apply(s, Create(c, id, o, now, keepalive)), o)
       <==> keepalive == 0 || now + keepalive >= 0x8000_0000_0000_0000
  {
    hide ConnInv;
    ExpiryExactly(now, keepalive);
    hide Expiry;
    assert Apply(s, Create(c, id, o, now, keepalive)).store[id] == o;
  }

  /** So is a session after a lookup that takes it, even if it would have lived on without. */
  lemma ResumedDeadExactly<O, V>(s: State<O, V>, c: ConnId, id: Id, mode: ValidateIP, now1: int, now2: int,
                                 keepalive: nat)
    requires Inv(s) && Enabled(s, Resume(c, id, mode, now1, now2, keepalive))
    requires Found(s, id, mode, now1, s.conns[c].ip) == Usable
    requires 0 <= now2 < 0x8000_0000_0000_0000 && keepalive < 0x1_0000_0000_0000_0000
    ensures Dead(Apply(s, Resume(c, id, mode, now1, now2, keepalive)), s.store[id])
       <==> keepalive == 0 || now2 + keepalive >= 0x8000_0000_0000_0000
  {
    hide ConnInv;
    ExpiryExactly(now2, keepalive);
    hide Expiry;
    assert Apply(s, Resume(c, id, mode, now1, now2, keepalive)).store[id] == s.store[id];
  }

  /** In strict mode a lookup from another address ends the session for ever. */
  lemma ForeignEnds<O, V>(s: State<O, V>, c: ConnId, id: Id, now1: int, now2: int, keepalive: nat,
                          s': State<O, V>, es: seq<Event<O, V>>)
    requires Inv(s) && Enabled(s, Resume(c, id, Strict, now1, now2, keepalive))
    requires id in s.store && s.objs[s.store[id]].sourceIP != s.conns[c].ip
    requires s' == Apply(s, Resume(c, id, Strict, now1, now2, keepalive)) && Inv(s') && Runs(s', es)
    ensures id !in s'.store && Dead(After(s', es), s.store[id])
    ensures forall d :: Holds(After(s', es), d, s.store[id]) ==> Holds(s, d, s.store[id])
  {
    ForeignErased(s, c, id, now1, now2, keepalive);
    hide Apply, Enabled, Runs, After, Dead, Holds;
    DeadStays(s', es, s.store[id]);
  }

  lemma ForeignErased<O, V>(s: State<O, V>, c: ConnId, id: Id, now1: int, now2: int, keepalive: nat)
    requires Inv(s) && Enabled(s, Resume(c, id, Strict, now1, now2, keepalive))
    requires id in s.store && s.objs[s.store[id]].sourceIP != s.conns[c].ip
    ensures var s' := Apply(s, Resume(c, id, Strict, now1, now2, keepalive));
            id !in s'.store && Dead(s', s.store[id]) && s'.conns == s.conns
  {
    hide ConnInv, Expiry;
  }

  /** In lax mode it changes nothing but the time. */
  lemma ForeignSpared<O, V>(s: State<O, V>, c: ConnId, id: Id, now1: int, now2: int, keepalive: nat)
    requires Inv(s) && Enabled(s, Resume(c, id, Lax, now1, now2, keepalive))
    requires Found(s, id, Lax, now1, s.conns[c].ip) == Foreign
    ensures Apply(s, Resume(c, id, Lax, now1, now2, keepalive)) == s.(clock := now2)
  {
  }

  /** A collection takes every session whose deadline was past when it began and none whose deadline comes
      when it has ended; those that connections hold keep their data. */
  lemma CollectionOutcome<O, V>(s: State<O, V>, readings: Id -> int, end: int)
    requires Inv(s) && Enabled(s, Gc(readings, end))
    ensures var s' := Apply(s, Gc(readings, end));
            && s' == s.(store := s'.store, clock := end)
            && (forall i :: i in s'.store ==> i in s.store && s'.store[i] == s.store[i])
            && (forall i :: i in s'.store ==> s.objs[s.store[i]].expires >= s.clock)
            && (forall i :: i in s.store && s.objs[s.store[i]].expires >= end ==> i in s'.store)
  {
    hide ConnInv;
  }

  /** The end of all sessions leaves none that anybody can get hold of. */
  lemma DestroyedForGood<O, V>(s: State<O, V>, s': State<O, V>, es: seq<Event<O, V>>, o: O)
    requires Inv(s) && s' == Apply(s, Destroy) && Inv(s') && Runs(s', es) && o in s.objs
    ensures s'.store == map[] && Dead(After(s', es), o)
    ensures forall d :: Holds(After(s', es), d, o) ==> Holds(s, d, o)
  {
    assert Dead(s', o) && s'.store == map[] && s'.conns == s.conns;
    hide Apply, Enabled, Runs, After, Dead;
    DeadStays(s', es, o);
  }
}
