/**
  The session store and the sessions of connections as objects that are updated in place.  `View` is
  the state of the machine that the objects stand for, and every method is one event or a short run
  of that machine.
 */
module SessionStore {
  import opened Wrappers
  import opened SessionMachine
  import opened SessionLife

  class SessionData<V> {
    var data: map<string, V>
    var expires: int
    const sourceIP: string

    constructor (sIP: string)
      ensures data == map[] && expires == 0 && sourceIP == sIP
    {
      data, expires, sourceIP := map[], 0, sIP;
    }

    ghost function View(): Obj<V>
      reads this
    {
      Obj(data, expires, sourceIP)
    }
  }

  /** The global map, with all session objects and sessions there are as ghost state. */
  class Store<V> {
    var sessionData: map<Id, SessionData<V>>
    ghost var objs: set<SessionData<V>>
    ghost var origin: map<SessionData<V>, Id>
    ghost var sessions: map<ConnId, Session<V>>
    ghost var clock: int

    ghost function View(): State<SessionData<V>, V>
      reads this, objs, sessions.Values
    {
      State(sessionData,
            map o | o in objs :: o.View(),
            map c | c in sessions :: sessions[c].View(),
            clock, origin)
    }

    ghost predicate Linked()
      reads this, sessions.Values
    {
      forall c :: c in sessions ==> sessions[c].connection == c && sessions[c].store == this && sessions[c].Valid()
    }

    ghost predicate Valid()
      reads this, objs, sessions.Values
    {
      Linked() && Inv(View())
    }

    constructor (ghost now: int)
      ensures Valid() && View() == Empty(now)
    {
      sessionData, objs, origin, sessions, clock := map[], {}, map[], map[], now;
    }

    /** An entry leaves the map; the object may still be held by connections. */
    method Remove(id: Id)
      requires Linked()
      modifies this`sessionData
      ensures Linked() && sessionData == old(sessionData) - {id}
      ensures View() == old(View()).(store := Without(old(View()).store, id))
    {
      sessionData := sessionData - {id};
    }

    /** Time passes. */
    ghost method Advance(now: int)
      requires Linked()
      modifies this`clock
      ensures Linked() && clock == now && View() == old(View()).(clock := now)
    {
      clock := now;
    }

    method Extend(o: SessionData<V>, expires: int)
      requires Linked() && o in objs
      modifies o`expires
      ensures Linked() && o in old(View()).objs && o.expires == expires
      ensures View() == old(View()).(objs := old(View()).objs[o := old(View()).objs[o].(expires := expires)])
    {
      o.expires := expires;
      assert View().conns == old(View()).conns;
      assert View().objs == old(View()).objs[o := old(View()).objs[o].(expires := expires)];
    }

    /** A new object is stored under a new id. */
    method Enter(id: Id, o: SessionData<V>, ghost now: int)
      requires Linked() && o !in objs
      modifies this`sessionData, this`objs, this`origin, this`clock
      ensures Linked() && objs == old(objs) + {o} && sessionData == old(sessionData)[id := o]
      ensures var was := old(View());
              View() == State(was.store[id := o], was.objs[o := o.View()], was.conns, now, was.origin[o := id])
    {
      sessionData := sessionData[id := o];
      objs, origin, clock := objs + {o}, origin[o := id], now;
      assert View().objs == old(View()).objs[o := o.View()];
    }

    ghost method Enroll(session: Session<V>)
      requires Linked() && session.connection !in sessions && session.store == this && session.Valid()
      modifies this`sessions
      ensures Linked() && sessions == old(sessions)[session.connection := session]
      ensures View() == old(View()).(conns := old(View()).conns[session.connection := session.View()])
    {
      sessions := sessions[session.connection := session];
      assert View().conns == old(View()).conns[session.connection := session.View()];
    }

    method Replace(o: SessionData<V>, data: map<string, V>)
      requires Linked() && o in objs
      modifies o`data
      ensures Linked() && o in old(View()).objs && o.data == data
      ensures View() == WithData(old(View()), o, data)
    {
      o.data := data;
      assert View().conns == old(View()).conns;
      assert View().objs == old(View()).objs[o := old(View()).objs[o].(data := data)];
    }

    /** The first generated id that is not in use. */
    method UnusedId(candidates: seq<Id>) returns (id: Id)
      requires exists k :: 0 <= k < |candidates| && candidates[k] !in sessionData
      ensures id !in sessionData
      ensures exists k :: 0 <= k < |candidates| && candidates[k] == id
                          && forall j :: 0 <= j < k ==> candidates[j] in sessionData
    {
      var k := 0;
      id := candidates[k];
      while id in sessionData
        invariant 0 <= k < |candidates| && id == candidates[k]
        invariant forall j :: 0 <= j < k ==> candidates[j] in sessionData
        decreases |candidates| - k
      {
        k := k + 1;
        id := candidates[k];
      }
    }

    /** The end of all sessions. */
    method Destroy()
      requires Valid()
      modifies this`sessionData
      ensures Valid() && View() == Apply(old(View()), Event.Destroy)
    {
      StepKeepsInv(View(), Event.Destroy);
      hide Inv, Enabled;
      sessionData := map[];
      assert View() == Apply(old(View()), Event.Destroy);
    }

    /** Every entry whose expiry is before the time read for it goes, no other does. */
    method Sweep(readings: Id -> int)
      requires Linked()
      modifies this`sessionData
      ensures Linked() && View() == old(View()).(store := sessionData)
      ensures sessionData == map i | i in old(sessionData) && !(old(sessionData)[i].expires < readings(i))
                                   :: old(sessionData)[i]
    {
      ghost var was := sessionData;
      var ids := sessionData.Keys;
      while ids != {}
        invariant ids <= was.Keys
        invariant sessionData.Keys <= was.Keys
        invariant forall i :: i in was ==> (i in sessionData <==> i in ids || !(was[i].expires < readings(i)))
        invariant forall i :: i in sessionData ==> sessionData[i] == was[i]
        decreases |ids|
      {
        var i :| i in ids;
        if sessionData[i].expires < readings(i) {
          sessionData := sessionData - {i};
        }
        ids := ids - {i};
      }
    }

    lemma Entries(s: State<SessionData<V>, V>, readings: Id -> int, end: int)
      requires Valid() && s == View() && clock <= end && forall i :: clock <= readings(i) <= end
      ensures forall i :: i in s.store ==> s.store[i] in s.objs
      ensures Kept(s, readings, end)
           == map i | i in sessionData && !(sessionData[i].expires < readings(i)) :: sessionData[i]
    {
      hide ConnInv;
      assert forall i :: i in s.store ==> s.store[i] in s.objs && s.objs[s.store[i]].expires == s.store[i].expires;
      hide Inv, Linked;
      assert forall i :: Clamp(readings(i), clock, end) == readings(i);
    }

    method CollectGarbage(readings: Id -> int, end: int)
      requires Valid() && clock <= end && forall i :: clock <= readings(i) <= end
      modifies this`sessionData, this`clock
      ensures Valid() && Enabled(old(View()), Gc(readings, end))
      ensures View() == Apply(old(View()), Gc(readings, end))
      ensures sessionData == map i | i in old(sessionData) && !(old(sessionData)[i].expires < readings(i))
                                   :: old(sessionData)[i]
    {
      ghost var before := View();
      StepKeepsInv(before, Gc(readings, end));
      Entries(before, readings, end);
      hide Inv, Enabled, Kept, View, Linked;
      Sweep(readings);
      Advance(end);
      assert View() == Apply(before, Gc(readings, end));
    }
  }

  datatype Outcome = Done | NotEstablished

  class Session<V> {
    const connection: ConnId
    const store: Store<V>
    const remoteAddr: string
    var currentData: SessionData?<V>
    var currentID: Id
    ghost var phase: Phase<SessionData<V>>

    ghost function View(): Conn<SessionData<V>>
      reads this
    {
      Conn(remoteAddr, currentID, phase)
    }

    /** The pointer to the session data agrees with the phase. */
    ghost predicate Valid()
      reads this
    {
      match Holding(View())
      case None => currentData == null
      case Some(o) => currentData == o
    }

    /** This session is one of those of a valid store. */
    ghost predicate Ready()
      reads this, store, store.objs, store.sessions.Values
    {
      store.Valid() && connection in store.sessions && store.sessions[connection] == this
    }

    /** `established` */
    predicate IsEstablished()
      reads this
    {
      currentData != null
    }

    /** A new connection. */
    constructor (connection: ConnId, store: Store<V>, remoteAddr: string)
      requires store.Valid() && connection !in store.sessions
      modifies store`sessions
      ensures this.store == store && this.connection == connection && this.remoteAddr == remoteAddr
      ensures Ready() && store.View() == Apply(old(store.View()), Open(connection, remoteAddr))
      ensures store.sessions == old(store.sessions)[connection := this]
    {
      this.connection, this.store, this.remoteAddr := connection, store, remoteAddr;
      currentData, currentID, phase := null, "", Idle;
      new;
      ghost var before := store.View();
      StepKeepsInv(before, Open(connection, remoteAddr));
      hide Inv, Enabled, store.Linked, store.View;
      store.Enroll(this);
      assert store.View() == Apply(before, Open(connection, remoteAddr));
    }

    /** The pointer and the phase change together. */
    method Point(o: SessionData?<V>, ghost phase': Phase<SessionData<V>>)
      requires store.Linked() && connection in store.sessions && store.sessions[connection] == this
      requires Holding(Conn(remoteAddr, currentID, phase')) == if o == null then None else Some(o)
      modifies this`currentData, this`phase
      ensures currentData == o && phase == phase'
      ensures store.Linked() && connection in old(store.View()).conns
      ensures store.View() == AtPhase(old(store.View()), connection, phase')
    {
      currentData, phase := o, phase';
      forall c | c in store.sessions && c != connection
        ensures store.sessions[c].View() == old(store.sessions[c].View())
      {
        assert store.sessions[c] != this;
      }
      assert store.View().conns
        == old(store.View()).conns[connection := old(store.View()).conns[connection].(phase := phase')];
    }

    /** A stored session may be taken: it has not expired and its address is accepted. */
    ghost predicate Acceptable(sessionId: Id, mode: ValidateIP, now1: int)
      reads this, store, store.sessionData.Values
    {
      && sessionId in store.sessionData
      && store.sessionData[sessionId].expires > now1
      && (mode == Off || store.sessionData[sessionId].sourceIP == remoteAddr)
    }

    /** What the objects say about the entry for an id, the machine's state says too. */
    lemma Seen(s: State<SessionData<V>, V>, sessionId: Id)
      requires Ready() && s == store.View()
      ensures s.store == store.sessionData && connection in s.conns && s.conns[connection].ip == remoteAddr
      ensures sessionId in s.store ==>
                && s.store[sessionId] in store.objs && s.store[sessionId] in s.objs
                && s.objs[s.store[sessionId]] == s.store[sessionId].View()
    {
    }

    method LookUp(ghost s: State<SessionData<V>, V>, sessionId: Id, mode: ValidateIP, now1: int, now2: int,
                  keepalive: nat)
      requires store.Linked() && connection in store.sessions && store.sessions[connection] == this && s == store.View()
      requires s.store == store.sessionData && connection in s.conns && s.conns[connection].ip == remoteAddr
      requires sessionId in s.store ==>
                 && s.store[sessionId] in store.objs && s.store[sessionId] in s.objs
                 && s.objs[s.store[sessionId]] == s.store[sessionId].View()
      requires currentData == null && phase.Idle?
      modifies this`currentData, this`phase, store`sessionData, store`clock, store.objs
      ensures store.Linked()
      ensures store.View() == ResumeStep(s, connection, sessionId, mode, now1, now2, keepalive)
      ensures if old(Acceptable(sessionId, mode, now1))
              then currentData == old(store.sessionData)[sessionId] && phase.Starting? && phase.sessionId == sessionId
              else currentData == null && phase.Idle?
      ensures currentData != null ==>
                && store.sessionData == old(store.sessionData)
                && (InRange(now2, keepalive) ==> currentData.expires == now2 + keepalive)
      ensures store.clock == now2 && old(store.sessionData).Keys - {sessionId} <= store.sessionData.Keys
      ensures forall i :: i in store.sessionData ==>
                i in old(store.sessionData) && store.sessionData[i] == old(store.sessionData)[i]
    {
      hide store.Linked, store.View, Expiry;
      if InRange(now2, keepalive) { ExpiryInRange(now2, keepalive); }
      store.Advance(now2);
      if sessionId in store.sessionData {
        var stored := store.sessionData[sessionId];
        if stored.expires <= now1 {
          store.Remove(sessionId);
        } else if mode != Off && stored.sourceIP != remoteAddr {
          if mode == Strict {
            store.Remove(sessionId);
          }
        } else {
          store.Extend(stored, Expiry(now2, keepalive));
          Point(stored, Starting(stored, sessionId));
        }
      }
    }

    /** The lookup in `start`, under the global lock. */
    method TakeStored(sessionId: Id, mode: ValidateIP, now1: int, now2: int, keepalive: nat)
      requires Ready() && phase.Idle? && sessionId != "" && store.clock <= now1 <= now2
      modifies this`currentData, this`phase, store`sessionData, store`clock, store.objs
      ensures Ready()
      ensures Enabled(old(store.View()), Resume(connection, sessionId, mode, now1, now2, keepalive))
      ensures store.View() == Apply(old(store.View()), Resume(connection, sessionId, mode, now1, now2, keepalive))
      ensures if old(Acceptable(sessionId, mode, now1))
              then currentData == old(store.sessionData)[sessionId] && phase.Starting? && phase.sessionId == sessionId
              else currentData == null && phase.Idle?
      ensures currentData != null ==>
                && store.sessionData == old(store.sessionData)
                && (InRange(now2, keepalive) ==> currentData.expires == now2 + keepalive)
      ensures store.clock == now2 && old(store.sessionData).Keys - {sessionId} <= store.sessionData.Keys
      ensures forall i :: i in store.sessionData ==>
                i in old(store.sessionData) && store.sessionData[i] == old(store.sessionData)[i]
    {
      ghost var before := store.View();
      StepKeepsInv(before, Resume(connection, sessionId, mode, now1, now2, keepalive));
      Seen(before, sessionId);
      hide Inv, ResumeStep;
      LookUp(before, sessionId, mode, now1, now2, keepalive);
    }

    /** A new session under an id that is not in use. */
    method StartNew(candidates: seq<Id>, now: int, keepalive: nat) returns (sessionId: Id)
      requires Ready() && phase.Idle? && store.clock <= now
      requires exists k :: 0 <= k < |candidates| && candidates[k] !in store.sessionData
      modifies this`currentData, this`phase, store
      ensures Ready() && store.sessions == old(store.sessions)
      ensures currentData != null && fresh(currentData) && store.objs == old(store.objs) + {currentData}
      ensures phase.Starting? && phase.sessionId == sessionId
      ensures Enabled(old(store.View()), Create(connection, sessionId, currentData, now, keepalive))
      ensures store.View() == Apply(old(store.View()), Create(connection, sessionId, currentData, now, keepalive))
      ensures sessionId in candidates && sessionId !in old(store.sessionData) && store.clock == now
      ensures store.sessionData == old(store.sessionData)[sessionId := currentData]
      ensures currentData.data == map[] && currentData.sourceIP == remoteAddr
      ensures InRange(now, keepalive) ==> currentData.expires == now + keepalive
    {
      sessionId := store.UnusedId(candidates);
      var o := new SessionData(remoteAddr);
      o.expires := Expiry(now, keepalive);
      if InRange(now, keepalive) { ExpiryInRange(now, keepalive); }
      ghost var before := store.View();
      ghost var e := Create(connection, sessionId, o, now, keepalive);
      StepKeepsInv(before, e);
      hide Inv, Enabled, store.Linked, store.View, Expiry;
      store.Enter(sessionId, o, now);
      Point(o, Starting(o, sessionId));
      assert store.View() == Apply(before, e);
    }

    method SaveId(sessionId: Id)
      requires Ready() && phase.Starting? && phase.sessionId == sessionId
      modifies this`currentID, this`phase
      ensures Ready() && phase.Established? && currentID == sessionId && store.clock == old(store.clock)
      ensures Enabled(old(store.View()), Event.SaveId(connection))
      ensures store.View() == Apply(old(store.View()), Event.SaveId(connection))
    {
      ghost var before := store.View();
      StepKeepsInv(before, Event.SaveId(connection));
      hide Inv;
      currentID := sessionId;
      phase := Established(phase.obj);
      forall c | c in store.sessions && c != connection
        ensures store.sessions[c].View() == old(store.sessions[c].View())
      {
        assert store.sessions[c] != this;
      }
      assert store.View().conns == before.conns[connection := View()];
      assert store.View().objs == before.objs;
    }

    /** The first half of `start`: resume the given session if it may be resumed, otherwise begin a
        new one. */
    method Obtain(given: Id, mode: ValidateIP, keepalive: nat, candidates: seq<Id>, now1: int, now2: int, now3: int)
      returns (sessionId: Id, ghost run: seq<Event<SessionData<V>, V>>)
      requires Ready() && phase.Idle? && store.clock <= now1 <= now2 <= now3
      requires exists k :: 0 <= k < |candidates| && candidates[k] !in store.sessionData
      modifies this`currentData, this`phase, store, store.objs
      ensures Ready() && store.clock <= now3 && currentData != null
      ensures phase.Starting? && phase.sessionId == sessionId
      ensures Runs(old(store.View()), run) && store.View() == After(old(store.View()), run)
      ensures if given != "" && old(Acceptable(given, mode, now1))
              then && sessionId == given && currentData == old(store.sessionData)[given]
                   && (InRange(now2, keepalive) ==> currentData.expires == now2 + keepalive)
              else && sessionId in candidates && fresh(currentData)
                   && currentData.data == map[] && currentData.sourceIP == remoteAddr
                   && (InRange(now3, keepalive) ==> currentData.expires == now3 + keepalive)
      ensures sessionId in store.sessionData && store.sessionData[sessionId] == currentData
      ensures old(store.sessionData).Keys - {given} <= store.sessionData.Keys
    {
      ghost var s := store.View();
      run := [];
      StartsThere(s);
      hide Runs, After, Apply, Enabled, Inv, store.View, store.Linked;
      sessionId := given;
      if sessionId != "" {
        TakeStored(sessionId, mode, now1, now2, keepalive);
        ghost var e: Event<SessionData<V>, V> := Resume(connection, sessionId, mode, now1, now2, keepalive);
        OneMore(s, run, e);
        run := run + [e];
      }
      if currentData == null {
        sessionId := StartNew(candidates, now3, keepalive);
        ghost var e: Event<SessionData<V>, V> := Create(connection, sessionId, currentData, now3, keepalive);
        OneMore(s, run, e);
        run := run + [e];
      }
    }

    /** The second half of `start`; the collector runs in some of the calls. */
    method Settle(sessionId: Id, collect: bool, readings: Id -> int, end: int,
                  ghost s: State<SessionData<V>, V>, ghost run0: seq<Event<SessionData<V>, V>>)
      returns (ghost run: seq<Event<SessionData<V>, V>>)
      requires Ready() && phase.Starting? && phase.sessionId == sessionId
      requires store.clock <= end && forall i :: store.clock <= readings(i) <= end
      requires Inv(s) && Runs(s, run0) && store.View() == After(s, run0)
      modifies this`currentID, this`phase, store`sessionData, store`clock
      ensures Ready() && phase.Established? && currentID == sessionId
      ensures Runs(s, run) && store.View() == After(s, run)
      ensures forall i :: i in store.sessionData <==>
                i in old(store.sessionData) && !(collect && old(store.sessionData)[i].expires < readings(i))
      ensures forall i :: i in store.sessionData ==> store.sessionData[i] == old(store.sessionData)[i]
    {
      hide Runs, After, Apply, Enabled, Inv, store.View, store.Linked;
      SaveId(sessionId);
      OneMore(s, run0, Event.SaveId(connection));
      run := run0 + [Event.SaveId(connection)];
      if collect {
        store.CollectGarbage(readings, end);
        OneMore(s, run, Gc(readings, end));
        run := run + [Gc(readings, end)];
      }
    }

    lemma PointerAgrees()
      requires Ready()
      ensures Inv(store.View()) && (IsEstablished() <==> phase.Starting? || phase.Established?)
      ensures IsEstablished() <==> currentData != null
    {
    }

    /** `start` of a connection.  `run` lists the steps that were taken. */
    method Start(given: Id, mode: ValidateIP, keepalive: nat, candidates: seq<Id>, now1: int, now2: int, now3: int,
                 collect: bool, readings: Id -> int, end: int)
      returns (sessionId: Id, ghost run: seq<Event<SessionData<V>, V>>)
      requires Ready() && (phase.Idle? || phase.Established?)
      requires store.clock <= now1 <= now2 <= now3 <= end && forall i :: now3 <= readings(i) <= end
      requires exists k :: 0 <= k < |candidates| && candidates[k] !in store.sessionData
      modifies this`currentData, this`currentID, this`phase, store, store.objs
      ensures Ready() && phase.Established? && currentData != null && sessionId == currentID
      ensures Runs(old(store.View()), run) && store.View() == After(old(store.View()), run)
      ensures old(phase).Established? ==>
                run == [] && sessionId == old(currentID) && currentData == old(currentData)
      ensures old(phase).Idle? ==>
                if given != "" && old(Acceptable(given, mode, now1))
                then && sessionId == given && currentData == old(store.sessionData)[given]
                     && (InRange(now2, keepalive) ==> currentData.expires == now2 + keepalive)
                else && sessionId in candidates && fresh(currentData)
                     && currentData.data == map[] && currentData.sourceIP == remoteAddr
                     && (InRange(now3, keepalive) ==> currentData.expires == now3 + keepalive)
      ensures old(phase).Idle? ==>
                && (!collect || currentData.expires >= end ==>
                      sessionId in store.sessionData && store.sessionData[sessionId] == currentData)
                && (!collect ==> old(store.sessionData).Keys - {given} <= store.sessionData.Keys)
                && (collect ==> forall i :: i in store.sessionData ==> store.sessionData[i].expires >= now3)
    {
      hide *;
      ghost var s := store.View();
      PointerAgrees();
      StartsThere(s);
      if IsEstablished() {
        return currentID, [];
      }
      sessionId, run := Obtain(given, mode, keepalive, candidates, now1, now2, now3);
      run := Settle(sessionId, collect, readings, end, s, run);
    }

    /** `operator[]` */
    method Index(key: string) returns (value: Option<V>)
      requires Ready() && !phase.Starting?
      ensures value == Lookup(store.View(), connection, key)
    {
      if IsEstablished() && key in currentData.data {
        value := Some(currentData.data[key]);
      } else {
        value := None;
      }
    }

    method SetValue(key: string, value: V) returns (outcome: Outcome)
      requires Ready() && !phase.Starting?
      modifies store.objs
      ensures Ready() && (outcome == Done <==> old(phase).Established?)
      ensures if outcome == Done
              then Enabled(old(store.View()), Set(connection, key, value))
                   && store.View() == Apply(old(store.View()), Set(connection, key, value))
              else store.View() == old(store.View())
    {
      if !IsEstablished() {
        return NotEstablished;
      }
      ghost var before := store.View();
      StepKeepsInv(before, Set(connection, key, value));
      SeenData(before);
      hide Inv, Enabled, store.View, store.Linked;
      store.Replace(currentData, currentData.data[key := value]);
      return Done;
    }

    method UnsetValue(key: string) returns (outcome: Outcome)
      requires Ready() && !phase.Starting?
      modifies store.objs
      ensures Ready() && (outcome == Done <==> old(phase).Established?)
      ensures if outcome == Done
              then Enabled(old(store.View()), Unset(connection, key))
                   && store.View() == Apply(old(store.View()), Unset(connection, key))
              else store.View() == old(store.View())
    {
      if !IsEstablished() {
        return NotEstablished;
      }
      ghost var before := store.View();
      StepKeepsInv(before, Unset(connection, key));
      SeenData(before);
      hide Inv, Enabled, store.View, store.Linked;
      store.Replace(currentData, currentData.data - {key});
      return Done;
    }

    lemma SeenData(s: State<SessionData<V>, V>)
      requires Ready() && s == store.View() && phase.Established?
      ensures InSession(s, connection) && ObjOf(s, connection) == currentData && currentData in store.objs
      ensures currentData in s.objs && s.objs[currentData].data == currentData.data
    {
      assert ConnInv(s, s.conns[connection]);
    }

    /** `invalidate`: the pointer is given up first, then the entry is erased by its id. */
    method Invalidate() returns (ghost run: seq<Event<SessionData<V>, V>>)
      requires Ready() && !phase.Starting?
      modifies this`currentData, this`phase, store`sessionData
      ensures Ready() && currentData == null
      ensures old(phase).Established? ==> phase.Idle? && store.sessionData == old(store.sessionData) - {currentID}
      ensures run == if old(phase).Established? then [Drop(connection)] + [Erase(connection)] else []
      ensures Runs(old(store.View()), run) && store.View() == After(old(store.View()), run)
    {
      ghost var s := store.View();
      run := [];
      StartsThere(s);
      hide Runs, After, Apply, Enabled, Inv, store.View, store.Linked;
      if !IsEstablished() {
        return;
      }
      GiveUp();
      OneMore(s, run, Drop(connection));
      assert run + [Drop(connection)] == [Drop(connection)];
      run := [Drop(connection)];
      EraseEntry();
      OneMore(s, run, Erase(connection));
      run := run + [Erase(connection)];
    }

    method GiveUp()
      requires Ready() && phase.Established?
      modifies this`currentData, this`phase
      ensures Ready() && phase.Erasing? && currentData == null && currentID == old(currentID)
      ensures Enabled(old(store.View()), Drop(connection))
      ensures store.View() == Apply(old(store.View()), Drop(connection))
    {
      ghost var before := store.View();
      StepKeepsInv(before, Drop(connection));
      SeenData(before);
      hide Inv, store.View, store.Linked;
      Point(null, Erasing(currentData));
    }

    method EraseEntry()
      requires Ready() && phase.Erasing?
      modifies this`phase, this`currentData, store`sessionData
      ensures Ready() && currentData == null && phase.Idle?
      ensures store.sessionData == old(store.sessionData) - {currentID}
      ensures Enabled(old(store.View()), Erase(connection))
      ensures store.View() == Apply(old(store.View()), Erase(connection))
    {
      ghost var before := store.View();
      StepKeepsInv(before, Erase(connection));
      assert before.conns[connection].id == currentID;
      hide Inv, Enabled, store.View, store.Linked;
      store.Remove(currentID);
      Point(null, Idle);
    }
  }
}
