/**
  The session store as a step machine.  Every region that runs under the global lock is one event;
  events of different connections interleave freely; the clock never goes back.  `O` stands for the
  identities of session objects, which connections go on holding after the store has dropped them.
 */
module SessionMachine {
  import opened Wrappers

  type Id = string
  type ConnId = int

  datatype Obj<V> = Obj(data: map<string, V>, expires: int, sourceIP: string)

  /** Where a connection is: between looking up or creating a session and saving its id, in a
      session, or in `invalidate` after giving up its pointer. */
  datatype Phase<O> = Idle | Starting(obj: O, sessionId: Id) | Established(obj: O) | Erasing(lost: O)

  datatype Conn<O> = Conn(ip: string, id: Id, phase: Phase<O>)

  /** `origin` records under which id each object was created. */
  datatype State<O(==), V> = State(
    store: map<Id, O>, objs: map<O, Obj<V>>, conns: map<ConnId, Conn<O>>, clock: int, origin: map<O, Id>)

  /** The values of `validate_ip`; every other value has no effect. */
  datatype ValidateIP = Off | Lax | Strict

  datatype Event<O, V> =
    | Tick(now: int)
    | Open(c: ConnId, ip: string)
    | Close(c: ConnId)
    | Resume(c: ConnId, id: Id, mode: ValidateIP, now1: int, now2: int, keepalive: nat)
    | Create(c: ConnId, id: Id, obj: O, now: int, keepalive: nat)
    | SaveId(c: ConnId)
    | Gc(readings: Id -> int, end: int)
    | Drop(c: ConnId)
    | Erase(c: ConnId)
    | Set(c: ConnId, key: string, value: V)
    | Unset(c: ConnId, key: string)
    | Destroy

  /** `time_t + unsigned long`, back in a signed 64-bit number */
  function Expiry(now: int, keepalive: nat): int {
    var sum := (now + keepalive) % 0x1_0000_0000_0000_0000;
    if sum < 0x8000_0000_0000_0000 then sum else sum - 0x1_0000_0000_0000_0000
  }

  function Holding<O>(cn: Conn<O>): Option<O> {
    match cn.phase
    case Starting(o, _) => Some(o)
    case Established(o) => Some(o)
    case _ => None
  }

  predicate Holds<O(==), V>(s: State<O, V>, c: ConnId, o: O) {
    c in s.conns && Holding(s.conns[c]) == Some(o)
  }

  // ------------------------------------------------------------ what every step keeps

  /** A connection and the object it holds agree on the id that the object was created under. */
  ghost predicate ConnInv<O, V>(s: State<O, V>, cn: Conn<O>) {
    match cn.phase
    case Idle => true
    case Starting(o, sessionId) => o in s.origin && s.origin[o] == sessionId
    case Established(o) => o in s.origin && s.origin[o] == cn.id
    case Erasing(o) => o in s.origin && s.origin[o] == cn.id
  }

  /** Every object is stored under the id it was created under, or not at all. */
  ghost predicate StoreInv<O, V>(s: State<O, V>) {
    forall i :: i in s.store ==> s.store[i] in s.origin && s.origin[s.store[i]] == i
  }

  ghost predicate Inv<O, V>(s: State<O, V>) {
    && s.origin.Keys == s.objs.Keys
    && StoreInv(s)
    && forall c :: c in s.conns ==> ConnInv(s, s.conns[c])
  }

  function Empty<O, V>(now: int): State<O, V> {
    State(map[], map[], map[], now, map[])
  }

  // ------------------------------------------------------------ the steps

  predicate Free<O, V>(s: State<O, V>, c: ConnId) {
    c in s.conns && s.conns[c].phase.Idle?
  }

  predicate InSession<O, V>(s: State<O, V>, c: ConnId) {
    c in s.conns && s.conns[c].phase.Established?
  }

  ghost predicate Enabled<O, V>(s: State<O, V>, e: Event<O, V>) {
    match e
    case Tick(now) => s.clock <= now
    case Open(c, _) => c !in s.conns
    case Close(c) => Free(s, c) || InSession(s, c)
    case Resume(c, id, _, now1, now2, _) => Free(s, c) && id != "" && s.clock <= now1 <= now2
    case Create(c, id, o, now, _) => Free(s, c) && id !in s.store && o !in s.objs && s.clock <= now
    case SaveId(c) => c in s.conns && s.conns[c].phase.Starting?
    case Gc(_, end) => s.clock <= end
    case Drop(c) => InSession(s, c)
    case Erase(c) => c in s.conns && s.conns[c].phase.Erasing?
    case Set(c, _, _) => InSession(s, c)
    case Unset(c, _) => InSession(s, c)
    case Destroy => true
  }

  function Without<K, T>(m: map<K, T>, k: K): map<K, T> {
    m - {k}
  }

  function AtPhase<O, V>(s: State<O, V>, c: ConnId, phase: Phase<O>): State<O, V>
    requires c in s.conns
  {
    s.(conns := s.conns[c := s.conns[c].(phase := phase)])
  }

  /** The lookup in `start`: an expired entry is erased; so is one of another address in strict mode;
      otherwise a valid entry is taken and its expiry extended. */
  function ResumeStep<O, V>(s: State<O, V>, c: ConnId, id: Id, mode: ValidateIP,
                            now1: int, now2: int, keepalive: nat): State<O, V>
    requires c in s.conns && (id in s.store ==> s.store[id] in s.objs)
  {
    var s' := s.(clock := now2);
    if id !in s.store then s'
    else
      var o := s.store[id];
      var obj := s.objs[o];
      if obj.expires <= now1 then s'.(store := Without(s.store, id))
      else if mode != Off && obj.sourceIP != s.conns[c].ip then
        if mode == Strict then s'.(store := Without(s.store, id)) else s'
      else
        AtPhase(s'.(objs := s.objs[o := obj.(expires := Expiry(now2, keepalive))]), c, Starting(o, id))
  }

  function CreateStep<O, V>(s: State<O, V>, c: ConnId, id: Id, o: O, now: int, keepalive: nat): State<O, V>
    requires c in s.conns
  {
    var obj := Obj(map[], Expiry(now, keepalive), s.conns[c].ip);
    AtPhase(State(s.store[id := o], s.objs[o := obj], s.conns, now, s.origin[o := id]), c, Starting(o, id))
  }

  function Clamp(t: int, low: int, high: int): int {
    if t < low then low else if t > high then high else t
  }

  /** The entries that the garbage collector keeps; it reads the clock anew for every entry, at some
      time between the start and the end of the collection. */
  function Kept<O, V>(s: State<O, V>, readings: Id -> int, end: int): map<Id, O>
    requires forall i :: i in s.store ==> s.store[i] in s.objs
  {
    map i | i in s.store && !(s.objs[s.store[i]].expires < Clamp(readings(i), s.clock, end)) :: s.store[i]
  }

  function WithData<O, V>(s: State<O, V>, o: O, data: map<string, V>): State<O, V>
    requires o in s.objs
  {
    s.(objs := s.objs[o := s.objs[o].(data := data)])
  }

  function ObjOf<O, V>(s: State<O, V>, c: ConnId): O
    requires InSession(s, c)
  {
    s.conns[c].phase.obj
  }

  ghost function Apply<O, V>(s: State<O, V>, e: Event<O, V>): State<O, V>
    requires Inv(s) && Enabled(s, e)
  {
    match e
    case Tick(now) => s.(clock := now)
    case Open(c, ip) => s.(conns := s.conns[c := Conn(ip, "", Idle)])
    case Close(c) => s.(conns := Without(s.conns, c))
    case Resume(c, id, mode, now1, now2, keepalive) => ResumeStep(s, c, id, mode, now1, now2, keepalive)
    case Create(c, id, o, now, keepalive) => CreateStep(s, c, id, o, now, keepalive)
    case SaveId(c) =>
      var p := s.conns[c].phase;
      s.(conns := s.conns[c := s.conns[c].(id := p.sessionId, phase := Established(p.obj))])
    case Gc(readings, end) => s.(store := Kept(s, readings, end), clock := end)
    case Drop(c) => AtPhase(s, c, Erasing(ObjOf(s, c)))
    case Erase(c) => AtPhase(s.(store := Without(s.store, s.conns[c].id)), c, Idle)
    case Set(c, key, value) => WithData(s, ObjOf(s, c), s.objs[ObjOf(s, c)].data[key := value])
    case Unset(c, key) => WithData(s, ObjOf(s, c), Without(s.objs[ObjOf(s, c)].data, key))
    case Destroy => s.(store := map[])
  }

  lemma StepKeepsStore<O, V>(s: State<O, V>, e: Event<O, V>)
    requires Inv(s) && Enabled(s, e)
    ensures Apply(s, e).origin.Keys == Apply(s, e).objs.Keys && StoreInv(Apply(s, e))
  {
    assert forall c :: InSession(s, c) ==> ConnInv(s, s.conns[c]);
  }

  lemma StepKeepsConns<O, V>(s: State<O, V>, e: Event<O, V>)
    requires Inv(s) && Enabled(s, e)
    ensures forall c :: c in Apply(s, e).conns ==> ConnInv(Apply(s, e), Apply(s, e).conns[c])
  {
    var s' := Apply(s, e);
    forall c | c in s'.conns ensures ConnInv(s', s'.conns[c]) {
      if c in s.conns { assert ConnInv(s, s.conns[c]); }
    }
  }

  /** Every step keeps the invariant; objects are never forgotten and the clock does not go back. */
  lemma StepKeepsInv<O, V>(s: State<O, V>, e: Event<O, V>)
    requires Inv(s) && Enabled(s, e)
    ensures Inv(Apply(s, e))
    ensures s.objs.Keys <= Apply(s, e).objs.Keys && s.clock <= Apply(s, e).clock
  {
    StepKeepsStore(s, e);
    StepKeepsConns(s, e);
    hide ConnInv, StoreInv;
  }

  // ------------------------------------------------------------ runs

  ghost predicate Runs<O, V>(s: State<O, V>, es: seq<Event<O, V>>)
    requires Inv(s)
    decreases |es|
  {
    es == [] || (Enabled(s, es[0]) && (StepKeepsInv(s, es[0]); Runs(Apply(s, es[0]), es[1..])))
  }

  ghost function After<O, V>(s: State<O, V>, es: seq<Event<O, V>>): (r: State<O, V>)
    requires Inv(s) && Runs(s, es)
    ensures Inv(r) && s.objs.Keys <= r.objs.Keys && s.clock <= r.clock
    decreases |es|
  {
    if es == [] then s else (StepKeepsInv(s, es[0]); After(Apply(s, es[0]), es[1..]))
  }

  /** In every run an object is stored under one id at most, and a connection that is in a session
      knows the id under which its object was stored. */
  lemma StoredOnce<O, V>(now: int, es: seq<Event<O, V>>)
    requires Runs(Empty(now), es)
    ensures var s := After(Empty(now), es);
            && (forall i, j :: i in s.store && j in s.store && s.store[i] == s.store[j] ==> i == j)
            && (forall c, i :: InSession(s, c) && i in s.store && s.store[i] == ObjOf(s, c) ==> s.conns[c].id == i)
  {
    var s := After(Empty(now), es);
    forall c, i | InSession(s, c) && i in s.store && s.store[i] == ObjOf(s, c) ensures s.conns[c].id == i {
      assert ConnInv(s, s.conns[c]);
    }
  }

  // ------------------------------------------------------------ dead sessions stay dead

  /** Erased, or expired. */
  ghost predicate Dead<O, V>(s: State<O, V>, o: O) {
    o in s.objs && forall i :: i in s.store && s.store[i] == o ==> s.objs[o].expires <= s.clock
  }

  lemma DeadStep<O, V>(s: State<O, V>, e: Event<O, V>, o: O)
    requires Inv(s) && Enabled(s, e) && Dead(s, o)
    ensures Dead(Apply(s, e), o)
    ensures forall c :: Holds(Apply(s, e), c, o) ==> Holds(s, c, o)
  {
  }

  /** A dead session is dead for ever, and no connection gets hold of it any more. */
  lemma {:induction false} DeadStays<O, V>(s: State<O, V>, es: seq<Event<O, V>>, o: O)
    requires Inv(s) && Runs(s, es) && Dead(s, o)
    ensures Dead(After(s, es), o)
    ensures forall c :: Holds(After(s, es), c, o) ==> Holds(s, c, o)
    decreases |es|
  {
    if es != [] {
      StepKeepsInv(s, es[0]);
      DeadStep(s, es[0], o);
      DeadStays(Apply(s, es[0]), es[1..], o);
    }
  }

  /** After `invalidate` the session is dead. */
  lemma InvalidatedDead<O, V>(s: State<O, V>, c: ConnId)
    requires Inv(s) && Enabled(s, Erase(c))
    ensures Dead(Apply(s, Erase(c)), s.conns[c].phase.lost)
  {
    assert ConnInv(s, s.conns[c]);
  }

  /** In every run after its invalidation a session stays dead, and no connection gets hold of it. */
  lemma InvalidatedForGood<O, V>(s: State<O, V>, c: ConnId, s': State<O, V>, es: seq<Event<O, V>>)
    requires Inv(s) && Enabled(s, Erase(c)) && s' == Apply(s, Erase(c)) && Inv(s') && Runs(s', es)
    ensures var lost := s.conns[c].phase.lost;
            Dead(After(s', es), lost) && forall c' :: Holds(After(s', es), c', lost) ==> Holds(s, c', lost)
  {
    hide Runs, After;
    InvalidatedDead(s, c);
    DeadStays(s', es, s.conns[c].phase.lost);
  }

  // ------------------------------------------------------------ live sessions stay alive

  /** The lookup takes exactly the sessions that are stored, not expired and, when addresses are
      validated, of the same address. */
  lemma ResumeExactly<O, V>(s: State<O, V>, c: ConnId, id: Id, mode: ValidateIP, now1: int, now2: int,
                            keepalive: nat, o: O)
    requires Inv(s) && Enabled(s, Resume(c, id, mode, now1, now2, keepalive))
    ensures Holds(Apply(s, Resume(c, id, mode, now1, now2, keepalive)), c, o)
       <==> (id in s.store && s.store[id] == o && s.objs[o].expires > now1
             && (mode == Off || s.objs[o].sourceIP == s.conns[c].ip))
  {
  }

  /** The events that may take the live session `o` away: its invalidation, the end of all sessions,
      or, in strict mode, its id coming from another address. */
  ghost predicate Kills<O, V>(s: State<O, V>, e: Event<O, V>, id: Id, o: O)
  {
    match e
    case Erase(c) => c in s.conns && s.conns[c].id == id
    case Resume(c, i, Strict, _, _, _) => i == id && c in s.conns && o in s.objs && s.objs[o].sourceIP != s.conns[c].ip
    case Destroy => true
    case _ => false
  }

  ghost predicate Unharmed<O, V>(s: State<O, V>, es: seq<Event<O, V>>, id: Id, o: O)
    requires Inv(s) && Runs(s, es)
    decreases |es|
  {
    es == [] || (!Kills(s, es[0], id, o)
                 && (StepKeepsInv(s, es[0]); Unharmed(Apply(s, es[0]), es[1..], id, o)))
  }

  lemma LiveStep<O, V>(s: State<O, V>, e: Event<O, V>, id: Id, o: O)
    requires Inv(s) && Enabled(s, e) && id in s.store && s.store[id] == o && !Kills(s, e, id, o)
    ensures var s' := Apply(s, e);
            (id in s'.store && s'.store[id] == o) || s'.objs[o].expires <= s'.clock
  {
  }

  /** Whatever other connections and the garbage collector do, a session is lost by expiry only. */
  lemma {:induction false} LiveStays<O, V>(s: State<O, V>, es: seq<Event<O, V>>, id: Id, o: O)
    requires Inv(s) && Runs(s, es) && id in s.store && s.store[id] == o
    requires Unharmed(s, es, id, o) && After(s, es).objs[o].expires > After(s, es).clock
    ensures id in After(s, es).store && After(s, es).store[id] == o
    decreases |es|
  {
    if es != [] {
      hide Enabled, Apply, Kills;
      StepKeepsInv(s, es[0]);
      LiveStep(s, es[0], id, o);
      var s' := Apply(s, es[0]);
      if !(id in s'.store && s'.store[id] == o) {
        ExpiredStays(s', es[1..], o);
      }
      LiveStays(s', es[1..], id, o);
    }
  }

  lemma ExpiredStep<O, V>(s: State<O, V>, e: Event<O, V>, o: O)
    requires Inv(s) && Enabled(s, e) && o in s.objs && s.objs[o].expires <= s.clock
    ensures o in Apply(s, e).objs && Apply(s, e).objs[o].expires <= Apply(s, e).clock
  {
    StepKeepsInv(s, e);
  }

  lemma {:induction false} ExpiredStays<O, V>(s: State<O, V>, es: seq<Event<O, V>>, o: O)
    requires Inv(s) && Runs(s, es) && o in s.objs && s.objs[o].expires <= s.clock
    ensures After(s, es).objs[o].expires <= After(s, es).clock
    decreases |es|
  {
    if es != [] {
      hide Enabled, Apply;
      StepKeepsInv(s, es[0]);
      ExpiredStep(s, es[0], o);
      ExpiredStays(Apply(s, es[0]), es[1..], o);
    }
  }

  // ------------------------------------------------------------ the garbage collector is invisible

  /** The same event without garbage collection, which then only takes time. */
  function Plain<O, V>(e: Event<O, V>): Event<O, V> {
    match e
    case Gc(_, end) => Tick(end)
    case _ => e
  }

  function WithoutGc<O, V>(es: seq<Event<O, V>>): (r: seq<Event<O, V>>)
    ensures |r| == |es|
  {
    if es == [] then [] else [Plain(es[0])] + WithoutGc(es[1..])
  }

  /** `b` differs from `a` in entries only that have expired. */
  ghost predicate SameButExpired<O, V>(a: State<O, V>, b: State<O, V>) {
    && a == b.(store := a.store)
    && (forall i :: i in b.store ==> i in a.store && a.store[i] == b.store[i])
    && forall i :: i in a.store && i !in b.store && a.store[i] in a.objs ==> a.objs[a.store[i]].expires <= a.clock
  }

  lemma GcStep<O, V>(a: State<O, V>, b: State<O, V>, e: Event<O, V>)
    requires Inv(a) && Inv(b) && SameButExpired(a, b) && Enabled(a, Plain(e))
    ensures Enabled(b, e) && SameButExpired(Apply(a, Plain(e)), Apply(b, e))
  {
    hide ConnInv;
    match e {
      case Resume(c, id, mode, now1, now2, keepalive) => GcResume(a, b, c, id, mode, now1, now2, keepalive);
      case Gc(readings, end) => GcItself(a, b, readings, end);
      case _ =>
    }
  }

  lemma GcItself<O, V>(a: State<O, V>, b: State<O, V>, readings: Id -> int, end: int)
    requires Inv(a) && Inv(b) && SameButExpired(a, b) && a.clock <= end
    ensures SameButExpired(a.(clock := end), b.(store := Kept(b, readings, end), clock := end))
  {
    hide ConnInv;
  }

  /** A lookup does not tell an expired entry from a missing one. */
  lemma GcResume<O, V>(a: State<O, V>, b: State<O, V>, c: ConnId, id: Id, mode: ValidateIP,
                       now1: int, now2: int, keepalive: nat)
    requires Inv(a) && Inv(b) && SameButExpired(a, b)
    requires c in a.conns && a.clock <= now1 <= now2
    ensures SameButExpired(ResumeStep(a, c, id, mode, now1, now2, keepalive),
                           ResumeStep(b, c, id, mode, now1, now2, keepalive))
  {
    hide ConnInv, Expiry;
    if id in b.store {
      GcResumeStored(a, b, c, id, mode, now1, now2, keepalive);
    }
  }

  lemma GcResumeStored<O, V>(a: State<O, V>, b: State<O, V>, c: ConnId, id: Id, mode: ValidateIP,
                             now1: int, now2: int, keepalive: nat)
    requires Inv(a) && Inv(b) && SameButExpired(a, b)
    requires c in a.conns && a.clock <= now1 <= now2 && id in b.store
    ensures SameButExpired(ResumeStep(a, c, id, mode, now1, now2, keepalive),
                           ResumeStep(b, c, id, mode, now1, now2, keepalive))
  {
    hide ConnInv, Expiry;
  }

  /** Garbage collection may be put in anywhere in a run: the run stays possible, and the states at its
      end differ in expired entries only. */
  lemma {:induction false} GcInvisible<O, V>(a: State<O, V>, b: State<O, V>, es: seq<Event<O, V>>)
    requires Inv(a) && Inv(b) && SameButExpired(a, b) && Runs(a, WithoutGc(es))
    ensures Runs(b, es) && SameButExpired(After(a, WithoutGc(es)), After(b, es))
    decreases |es|
  {
    if es != [] {
      hide Enabled, Apply, SameButExpired;
      assert WithoutGc(es)[1..] == WithoutGc(es[1..]);
      GcStep(a, b, es[0]);
      StepKeepsInv(a, Plain(es[0]));
      StepKeepsInv(b, es[0]);
      GcInvisible(Apply(a, Plain(es[0])), Apply(b, es[0]), es[1..]);
    }
  }

  lemma {:induction false} RunsPrefix<O, V>(s: State<O, V>, es: seq<Event<O, V>>, k: nat)
    requires Inv(s) && Runs(s, es) && k <= |es|
    ensures Runs(s, es[..k])
    decreases k
  {
    hide Enabled, Apply;
    if k > 0 {
      StepKeepsInv(s, es[0]);
      RunsPrefix(Apply(s, es[0]), es[1..], k - 1);
      assert es[..k][1..] == es[1..][..k - 1];
    }
  }

  lemma {:induction false} WithoutGcPrefix<O, V>(es: seq<Event<O, V>>, k: nat)
    requires k <= |es|
    ensures WithoutGc(es[..k]) == WithoutGc(es)[..k]
  {
    if k > 0 {
      WithoutGcPrefix(es[1..], k - 1);
      assert es[..k][1..] == es[1..][..k - 1];
    }
  }

  /** At every point of the run all connections hold the same sessions, with the same data, as they
      would have done without any garbage collection. */
  lemma GcNeverNoticed<O, V>(s: State<O, V>, es: seq<Event<O, V>>, k: nat)
    requires Inv(s) && Runs(s, WithoutGc(es)) && k <= |es|
    ensures Runs(s, es[..k]) && Runs(s, WithoutGc(es)[..k])
    ensures After(s, es[..k]).conns == After(s, WithoutGc(es)[..k]).conns
    ensures After(s, es[..k]).objs == After(s, WithoutGc(es)[..k]).objs
  {
    hide *;
    WithoutGcPrefix(es, k);
    RunsPrefix(s, WithoutGc(es), k);
    SameItself(s);
    GcInvisible(s, s, es[..k]);
    SameSessions(After(s, WithoutGc(es)[..k]), After(s, es[..k]));
  }

  lemma SameItself<O, V>(s: State<O, V>)
    ensures SameButExpired(s, s)
  {
  }

  lemma SameSessions<O, V>(a: State<O, V>, b: State<O, V>)
    requires SameButExpired(a, b)
    ensures a.conns == b.conns && a.objs == b.objs
  {
  }

  /** No id is generated that is in `used` or has been generated before. */
  predicate FreshIds<O, V>(es: seq<Event<O, V>>, used: set<Id>)
    decreases |es|
  {
    es == [] ||
    if es[0].Create? then es[0].id !in used && FreshIds(es[1..], used + {es[0].id})
    else FreshIds(es[1..], used)
  }

  function UsedAfter<O, V>(e: Event<O, V>, used: set<Id>): set<Id> {
    if e.Create? then used + {e.id} else used
  }

  lemma PlainStep<O, V>(a: State<O, V>, b: State<O, V>, e: Event<O, V>, used: set<Id>)
    requires Inv(a) && Inv(b) && SameButExpired(a, b) && Enabled(b, e)
    requires a.store.Keys <= used && (e.Create? ==> e.id !in used)
    ensures Enabled(a, Plain(e)) && Apply(a, Plain(e)).store.Keys <= UsedAfter(e, used)
  {
  }

  /** Conversely garbage collection may be left out, unless the id of a collected session has been
      generated again. */
  lemma {:induction false} GcRemovable<O, V>(a: State<O, V>, b: State<O, V>, es: seq<Event<O, V>>, used: set<Id>)
    requires Inv(a) && Inv(b) && SameButExpired(a, b) && Runs(b, es)
    requires a.store.Keys <= used && FreshIds(es, used)
    ensures Runs(a, WithoutGc(es)) && SameButExpired(After(a, WithoutGc(es)), After(b, es))
    decreases |es|
  {
    if es != [] {
      hide Enabled, Apply, SameButExpired;
      assert WithoutGc(es)[1..] == WithoutGc(es[1..]);
      PlainStep(a, b, es[0], used);
      GcStep(a, b, es[0]);
      StepKeepsInv(a, Plain(es[0]));
      StepKeepsInv(b, es[0]);
      GcRemovable(Apply(a, Plain(es[0])), Apply(b, es[0]), es[1..], UsedAfter(es[0], used));
    }
  }

  // ------------------------------------------------------------ isolation

  /** `operator[]` */
  function Lookup<O, V>(s: State<O, V>, c: ConnId, key: string): Option<V> {
    if InSession(s, c) && ObjOf(s, c) in s.objs && key in s.objs[ObjOf(s, c)].data
    then Some(s.objs[ObjOf(s, c)].data[key]) else None
  }

  /** A value set is seen at once by the connections in the same session, and by no other. */
  lemma SetSeenBySharers<O, V>(s: State<O, V>, c: ConnId, key: string, value: V, c': ConnId, k: string)
    requires Inv(s) && InSession(s, c) && InSession(s, c')
    ensures Lookup(Apply(s, Set(c, key, value)), c', k)
         == if ObjOf(s, c') == ObjOf(s, c) && k == key then Some(value) else Lookup(s, c', k)
    ensures Lookup(Apply(s, Unset(c, key)), c', k)
         == if ObjOf(s, c') == ObjOf(s, c) && k == key then None else Lookup(s, c', k)
  {
    assert ConnInv(s, s.conns[c]) && ConnInv(s, s.conns[c']);
  }

  ghost predicate Writes<O, V>(s: State<O, V>, e: Event<O, V>, o: O, key: string) {
    match e
    case Set(c, k, _) => InSession(s, c) && ObjOf(s, c) == o && k == key
    case Unset(c, k) => InSession(s, c) && ObjOf(s, c) == o && k == key
    case _ => false
  }

  ghost predicate Unwritten<O, V>(s: State<O, V>, es: seq<Event<O, V>>, o: O, key: string)
    requires Inv(s) && Runs(s, es)
    decreases |es|
  {
    es == [] || (!Writes(s, es[0], o, key)
                 && (StepKeepsInv(s, es[0]); Unwritten(Apply(s, es[0]), es[1..], o, key)))
  }

  ghost predicate SameEntry<V>(a: map<string, V>, b: map<string, V>, key: string) {
    (key in a <==> key in b) && (key in a ==> a[key] == b[key])
  }

  lemma UnwrittenStep<O, V>(s: State<O, V>, e: Event<O, V>, o: O, key: string)
    requires Inv(s) && Enabled(s, e) && o in s.objs && !Writes(s, e, o, key)
    ensures o in Apply(s, e).objs && SameEntry(s.objs[o].data, Apply(s, e).objs[o].data, key)
  {
    StepKeepsInv(s, e);
  }

  /** Only connections in the session change its data: in a run in which none of them writes the key,
      its entry stays what it was. */
  lemma {:induction false} DataStays<O, V>(s: State<O, V>, es: seq<Event<O, V>>, o: O, key: string)
    requires Inv(s) && Runs(s, es) && o in s.objs && Unwritten(s, es, o, key)
    ensures SameEntry(s.objs[o].data, After(s, es).objs[o].data, key)
    decreases |es|
  {
    if es != [] {
      hide Enabled, Apply, Writes;
      StepKeepsInv(s, es[0]);
      UnwrittenStep(s, es[0], o, key);
      DataStays(Apply(s, es[0]), es[1..], o, key);
    }
  }

  /** A value set through one connection is what any connection in that session reads at the end of
      every run that does not write this key again. */
  lemma ReadsWhatWasSet<O, V>(s: State<O, V>, c: ConnId, key: string, value: V,
                              s': State<O, V>, es: seq<Event<O, V>>, c': ConnId)
    requires Inv(s) && InSession(s, c) && s' == Apply(s, Set(c, key, value))
    requires Inv(s') && Runs(s', es) && Unwritten(s', es, ObjOf(s, c), key)
    requires InSession(After(s', es), c') && ObjOf(After(s', es), c') == ObjOf(s, c)
    ensures Lookup(After(s', es), c', key) == Some(value)
  {
    assert ConnInv(s, s.conns[c]);
    DataStays(s', es, ObjOf(s, c), key);
  }

  // ------------------------------------------------------------ addresses

  predicate Validating<O, V>(es: seq<Event<O, V>>) {
    forall k :: 0 <= k < |es| && es[k].Resume? ==> es[k].mode != Off
  }

  /** Every connection that holds a session comes from the address that started it. */
  ghost predicate AddressesMatch<O, V>(s: State<O, V>) {
    forall c :: c in s.conns && Holding(s.conns[c]).Some? ==>
      var o := Holding(s.conns[c]).value;
      o in s.objs && s.objs[o].sourceIP == s.conns[c].ip
  }

  lemma AddressStep<O, V>(s: State<O, V>, e: Event<O, V>)
    requires Inv(s) && AddressesMatch(s) && Enabled(s, e) && (e.Resume? ==> e.mode != Off)
    ensures AddressesMatch(Apply(s, e))
  {
  }

  /** With address validation, strict or lax, no connection is ever in a session of another address. */
  lemma {:induction false} AddressesStay<O, V>(s: State<O, V>, es: seq<Event<O, V>>)
    requires Inv(s) && AddressesMatch(s) && Runs(s, es) && Validating(es)
    ensures AddressesMatch(After(s, es))
    decreases |es|
  {
    if es != [] {
      hide Enabled, Apply, AddressesMatch;
      StepKeepsInv(s, es[0]);
      AddressStep(s, es[0]);
      AddressesStay(Apply(s, es[0]), es[1..]);
    }
  }

  // ------------------------------------------------------------ invalidation and reused ids

  /** `invalidate` erases by id.  It leaves all other sessions alone exactly if the id has not been
      given to another session meanwhile. */
  lemma EraseSparesOthers<O, V>(s: State<O, V>, c: ConnId)
    requires Inv(s) && Enabled(s, Erase(c))
    ensures var lost, id := s.conns[c].phase.lost, s.conns[c].id;
            (forall i :: i in s.store && s.store[i] != lost ==> i in Apply(s, Erase(c)).store)
            <==> (id in s.store ==> s.store[id] == lost)
  {
    var lost, id := s.conns[c].phase.lost, s.conns[c].id;
    if id in s.store && s.store[id] != lost {
      assert id !in Apply(s, Erase(c)).store;
    }
  }

  ghost predicate DistinctOrigins<O, V>(s: State<O, V>) {
    forall o, o' :: o in s.origin && o' in s.origin && s.origin[o] == s.origin[o'] ==> o == o'
  }

  lemma OriginStep<O, V>(s: State<O, V>, e: Event<O, V>, used: set<Id>)
    requires Inv(s) && Enabled(s, e) && DistinctOrigins(s)
    requires s.origin.Values <= used && (e.Create? ==> e.id !in used)
    ensures DistinctOrigins(Apply(s, e)) && Apply(s, e).origin.Values <= UsedAfter(e, used)
  {
  }

  lemma {:induction false} OriginsStay<O, V>(s: State<O, V>, es: seq<Event<O, V>>, used: set<Id>)
    requires Inv(s) && Runs(s, es) && DistinctOrigins(s) && s.origin.Values <= used && FreshIds(es, used)
    ensures DistinctOrigins(After(s, es))
    decreases |es|
  {
    if es != [] {
      hide Enabled, Apply, DistinctOrigins;
      StepKeepsInv(s, es[0]);
      OriginStep(s, es[0], used);
      OriginsStay(Apply(s, es[0]), es[1..], UsedAfter(es[0], used));
    }
  }

  /** As long as no id is generated twice, `invalidate` ends its own session only. */
  lemma InvalidatesOwnOnly<O, V>(now: int, es: seq<Event<O, V>>, c: ConnId)
    requires Runs(Empty(now), es) && FreshIds(es, {}) && Enabled(After(Empty(now), es), Erase(c))
    ensures var s := After(Empty(now), es);
            forall i :: i in s.store && s.store[i] != s.conns[c].phase.lost ==> i in Apply(s, Erase(c)).store
  {
    var s := After(Empty<O, V>(now), es);
    OriginsStay(Empty<O, V>(now), es, {});
    assert ConnInv(s, s.conns[c]);
  }

  lemma {:induction false} OneMore<O, V>(s: State<O, V>, es: seq<Event<O, V>>, e: Event<O, V>)
    requires Inv(s) && Runs(s, es) && Enabled(After(s, es), e)
    ensures Runs(s, es + [e]) && After(s, es + [e]) == Apply(After(s, es), e)
    decreases |es|
  {
    hide Enabled, Apply;
    if es == [] {
      assert es + [e] == [e] && [e][1..] == [];
      StepKeepsInv(s, e);
    } else {
      assert (es + [e])[1..] == es[1..] + [e];
      StepKeepsInv(s, es[0]);
      OneMore(Apply(s, es[0]), es[1..], e);
    }
  }

  /** Up to a collection that removes the expired session of connection 1. */
  function CollectingRun(): seq<Event<int, string>> {
    [] + [Open(1, "a")] + [Open(2, "a")] + [Create(1, "x", 10, 0, 0)] + [SaveId(1)] + [Gc(_ => 1, 1)]
  }

  /** Then connection 2 is given the same id, and connection 1 begins to invalidate its session. */
  function ReusingRun(): seq<Event<int, string>> {
    CollectingRun() + [Create(2, "x", 11, 1, 100)] + [Drop(1)]
  }

  function Opened(): State<int, string> {
    State(map[], map[], map[1 := Conn("a", "", Idle), 2 := Conn("a", "", Idle)], 0, map[])
  }

  function Collected(): State<int, string> {
    State(map[], map[10 := Obj(map[], 0, "a")], map[1 := Conn("a", "x", Established(10)), 2 := Conn("a", "", Idle)],
          1, map[10 := "x"])
  }

  function Created(): State<int, string> {
    State(map["x" := 10], map[10 := Obj(map[], 0, "a")],
          map[1 := Conn("a", "", Starting(10, "x")), 2 := Conn("a", "", Idle)], 0, map[10 := "x"])
  }

  lemma RunToCreated()
    ensures var es := [] + [Open(1, "a")] + [Open(2, "a")] + [Create(1, "x", 10, 0, 0)];
            Runs(Empty(0), es) && After(Empty(0), es) == Created()
  {
    hide Runs, After;
    var es: seq<Event<int, string>> := [];
    assert Runs(Empty(0), es) && After(Empty(0), es) == Empty(0) by { StartsThere(Empty<int, string>(0)); }
    OneMore(Empty(0), es, Open(1, "a"));
    OneMore(Empty(0), es + [Open(1, "a")], Open(2, "a"));
    assert After(Empty(0), es + [Open(1, "a")] + [Open(2, "a")]) == Opened();
    OneMore(Empty(0), es + [Open(1, "a")] + [Open(2, "a")], Create(1, "x", 10, 0, 0));
  }

  lemma StartsThere<O, V>(s: State<O, V>)
    requires Inv(s)
    ensures Runs(s, []) && After(s, []) == s
  {
  }

  lemma RunToCollected()
    ensures Runs(Empty(0), CollectingRun()) && After(Empty(0), CollectingRun()) == Collected()
  {
    hide Runs, After;
    var es: seq<Event<int, string>> := [] + [Open(1, "a")] + [Open(2, "a")] + [Create(1, "x", 10, 0, 0)];
    RunToCreated();
    OneMore(Empty(0), es, SaveId(1));
    OneMore(Empty(0), es + [SaveId(1)], Gc(_ => 1, 1));
    assert After(Empty(0), es + [SaveId(1)] + [Gc(_ => 1, 1)]).store == map[];
  }

  function Reused(): State<int, string> {
    State(map["x" := 11], map[10 := Obj(map[], 0, "a"), 11 := Obj(map[], 101, "a")],
          map[1 := Conn("a", "x", Erasing(10)), 2 := Conn("a", "", Starting(11, "x"))],
          1, map[10 := "x", 11 := "x"])
  }

  lemma RunToReused()
    ensures Runs(Empty(0), ReusingRun()) && After(Empty(0), ReusingRun()) == Reused()
  {
    hide Runs, After, CollectingRun;
    RunToCollected();
    OneMore(Empty(0), CollectingRun(), Create(2, "x", 11, 1, 100));
    OneMore(Empty(0), CollectingRun() + [Create(2, "x", 11, 1, 100)], Drop(1));
  }

  /** Connection 1 invalidates the session 10; connection 2 loses the live session 11. */
  ghost predicate ErasesForeign(s: State<int, string>) {
    && Inv(s) && Enabled(s, Erase(1)) && s.conns[1].phase == Erasing(10)
    && Holds(s, 2, 11) && !Dead(s, 11) && Dead(Apply(s, Erase(1)), 11)
  }

  lemma ErasedHere()
    ensures ErasesForeign(Reused())
  {
    var s := Reused();
    assert s.store["x"] == 11;
    assert Apply(s, Erase(1)).store == map[];
  }

  /** The condition is needed: connection 1 keeps an expired session, its id is given to connection 2
      after a collection, and invalidating the former session ends the latter. */
  lemma ReusedIdIsErased()
    ensures Runs(Empty(0), ReusingRun()) && ErasesForeign(After(Empty(0), ReusingRun()))
  {
    hide Runs, After, ReusingRun, ErasesForeign;
    RunToReused();
    ErasedHere();
  }
}
