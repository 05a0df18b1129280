/** The connection pool as interleaved steps of any number of threads. Every step is one access
    to shared state; answers of the server are part of the step. */
module ConnectionPool {
  import opened Wrappers

  // ----- State

  datatype Connection = Connection(id: nat, loggedIn: bool)

  datatype Slot = Slot(mutex: Option<nat>, inUse: bool, conn: Option<Connection>)

  /** A proxy object; all three fields are reset when it is moved from. */
  datatype Proxy = Proxy(attached: bool, conn: Option<nat>, index: int)

  const UNINITIALIZED_INDEX := -1
  const MOVED_FROM := Proxy(false, None, UNINITIALIZED_INDEX)

  /** Where a thread stands in `get_connection`; `i` is the slot it looks at. */
  datatype Pc =
    | Idle
    | Scanning(i: nat)    // about to try the lock
    | Locked(i: nat)      // about to load in_use
    | Skipping(i: nat)    // in_use was set: about to unlock and go on
    | Claiming(i: nat)    // in_use was clear: about to store true
    | Verifying(i: nat)   // about to verify the connection
    | Connecting(i: nat)  // about to replace the connection
    | LoggingIn(i: nat)   // about to log in on the new connection
    | Returning(i: nat)   // about to construct the proxy
    | Leaving(i: nat)     // returning or unwinding: about to unlock

  datatype State = State(slots: seq<Slot>, pcs: map<nat, Pc>, proxies: map<nat, Proxy>, nextId: nat)

  /** A `try_lock` may fail spuriously on a mutex that is free. */
  datatype Action =
    | Begin(t: nat)
    | TryLock(t: nat, spurious: bool)
    | Load(t: nat)
    | Skip(t: nat)
    | Store(t: nat)
    | Verify(t: nat, alive: bool)
    | Connect(t: nat, connected: bool)
    | Login(t: nat, accepted: bool)
    | Construct(t: nat, p: nat)
    | Leave(t: nat)
    | MoveConstruct(src: nat, dst: nat)
    | MoveAssign(src: nat, dst: nat)
    | Destroy(p: nat)

  function PcOf(s: State, t: nat): Pc {
    if t in s.pcs then s.pcs[t] else Idle
  }

  predicate Live(x: Proxy) {
    x.attached && x.conn.Some? && x.index != UNINITIALIZED_INDEX
  }

  // ----- Steps

  predicate Enabled(s: State, a: Action) {
    match a
    case Begin(t) => PcOf(s, t).Idle?
    case TryLock(t, _) => PcOf(s, t).Scanning?
    case Load(t) => PcOf(s, t).Locked?
    case Skip(t) => PcOf(s, t).Skipping?
    case Store(t) => PcOf(s, t).Claiming?
    case Verify(t, _) => PcOf(s, t).Verifying?
    case Connect(t, _) => PcOf(s, t).Connecting?
    case Login(t, _) => PcOf(s, t).LoggingIn?
    case Construct(t, p) => PcOf(s, t).Returning? && p !in s.proxies
    case Leave(t) => PcOf(s, t).Leaving?
    case MoveConstruct(src, dst) => src in s.proxies && dst !in s.proxies
    case MoveAssign(src, dst) => src in s.proxies && dst in s.proxies
    case Destroy(p) => p in s.proxies
  }

  /** `++i % size`. */
  function NextIndex(i: nat, n: nat): (j: nat)
    requires i < n
    ensures j == (i + 1) % n && j < n
  {
    if i + 1 < n then i + 1 else 0
  }

  function At(s: State, t: nat, pc: Pc): State {
    s.(pcs := s.pcs[t := pc])
  }

  function WithSlot(s: State, i: nat, slot: Slot): State
    requires i < |s.slots|
  {
    s.(slots := s.slots[i := slot])
  }

  /** The slot indices in use by threads and live proxies exist. */
  ghost predicate InBounds(s: State) {
    && s.slots != []
    && (forall t: nat :: PcOf(s, t).Idle? || PcOf(s, t).i < |s.slots|)
    && (forall p: nat :: p in s.proxies ==>
          if Live(s.proxies[p]) then 0 <= s.proxies[p].index < |s.slots| else s.proxies[p] == MOVED_FROM)
    && (forall t: nat :: PcOf(s, t).LoggingIn? || PcOf(s, t).Returning? ==> s.slots[PcOf(s, t).i].conn.Some?)
  }

  ghost function Apply(s: State, a: Action): State
    requires InBounds(s) && Enabled(s, a)
  {
    match a
    case Begin(t) => At(s, t, Scanning(0))
    case TryLock(t, spurious) =>
      var i := PcOf(s, t).i;
      if s.slots[i].mutex.None? && !spurious then At(WithSlot(s, i, s.slots[i].(mutex := Some(t))), t, Locked(i))
      else At(s, t, Scanning(NextIndex(i, |s.slots|)))
    case Load(t) =>
      var i := PcOf(s, t).i;
      At(s, t, if s.slots[i].inUse then Skipping(i) else Claiming(i))
    case Skip(t) =>
      var i := PcOf(s, t).i;
      At(WithSlot(s, i, s.slots[i].(mutex := None)), t, Scanning(NextIndex(i, |s.slots|)))
    case Store(t) =>
      var i := PcOf(s, t).i;
      At(WithSlot(s, i, s.slots[i].(inUse := true)), t, Verifying(i))
    case Verify(t, alive) =>
      var i := PcOf(s, t).i;
      At(s, t, if s.slots[i].conn.Some? && alive then Returning(i) else Connecting(i))
    case Connect(t, connected) =>
      var i := PcOf(s, t).i;
      if connected then
        At(WithSlot(s, i, s.slots[i].(conn := Some(Connection(s.nextId, false)))), t, LoggingIn(i))
        .(nextId := s.nextId + 1)
      else At(WithSlot(s, i, s.slots[i].(conn := None)), t, Leaving(i))
    case Login(t, accepted) =>
      var i := PcOf(s, t).i;
      var conn := s.slots[i].conn.value;
      At(WithSlot(s, i, s.slots[i].(conn := Some(conn.(loggedIn := accepted)))), t,
         if accepted then Returning(i) else Leaving(i))
    case Construct(t, p) =>
      var i := PcOf(s, t).i;
      At(s, t, Leaving(i)).(proxies := s.proxies[p := Proxy(true, Some(s.slots[i].conn.value.id), i)])
    case Leave(t) =>
      var i := PcOf(s, t).i;
      At(WithSlot(s, i, s.slots[i].(mutex := None)), t, Idle)
    case MoveConstruct(src, dst) =>
      s.(proxies := s.proxies[dst := s.proxies[src]][src := MOVED_FROM])
    case MoveAssign(src, dst) =>
      s.(proxies := s.proxies[dst := s.proxies[src]][src := MOVED_FROM])
    case Destroy(p) =>
      var x := s.proxies[p];
      var rest := s.(proxies := s.proxies - {p});
      if Live(x) then WithSlot(rest, x.index, s.slots[x.index].(inUse := false)) else rest
  }

  // ----- Who holds a slot

  datatype Holder = ByThread(t: nat) | ByProxy(p: nat)

  predicate Claims(pc: Pc) {
    pc.Verifying? || pc.Connecting? || pc.LoggingIn? || pc.Returning?
  }

  predicate Holds(s: State, h: Holder, i: nat) {
    match h
    case ByThread(t) => Claims(PcOf(s, t)) && PcOf(s, t).i == i
    case ByProxy(p) => p in s.proxies && Live(s.proxies[p]) && s.proxies[p].index == i
  }

  predicate HasLock(pc: Pc) {
    !pc.Idle? && !pc.Scanning?
  }

  // ----- The invariant

  ghost predicate LocksMatch(s: State) {
    forall t: nat, i: nat :: i < |s.slots| ==>
      (s.slots[i].mutex == Some(t) <==> HasLock(PcOf(s, t)) && PcOf(s, t).i == i)
  }

  ghost predicate HeldByOne(s: State) {
    forall g, h, i: nat :: Holds(s, g, i) && Holds(s, h, i) ==> g == h
  }

  ghost predicate HeldAreInUse(s: State) {
    && (forall h, i: nat :: Holds(s, h, i) ==> i < |s.slots| && s.slots[i].inUse)
    && (forall t: nat :: PcOf(s, t).Claiming? ==> PcOf(s, t).i < |s.slots| && !s.slots[PcOf(s, t).i].inUse)
  }

  predicate Usable(slot: Slot) {
    slot.conn.Some? && slot.conn.value.loggedIn
  }

  ghost predicate FreeAreUsable(s: State) {
    forall i: nat :: i < |s.slots| && !s.slots[i].inUse ==> Usable(s.slots[i])
  }

  ghost predicate ReturnedAreUsable(s: State) {
    forall t: nat :: PcOf(s, t).Verifying? || PcOf(s, t).Returning? ==>
      PcOf(s, t).i < |s.slots| && Usable(s.slots[PcOf(s, t).i])
  }

  ghost predicate ProxiesAreUsable(s: State) {
    forall p: nat, i: nat :: Holds(s, ByProxy(p), i) ==> RefersToUsable(s, p, i)
  }

  predicate RefersToUsable(s: State, p: nat, i: nat) {
    && i < |s.slots| && Usable(s.slots[i])
    && p in s.proxies && s.proxies[p].conn == Some(s.slots[i].conn.value.id)
  }

  ghost predicate ConnectionsAreGood(s: State) {
    FreeAreUsable(s) && ReturnedAreUsable(s) && ProxiesAreUsable(s)
  }

  ghost predicate ConnectionsAreDistinct(s: State) {
    && (forall i: nat :: i < |s.slots| && s.slots[i].conn.Some? ==> s.slots[i].conn.value.id < s.nextId)
    && (forall i: nat, j: nat :: i < j < |s.slots| && s.slots[i].conn.Some? && s.slots[j].conn.Some? ==>
                      s.slots[i].conn.value.id != s.slots[j].conn.value.id)
  }

  ghost predicate Inv(s: State) {
    && InBounds(s) && LocksMatch(s) && HeldByOne(s) && HeldAreInUse(s)
    && ConnectionsAreGood(s) && ConnectionsAreDistinct(s)
  }

  lemma LockIsExclusive(s: State)
    requires InBounds(s) && LocksMatch(s)
    ensures forall t: nat, u: nat ::
              HasLock(PcOf(s, t)) && HasLock(PcOf(s, u)) && PcOf(s, t).i == PcOf(s, u).i ==> t == u
  {
    forall t: nat, u: nat | HasLock(PcOf(s, t)) && HasLock(PcOf(s, u)) && PcOf(s, t).i == PcOf(s, u).i
      ensures t == u
    {
      assert s.slots[PcOf(s, t).i].mutex == Some(t);
      assert s.slots[PcOf(s, u).i].mutex == Some(u);
    }
  }

  /** Who held, before a step, the slot that `h` holds after it. */
  function HeldBefore(a: Action, h: Holder): Holder {
    match a
    case Construct(t, p) => if h == ByProxy(p) then ByThread(t) else h
    case MoveConstruct(src, dst) => if h == ByProxy(dst) then ByProxy(src) else h
    case MoveAssign(src, dst) => if h == ByProxy(dst) then ByProxy(src) else h
    case _ => h
  }

  lemma HoldersComeFrom(s: State, a: Action, h: Holder, i: nat)
    requires InBounds(s) && Enabled(s, a) && Holds(Apply(s, a), h, i)
    ensures Holds(s, HeldBefore(a, h), i) || (a.Store? && h == ByThread(a.t) && i == PcOf(s, a.t).i)
    ensures a.Construct? ==> h != ByThread(a.t)
    ensures a.MoveConstruct? || a.MoveAssign? ==> h != ByProxy(a.src)
  {
  }

  lemma StepKeepsHeldByOne(s: State, a: Action)
    requires InBounds(s) && HeldByOne(s) && HeldAreInUse(s) && Enabled(s, a)
    ensures HeldByOne(Apply(s, a))
  {
    forall g, h, i: nat | Holds(Apply(s, a), g, i) && Holds(Apply(s, a), h, i)
      ensures g == h
    {
      HoldersComeFrom(s, a, g, i);
      HoldersComeFrom(s, a, h, i);
      assert Holds(s, HeldBefore(a, g), i) && Holds(s, HeldBefore(a, h), i) ==> HeldBefore(a, g) == HeldBefore(a, h);
    }
  }

  /** What a step leaves alone: other threads, and every slot but the one it works on; and it
      works on a slot only under its lock, but for a proxy clearing `in_use`. */
  lemma StepIsLocal(s: State, a: Action)
    requires InBounds(s) && LocksMatch(s) && Enabled(s, a)
    ensures var s' := Apply(s, a);
            && |s'.slots| == |s.slots|
            && (forall u: nat :: a.MoveConstruct? || a.MoveAssign? || a.Destroy? || u != a.t ==>
                  PcOf(s', u) == PcOf(s, u))
            && (forall i: nat :: i < |s.slots| ==>
                  || s'.slots[i] == s.slots[i]
                  || (a.TryLock? && s.slots[i].mutex.None? && i == PcOf(s, a.t).i)
                  || (a.Destroy? && Holds(s, ByProxy(a.p), i) && s'.slots[i] == s.slots[i].(inUse := false))
                  || (!a.TryLock? && !a.Destroy? && !a.MoveConstruct? && !a.MoveAssign? && HasLock(PcOf(s, a.t))
                    && i == PcOf(s, a.t).i))
  {
  }

  lemma StepKeepsBounds(s: State, a: Action)
    requires InBounds(s) && LocksMatch(s) && Enabled(s, a)
    ensures InBounds(Apply(s, a))
  {
    hide LocksMatch, HeldByOne;
    var s' := Apply(s, a);
    StepIsLocal(s, a);
    LockIsExclusive(s);
    forall u: nat
      ensures PcOf(s', u).Idle? || PcOf(s', u).i < |s'.slots|
      ensures PcOf(s', u).LoggingIn? || PcOf(s', u).Returning? ==> s'.slots[PcOf(s', u).i].conn.Some?
    {
      if a.MoveConstruct? || a.MoveAssign? || a.Destroy? || u != a.t {
        assert PcOf(s', u) == PcOf(s, u);
      }
    }
  }

  lemma StepKeepsLocks(s: State, a: Action)
    requires InBounds(s) && LocksMatch(s) && Enabled(s, a)
    ensures LocksMatch(Apply(s, a))
  {
    var s' := Apply(s, a);
    hide LocksMatch;
    forall t: nat, i: nat | i < |s'.slots|
      ensures s'.slots[i].mutex == Some(t) <==> HasLock(PcOf(s', t)) && PcOf(s', t).i == i
    {
      StepKeepsLock(s, a, t, i);
    }
    AllLocksMatch(s');
  }

  lemma StepKeepsLock(s: State, a: Action, t: nat, i: nat)
    requires InBounds(s) && LocksMatch(s) && Enabled(s, a) && i < |Apply(s, a).slots|
    ensures var s' := Apply(s, a); s'.slots[i].mutex == Some(t) <==> HasLock(PcOf(s', t)) && PcOf(s', t).i == i
  {
    hide LocksMatch;
    assert |Apply(s, a).slots| == |s.slots| by { StepIsLocal(s, a); }
    LockMatches(s, t, i);
    if !a.MoveConstruct? && !a.MoveAssign? && !a.Destroy? {
      LockMatches(s, a.t, i);
    }
  }

  lemma LockMatches(s: State, t: nat, i: nat)
    requires LocksMatch(s) && i < |s.slots|
    ensures s.slots[i].mutex == Some(t) <==> HasLock(PcOf(s, t)) && PcOf(s, t).i == i
  {
  }

  lemma AllLocksMatch(s: State)
    requires forall t: nat, i: nat :: i < |s.slots| ==>
               (s.slots[i].mutex == Some(t) <==> HasLock(PcOf(s, t)) && PcOf(s, t).i == i)
    ensures LocksMatch(s)
  {
  }

  lemma StepKeepsHeldInUse(s: State, a: Action)
    requires Inv(s) && Enabled(s, a)
    ensures HeldAreInUse(Apply(s, a))
  {
    var s' := Apply(s, a);
    StepIsLocal(s, a);
    LockIsExclusive(s);
    forall h, i: nat | Holds(s', h, i)
      ensures i < |s'.slots| && s'.slots[i].inUse
    {
      HoldersComeFrom(s, a, h, i);
    }
    forall u: nat | PcOf(s', u).Claiming?
      ensures PcOf(s', u).i < |s'.slots| && !s'.slots[PcOf(s', u).i].inUse
    {
      if a.MoveConstruct? || a.MoveAssign? || a.Destroy? || u != a.t {
        assert PcOf(s', u) == PcOf(s, u);
      }
    }
  }

  lemma StepKeepsFreeUsable(s: State, a: Action, i: nat)
    requires Inv(s) && Enabled(s, a)
    requires i < |Apply(s, a).slots| && !Apply(s, a).slots[i].inUse
    ensures Usable(Apply(s, a).slots[i])
  {
    StepIsLocal(s, a);
    LockIsExclusive(s);
    if a.Destroy? && Holds(s, ByProxy(a.p), i) {
    } else if a.Connect? || a.Login? {
      assert Holds(s, ByThread(a.t), PcOf(s, a.t).i);
    }
  }

  lemma StepKeepsThreadUsable(s: State, a: Action, u: nat)
    requires Inv(s) && Enabled(s, a)
    requires PcOf(Apply(s, a), u).Verifying? || PcOf(Apply(s, a), u).Returning?
    ensures PcOf(Apply(s, a), u).i < |s.slots| == |Apply(s, a).slots|
    ensures Usable(Apply(s, a).slots[PcOf(Apply(s, a), u).i])
  {
    var s' := Apply(s, a);
    StepIsLocal(s, a);
    LockIsExclusive(s);
    if a.MoveConstruct? || a.MoveAssign? || a.Destroy? || u != a.t {
      assert PcOf(s', u) == PcOf(s, u);
    }
  }

  lemma StepKeepsProxyUsable(s: State, a: Action, p: nat, i: nat)
    requires Inv(s) && Enabled(s, a)
    requires Holds(Apply(s, a), ByProxy(p), i)
    ensures RefersToUsable(Apply(s, a), p, i)
  {
    var s' := Apply(s, a);
    var h := HeldBefore(a, ByProxy(p));
    StepIsLocal(s, a);
    LockIsExclusive(s);
    HoldersComeFrom(s, a, ByProxy(p), i);
    assert Holds(s, h, i);
    if a.Connect? || a.Login? {
      assert Holds(s, ByThread(a.t), PcOf(s, a.t).i);
      assert s'.slots[i] == s.slots[i];
    }
  }

  lemma StepKeepsReturnedUsable(s: State, a: Action)
    requires Inv(s) && Enabled(s, a)
    ensures ReturnedAreUsable(Apply(s, a))
  {
    var s' := Apply(s, a);
    forall u: nat | PcOf(s', u).Verifying? || PcOf(s', u).Returning?
      ensures PcOf(s', u).i < |s'.slots| && Usable(s'.slots[PcOf(s', u).i])
    {
      StepKeepsThreadUsable(s, a, u);
    }
  }

  lemma StepKeepsProxiesUsable(s: State, a: Action)
    requires Inv(s) && Enabled(s, a)
    ensures ProxiesAreUsable(Apply(s, a))
  {
    var s' := Apply(s, a);
    hide Apply, Holds, RefersToUsable;
    forall p: nat, i: nat | Holds(s', ByProxy(p), i) ensures RefersToUsable(s', p, i) {
      StepKeepsProxyUsable(s, a, p, i);
    }
  }

  lemma StepKeepsConnections(s: State, a: Action)
    requires Inv(s) && Enabled(s, a)
    ensures ConnectionsAreGood(Apply(s, a))
  {
    forall i: nat | i < |Apply(s, a).slots| && !Apply(s, a).slots[i].inUse ensures Usable(Apply(s, a).slots[i]) {
      StepKeepsFreeUsable(s, a, i);
    }
    StepKeepsReturnedUsable(s, a);
    StepKeepsProxiesUsable(s, a);
  }

  /** A slot has its connection from before the step or a new one with the next number. */
  lemma ConnectionIsOldOrNew(s: State, a: Action, i: nat)
    requires InBounds(s) && Enabled(s, a) && i < |s.slots|
    ensures var s' := Apply(s, a);
            && |s'.slots| == |s.slots| && s.nextId <= s'.nextId
            && (s'.slots[i].conn.Some? ==>
                  var id := s'.slots[i].conn.value.id;
                  || (s.slots[i].conn.Some? && s.slots[i].conn.value.id == id)
                  || (a.Connect? && i == PcOf(s, a.t).i && id == s.nextId < s'.nextId))
  {
  }

  lemma StepKeepsDistinct(s: State, a: Action)
    requires InBounds(s) && ConnectionsAreDistinct(s) && Enabled(s, a)
    ensures ConnectionsAreDistinct(Apply(s, a))
  {
    var s' := Apply(s, a);
    hide Apply, InBounds, Enabled, PcOf;
    forall i: nat | i < |s'.slots| && s'.slots[i].conn.Some? ensures s'.slots[i].conn.value.id < s'.nextId {
      ConnectionIsOldOrNew(s, a, 0);
      ConnectionIsOldOrNew(s, a, i);
    }
    forall i: nat, j: nat | i < j < |s'.slots| && s'.slots[i].conn.Some? && s'.slots[j].conn.Some?
      ensures s'.slots[i].conn.value.id != s'.slots[j].conn.value.id
    {
      ConnectionIsOldOrNew(s, a, 0);
      ConnectionIsOldOrNew(s, a, i);
      ConnectionIsOldOrNew(s, a, j);
    }
  }

  lemma StepKeepsInv(s: State, a: Action)
    requires Inv(s) && Enabled(s, a)
    ensures Inv(Apply(s, a))
  {
    StepKeepsBounds(s, a);
    StepKeepsLocks(s, a);
    StepKeepsHeldByOne(s, a);
    StepKeepsHeldInUse(s, a);
    StepKeepsConnections(s, a);
    StepKeepsDistinct(s, a);
  }

  // ----- Runs

  /** The actions can be taken one after another. */
  ghost predicate CanRun(s: State, acts: seq<Action>)
    decreases |acts|
  {
    acts == [] || (InBounds(s) && Enabled(s, acts[0]) && CanRun(Apply(s, acts[0]), acts[1..]))
  }

  ghost function After(s: State, acts: seq<Action>): State
    requires CanRun(s, acts)
    decreases |acts|
  {
    if acts == [] then s else After(Apply(s, acts[0]), acts[1..])
  }

  /** A pool as its constructor leaves it. */
  ghost predicate IsFresh(s: State) {
    && s.slots != [] && s.pcs == map[] && s.proxies == map[]
    && (forall i :: 0 <= i < |s.slots| ==> s.slots[i].mutex.None? && !s.slots[i].inUse && Usable(s.slots[i]))
    && ConnectionsAreDistinct(s)
  }

  lemma {:induction false} RunKeepsInv(s: State, acts: seq<Action>)
    requires Inv(s) && CanRun(s, acts)
    ensures Inv(After(s, acts))
    decreases |acts|
  {
    if acts != [] {
      StepKeepsInv(s, acts[0]);
      RunKeepsInv(Apply(s, acts[0]), acts[1..]);
    }
  }

  lemma FreshIsInv(s: State)
    requires IsFresh(s)
    ensures Inv(s)
  {
  }

  /** In every state any run can reach: a slot has at most one holder and is in use while it has
      one; a live proxy refers to its slot's own connection, which is logged in; and no two live
      proxies refer to one connection. */
  lemma RunsAreSafe(s: State, acts: seq<Action>)
    requires IsFresh(s) && CanRun(s, acts)
    ensures var z := After(s, acts);
            && (forall g, h, i: nat :: Holds(z, g, i) && Holds(z, h, i) ==> g == h)
            && (forall h, i: nat :: Holds(z, h, i) ==> i < |z.slots| && z.slots[i].inUse)
            && (forall p, i: nat :: Holds(z, ByProxy(p), i) ==>
                  Usable(z.slots[i]) && z.proxies[p].conn == Some(z.slots[i].conn.value.id))
            && (forall p, q, i: nat, j: nat :: Holds(z, ByProxy(p), i) && Holds(z, ByProxy(q), j) && p != q ==>
                  z.proxies[p].conn != z.proxies[q].conn)
  {
    FreshIsInv(s);
    RunKeepsInv(s, acts);
    var z := After(s, acts);
    forall p, q, i: nat, j: nat | Holds(z, ByProxy(p), i) && Holds(z, ByProxy(q), j) && p != q
      ensures z.proxies[p].conn != z.proxies[q].conn
    {
      assert i != j;
      assert i < j || j < i;
    }
  }

  /** A proxy that was moved from gives nothing back when it goes. */
  lemma MovedFromReleasesNothing(s: State, src: nat, dst: nat, assign: bool)
    requires Inv(s) && src != dst && Enabled(s, if assign then MoveAssign(src, dst) else MoveConstruct(src, dst))
    ensures var moved := Apply(s, if assign then MoveAssign(src, dst) else MoveConstruct(src, dst));
            InBounds(moved) && Enabled(moved, Destroy(src)) && Apply(moved, Destroy(src)).slots == s.slots
            && Apply(moved, Destroy(src)).proxies == (s.proxies - {src})[dst := s.proxies[src]]
  {
    var a := if assign then MoveAssign(src, dst) else MoveConstruct(src, dst);
    StepKeepsInv(s, a);
    var moved := Apply(s, a);
    assert moved.proxies[src] == MOVED_FROM;
    assert moved.proxies - {src} == (s.proxies - {src})[dst := s.proxies[src]];
  }

  // ----- Slots that are lost

  /** In use with nobody left to return it. */
  ghost predicate IsLost(s: State, i: nat) {
    i < |s.slots| && s.slots[i].inUse && forall h :: !Holds(s, h, i)
  }

  /** A lost slot's lock stays free of claimants, so nothing ever brings it back. */
  lemma StepKeepsLost(s: State, a: Action, i: nat)
    requires Inv(s) && Enabled(s, a) && IsLost(s, i)
    ensures IsLost(Apply(s, a), i) && Apply(s, a).slots[i].conn == s.slots[i].conn
  {
    var s' := Apply(s, a);
    StepIsLocal(s, a);
    LockIsExclusive(s);
    forall h ensures !Holds(s', h, i) {
      if Holds(s', h, i) {
        HoldersComeFrom(s, a, h, i);
      }
    }
    if !(a.MoveConstruct? || a.MoveAssign? || a.Destroy?) && Claims(PcOf(s, a.t)) {
      assert Holds(s, ByThread(a.t), PcOf(s, a.t).i);
    }
  }

  /** A lost slot is never handed out again: whatever runs next, nobody holds it and its
      connection stays as the failed refresh left it. */
  lemma {:induction false} LostForever(s: State, acts: seq<Action>, i: nat)
    requires Inv(s) && CanRun(s, acts) && IsLost(s, i)
    ensures IsLost(After(s, acts), i) && After(s, acts).slots[i].conn == s.slots[i].conn
    decreases |acts|
  {
    if acts != [] {
      StepKeepsInv(s, acts[0]);
      StepKeepsLost(s, acts[0], i);
      LostForever(Apply(s, acts[0]), acts[1..], i);
    }
  }

  /** The steps that lose a slot: a refresh that throws, and assigning over a live proxy. */
  predicate Loses(s: State, a: Action) {
    match a
    case Connect(_, connected) => !connected
    case Login(_, accepted) => !accepted
    case MoveAssign(_, dst) => dst in s.proxies && Live(s.proxies[dst])
    case _ => false
  }

  ghost function Lost(s: State): set<nat> {
    set i: nat | i < |s.slots| && IsLost(s, i)
  }

  ghost function LosingSteps(s: State, acts: seq<Action>): nat
    requires CanRun(s, acts)
    decreases |acts|
  {
    if acts == [] then 0 else
    (if Loses(s, acts[0]) then 1 else 0) + LosingSteps(Apply(s, acts[0]), acts[1..])
  }

  /** The slot a losing step loses. */
  ghost function LostSlot(s: State, a: Action): nat
    requires InBounds(s) && Enabled(s, a) && Loses(s, a)
  {
    match a
    case Connect(t, _) => PcOf(s, t).i
    case Login(t, _) => PcOf(s, t).i
    case MoveAssign(_, dst) => s.proxies[dst].index as nat
  }

  lemma LosingStepLoses(s: State, a: Action)
    requires Inv(s) && Enabled(s, a) && Loses(s, a)
    ensures !IsLost(s, LostSlot(s, a)) && IsLost(Apply(s, a), LostSlot(s, a))
    ensures !a.MoveAssign? ==> !Usable(Apply(s, a).slots[LostSlot(s, a)])
  {
    var i := LostSlot(s, a);
    var holder := if a.MoveAssign? then ByProxy(a.dst) else ByThread(a.t);
    assert Holds(s, holder, i);
    StepIsLocal(s, a);
    forall h ensures !Holds(Apply(s, a), h, i) {
      if Holds(Apply(s, a), h, i) {
        HoldersComeFrom(s, a, h, i);
      }
    }
  }

  /** Who holds a slot after a step, if its holder `h` is not dropped. */
  function HeldAfter(a: Action, h: Holder): Holder {
    match a
    case Construct(t, p) => if h == ByThread(t) then ByProxy(p) else h
    case MoveConstruct(src, dst) => if h == ByProxy(src) then ByProxy(dst) else h
    case MoveAssign(src, dst) => if h == ByProxy(src) then ByProxy(dst) else h
    case _ => h
  }

  lemma OtherHoldersStay(s: State, a: Action, h: Holder, i: nat)
    requires Inv(s) && Enabled(s, a) && Holds(s, h, i)
    requires Loses(s, a) ==> i != LostSlot(s, a)
    requires !(a.Destroy? && h == ByProxy(a.p))
    ensures Holds(Apply(s, a), HeldAfter(a, h), i)
  {
    hide ConnectionsAreGood, ConnectionsAreDistinct, LocksMatch, HeldAreInUse;
  }

  lemma NewlyLost(s: State, a: Action, i: nat)
    requires Inv(s) && Enabled(s, a) && !IsLost(s, i) && IsLost(Apply(s, a), i)
    ensures Loses(s, a) && i == LostSlot(s, a)
  {
    var s' := Apply(s, a);
    StepIsLocal(s, a);
    LockIsExclusive(s);
    if s.slots[i].inUse {
      var h :| Holds(s, h, i);
      if !(Loses(s, a) && i == LostSlot(s, a)) && !(a.Destroy? && h == ByProxy(a.p)) {
        OtherHoldersStay(s, a, h, i);
      }
    } else if a.Store? {
      assert Holds(s', ByThread(a.t), PcOf(s, a.t).i);
    }
  }

  lemma StepLosesAtMostOne(s: State, a: Action)
    requires Inv(s) && Enabled(s, a)
    ensures Lost(Apply(s, a)) == if Loses(s, a) then Lost(s) + {LostSlot(s, a)} else Lost(s)
    ensures Loses(s, a) ==> LostSlot(s, a) !in Lost(s)
  {
    var s' := Apply(s, a);
    assert |s'.slots| == |s.slots| by { StepIsLocal(s, a); }
    forall i: nat ensures i in Lost(s') <==> i in Lost(s) || (Loses(s, a) && i == LostSlot(s, a)) {
      if IsLost(s, i) {
        StepKeepsLost(s, a, i);
      } else if IsLost(s', i) {
        NewlyLost(s, a, i);
      }
      if Loses(s, a) {
        LosingStepLoses(s, a);
      }
    }
    if Loses(s, a) {
      LosingStepLoses(s, a);
    }
  }

  /** The lost slots of a run are counted exactly by its losing steps; in particular every slot in
      use has a holder, at the end of a run from a fresh pool, exactly when no step of the run was
      a losing one. */
  lemma {:induction false} LostSlotsAreCounted(s: State, acts: seq<Action>)
    requires Inv(s) && CanRun(s, acts)
    ensures |Lost(After(s, acts))| == |Lost(s)| + LosingSteps(s, acts)
    ensures Lost(s) == {} ==> (Lost(After(s, acts)) == {} <==> LosingSteps(s, acts) == 0)
    decreases |acts|
  {
    if acts != [] {
      StepKeepsInv(s, acts[0]);
      StepLosesAtMostOne(s, acts[0]);
      LostSlotsAreCounted(Apply(s, acts[0]), acts[1..]);
    }
    assert |Lost(After(s, acts))| == 0 <==> Lost(After(s, acts)) == {};
  }

  lemma FreshLosesNothing(s: State)
    requires IsFresh(s)
    ensures Lost(s) == {}
  {
  }

  /** In a run from a fresh pool as many slots are lost as there were losing steps; every slot in use
      has a holder at the end exactly when there were none. */
  lemma SlotsAreConserved(s: State, acts: seq<Action>)
    requires IsFresh(s) && CanRun(s, acts)
    ensures var z := After(s, acts);
            && |Lost(z)| == LosingSteps(s, acts)
            && ((forall i: nat :: i < |z.slots| && z.slots[i].inUse ==> exists h :: Holds(z, h, i)) <==>
                  LosingSteps(s, acts) == 0)
  {
    FreshIsInv(s);
    FreshLosesNothing(s);
    LostSlotsAreCounted(s, acts);
    var z := After(s, acts);
    if LosingSteps(s, acts) == 0 {
      forall i: nat | i < |z.slots| && z.slots[i].inUse ensures exists h :: Holds(z, h, i) {
        assert i !in Lost(z);
      }
    } else {
      var i :| i in Lost(z);
      assert z.slots[i].inUse && !exists h :: Holds(z, h, i);
    }
  }

  // ----- A thread on its own

  predicate Available(s: State, i: nat) {
    i < |s.slots| && s.slots[i].mutex.None? && !s.slots[i].inUse
  }

  /** The pool after a thread has claimed a slot, about to verify its connection. */
  function Claimed(s: State, t: nat, i: nat): State
    requires i < |s.slots|
  {
    At(WithSlot(s, i, Slot(Some(t), true, s.slots[i].conn)), t, Verifying(i))
  }

  /** The slot `d` places after `i`, going round. */
  function Round(i: nat, d: nat, n: nat): nat
    requires i < n
    decreases d
  {
    if d == 0 then i else Round(NextIndex(i, n), d - 1, n)
  }

  /** The thread's own steps at one slot. */
  function OwnSteps(s: State, t: nat, i: nat): seq<Action>
    requires i < |s.slots|
  {
    if s.slots[i].mutex.Some? then [TryLock(t, false)] else
    [TryLock(t, false), Load(t), if s.slots[i].inUse then Skip(t) else Store(t)]
  }

  function SoloRun(s: State, t: nat, i: nat, d: nat): seq<Action>
    requires i < |s.slots|
    decreases d
  {
    OwnSteps(s, t, i) + if d == 0 then [] else SoloRun(s, t, NextIndex(i, |s.slots|), d - 1)
  }

  lemma {:induction false} RunConcat(s: State, acts: seq<Action>, more: seq<Action>)
    requires CanRun(s, acts) && CanRun(After(s, acts), more)
    ensures CanRun(s, acts + more) && After(s, acts + more) == After(After(s, acts), more)
    decreases |acts|
  {
    hide Apply, InBounds, Enabled;
    if acts == [] {
      assert acts + more == more;
    } else {
      assert (acts + more)[0] == acts[0];
      assert (acts + more)[1..] == acts[1..] + more;
      RunConcat(Apply(s, acts[0]), acts[1..], more);
    }
  }

  lemma FirstStep(s: State, a: Action, rest: seq<Action>)
    requires InBounds(s) && Enabled(s, a) && CanRun(Apply(s, a), rest)
    ensures CanRun(s, [a] + rest) && After(s, [a] + rest) == After(Apply(s, a), rest)
  {
    assert ([a] + rest)[1..] == rest;
  }

  lemma RunOfThree(s: State, a: Action, b: Action, c: Action)
    requires InBounds(s) && Enabled(s, a)
    requires InBounds(Apply(s, a)) && Enabled(Apply(s, a), b)
    requires InBounds(Apply(Apply(s, a), b)) && Enabled(Apply(Apply(s, a), b), c)
    ensures CanRun(s, [a, b, c]) && After(s, [a, b, c]) == Apply(Apply(Apply(s, a), b), c)
  {
    hide Apply, Enabled, InBounds;
    var x, y := Apply(s, a), Apply(Apply(s, a), b);
    FirstStep(y, c, []);
    FirstStep(x, b, [c] + []);
    FirstStep(s, a, [b] + ([c] + []));
    assert [a, b, c] == [a] + ([b] + ([c] + []));
  }

  /** What the three steps under a slot's lock come to. */
  lemma LastOwnStep(s: State, t: nat, i: nat)
    requires InBounds(s) && PcOf(s, t) == Scanning(i) && s.slots[i].mutex.None?
    ensures Enabled(s, TryLock(t, false))
    ensures var x := Apply(s, TryLock(t, false));
            InBounds(x) ==>
              && Enabled(x, Load(t))
              && var y := Apply(x, Load(t));
                 InBounds(y) ==>
                   if s.slots[i].inUse then
                     Enabled(y, Skip(t)) && Apply(y, Skip(t)) == At(s, t, Scanning(NextIndex(i, |s.slots|)))
                   else
                     Enabled(y, Store(t)) && Apply(y, Store(t)) == Claimed(s, t, i)
  {
    var x := Apply(s, TryLock(t, false));
    if InBounds(x) && InBounds(Apply(x, Load(t))) {
      var y := Apply(x, Load(t));
      if s.slots[i].inUse {
        assert Apply(y, Skip(t)).slots == s.slots;
        assert Apply(y, Skip(t)).pcs == s.pcs[t := Scanning(NextIndex(i, |s.slots|))];
      } else {
        assert Apply(y, Store(t)).slots == Claimed(s, t, i).slots;
        assert Apply(y, Store(t)).pcs == Claimed(s, t, i).pcs;
      }
    }
  }

  lemma MovesPastLocked(s: State, t: nat, i: nat)
    requires InBounds(s) && PcOf(s, t) == Scanning(i) && s.slots[i].mutex.Some?
    ensures CanRun(s, [TryLock(t, false)])
    ensures After(s, [TryLock(t, false)]) == At(s, t, Scanning(NextIndex(i, |s.slots|)))
  {
    FirstStep(s, TryLock(t, false), []);
    assert [TryLock(t, false)] == [TryLock(t, false)] + [];
  }

  /** At a slot that is not available the thread moves on and leaves the pool as it was; at one
      that is, it claims it. */
  lemma OwnStepsAtSlot(s: State, t: nat, i: nat)
    requires Inv(s) && PcOf(s, t) == Scanning(i)
    ensures CanRun(s, OwnSteps(s, t, i))
    ensures !Available(s, i) ==> After(s, OwnSteps(s, t, i)) == At(s, t, Scanning(NextIndex(i, |s.slots|)))
    ensures Available(s, i) ==> After(s, OwnSteps(s, t, i)) == Claimed(s, t, i)
  {
    hide Apply, HeldByOne, HeldAreInUse, ConnectionsAreGood, ConnectionsAreDistinct, Claimed, CanRun, After;
    if s.slots[i].mutex.Some? {
      MovesPastLocked(s, t, i);
    } else {
      LastOwnStep(s, t, i);
      StepKeepsInv(s, TryLock(t, false));
      var x := Apply(s, TryLock(t, false));
      StepKeepsInv(x, Load(t));
      RunOfThree(s, TryLock(t, false), Load(t), if s.slots[i].inUse then Skip(t) else Store(t));
    }
  }

  lemma {:induction false} SameSlotsSameRun(r: State, s: State, t: nat, i: nat, d: nat)
    requires r.slots == s.slots && i < |s.slots|
    ensures SoloRun(r, t, i, d) == SoloRun(s, t, i, d)
    decreases d
  {
    if d > 0 {
      SameSlotsSameRun(r, s, t, NextIndex(i, |s.slots|), d - 1);
    }
  }

  lemma BoundsOfScan(s: State, t: nat)
    requires Inv(s) && PcOf(s, t).Scanning?
    ensures PcOf(s, t).i < |s.slots|
  {
  }

  lemma OwnStepsAreFew(s: State, t: nat, i: nat)
    ensures i < |s.slots| ==> |OwnSteps(s, t, i)| <= 3
  {
  }

  lemma SoloRunMovesOn(s: State, t: nat, i: nat, d: nat, moved: State)
    requires Inv(s) && PcOf(s, t) == Scanning(i) && !Available(s, i) && d > 0
    requires moved == At(s, t, Scanning(NextIndex(i, |s.slots|)))
    requires CanRun(moved, SoloRun(moved, t, NextIndex(i, |s.slots|), d - 1))
    ensures var rest := SoloRun(moved, t, NextIndex(i, |s.slots|), d - 1);
            && |SoloRun(s, t, i, d)| <= 3 + |rest|
            && CanRun(s, SoloRun(s, t, i, d))
            && After(s, SoloRun(s, t, i, d)) == After(moved, rest)
  {
    hide Apply, Enabled, Inv, CanRun, After, Available, OwnSteps;
    OwnStepsAtSlot(s, t, i);
    OwnStepsAreFew(s, t, i);
    assert i < |s.slots| && moved.slots == s.slots by { BoundsOfScan(s, t); }
    SameSlotsSameRun(s, moved, t, NextIndex(i, |s.slots|), d - 1);
    RunConcat(s, OwnSteps(s, t, i), SoloRun(moved, t, NextIndex(i, |s.slots|), d - 1));
  }

  lemma MovedOnIsInv(s: State, t: nat, i: nat)
    requires Inv(s) && PcOf(s, t) == Scanning(i) && !Available(s, i)
    ensures Inv(At(s, t, Scanning(NextIndex(i, |s.slots|))))
  {
    OwnStepsAtSlot(s, t, i);
    RunKeepsInv(s, OwnSteps(s, t, i));
  }

  lemma ClaimedFrom(s: State, t: nat, pc: Pc, k: nat)
    ensures k < |s.slots| ==> Claimed(At(s, t, pc), t, k) == Claimed(s, t, k)
  {
    assert k < |s.slots| ==> Claimed(At(s, t, pc), t, k).pcs == Claimed(s, t, k).pcs;
  }

  /** Left to itself, and when no try at a lock fails spuriously, a scanning thread claims the first
      available slot it comes to, in at most three steps a slot. */
  lemma {:induction false} SoloRunClaims(s: State, t: nat, i: nat, d: nat)
    requires Inv(s) && PcOf(s, t) == Scanning(i)
    requires Available(s, Round(i, d, |s.slots|))
    requires forall e: nat :: e < d ==> !Available(s, Round(i, e, |s.slots|))
    ensures CanRun(s, SoloRun(s, t, i, d)) && |SoloRun(s, t, i, d)| <= 3 * (d + 1)
    ensures After(s, SoloRun(s, t, i, d)) == Claimed(s, t, Round(i, d, |s.slots|))
    decreases d
  {
    hide Apply, Enabled, Inv, CanRun, After, OwnSteps, Claimed;
    if d == 0 {
      OwnStepsAtSlot(s, t, i);
      OwnStepsAreFew(s, t, i);
      assert OwnSteps(s, t, i) + [] == OwnSteps(s, t, i);
    } else {
      BoundsOfScan(s, t);
      var n, next := |s.slots|, NextIndex(i, |s.slots|);
      var moved := At(s, t, Scanning(next));
      assert !Available(s, Round(i, 0, n));
      MovedOnIsInv(s, t, i);
      forall e: nat | e < d - 1 ensures !Available(moved, Round(next, e, n)) {
        assert !Available(s, Round(i, e + 1, n));
      }
      SoloRunClaims(moved, t, next, d - 1);
      SoloRunMovesOn(s, t, i, d, moved);
      ClaimedFrom(s, t, Scanning(next), Round(i, d, n));
    }
  }

  lemma {:induction false} RoundIs(i: nat, d: nat, n: nat)
    requires i < n && d < n
    ensures Round(i, d, n) == if i + d < n then i + d else i + d - n
    decreases d
  {
    if d > 0 {
      RoundIs(NextIndex(i, n), d - 1, n);
    }
  }

  /** The thread's own steps from verifying a connection on, when the server accepts a new connection
      wherever one is needed, and from there to the return of a proxy. */
  function VerifySteps(t: nat, alive: bool): seq<Action> {
    if alive then [Verify(t, true)] else [Verify(t, false), Connect(t, true), Login(t, true)]
  }

  function ReturnSteps(t: nat, alive: bool, p: nat): seq<Action> {
    VerifySteps(t, alive) + [Construct(t, p), Leave(t)]
  }

  /** The connection that is handed out then. */
  function IdToReturn(s: State, i: nat, alive: bool): nat
    requires i < |s.slots| && s.slots[i].conn.Some?
  {
    if alive then s.slots[i].conn.value.id else s.nextId
  }

  /** The proxy is there and its slot is in use and unlocked; nothing else differs but the count of
      connections. */
  ghost predicate HandsOut(s: State, z: State, t: nat, i: nat, id: nat, p: nat) {
    && i < |s.slots| && z.slots == s.slots[i := Slot(None, true, Some(Connection(id, true)))]
    && z.proxies == s.proxies[p := Proxy(true, Some(id), i)] && Live(z.proxies[p])
    && z.pcs == s.pcs[t := Idle]
  }

  lemma VerifyingIsUsable(s: State, t: nat, i: nat)
    requires Inv(s) && PcOf(s, t) == Verifying(i)
    ensures i < |s.slots| && s.slots[i].inUse && Usable(s.slots[i])
  {
    assert Holds(s, ByThread(t), i);
  }

  lemma RunOfTwo(s: State, a: Action, b: Action)
    requires InBounds(s) && Enabled(s, a)
    requires InBounds(Apply(s, a)) && Enabled(Apply(s, a), b)
    ensures CanRun(s, [a, b]) && After(s, [a, b]) == Apply(Apply(s, a), b)
  {
    hide Apply, Enabled, InBounds;
    FirstStep(Apply(s, a), b, []);
    FirstStep(s, a, [b] + []);
    assert [a, b] == [a] + ([b] + []);
  }

  lemma ReturnsFrom(s: State, t: nat, i: nat, p: nat)
    requires Inv(s) && PcOf(s, t) == Returning(i) && p !in s.proxies
    ensures i < |s.slots| && Usable(s.slots[i])
    ensures CanRun(s, [Construct(t, p), Leave(t)])
    ensures var z, id := After(s, [Construct(t, p), Leave(t)]), s.slots[i].conn.value.id;
            && z.slots == s.slots[i := s.slots[i].(mutex := None)]
            && z.proxies == s.proxies[p := Proxy(true, Some(id), i)] && z.pcs == s.pcs[t := Idle]
  {
    StepKeepsInv(s, Construct(t, p));
    RunOfTwo(s, Construct(t, p), Leave(t));
    assert After(s, [Construct(t, p), Leave(t)]).pcs == s.pcs[t := Idle];
  }

  lemma RunOfOne(s: State, a: Action)
    requires InBounds(s) && Enabled(s, a)
    ensures CanRun(s, [a]) && After(s, [a]) == Apply(s, a)
  {
    hide Apply, Enabled, InBounds;
    FirstStep(s, a, []);
    assert [a] == [a] + [];
  }

  /** A new connection with the next number, logged in. */
  lemma ReplaceSteps(s: State, t: nat, i: nat)
    requires InBounds(s) && PcOf(s, t) == Connecting(i)
    ensures Enabled(s, Connect(t, true))
    ensures var y := Apply(s, Connect(t, true));
            InBounds(y) ==>
              && Enabled(y, Login(t, true))
              && var z := Apply(y, Login(t, true));
                 && z.slots == s.slots[i := s.slots[i].(conn := Some(Connection(s.nextId, true)))]
                 && z.proxies == s.proxies && z.pcs == s.pcs[t := Returning(i)]
  {
  }

  lemma VerifyStep(s: State, t: nat, i: nat, alive: bool)
    requires InBounds(s) && PcOf(s, t) == Verifying(i) && s.slots[i].conn.Some?
    ensures Enabled(s, Verify(t, alive))
    ensures Apply(s, Verify(t, alive)) == At(s, t, if alive then Returning(i) else Connecting(i))
  {
  }

  /** The connection that is to be handed out is the old one or a new one that is logged in. */
  lemma VerifiesOrReplaces(s: State, t: nat, i: nat, alive: bool)
    requires Inv(s) && PcOf(s, t) == Verifying(i)
    ensures i < |s.slots| && Usable(s.slots[i]) && CanRun(s, VerifySteps(t, alive))
    ensures var z, c := After(s, VerifySteps(t, alive)), Connection(IdToReturn(s, i, alive), true);
            && z.slots == s.slots[i := Slot(s.slots[i].mutex, true, Some(c))]
            && z.proxies == s.proxies && z.pcs == s.pcs[t := Returning(i)]
  {
    hide Apply, Enabled, InBounds, HeldByOne, HeldAreInUse, ConnectionsAreGood, ConnectionsAreDistinct, LocksMatch;
    hide CanRun, After;
    VerifyingIsUsable(s, t, i);
    VerifyStep(s, t, i, alive);
    var x := Apply(s, Verify(t, alive));
    StepKeepsInv(s, Verify(t, alive));
    if alive {
      RunOfOne(s, Verify(t, true));
      assert s.slots[i := s.slots[i]] == s.slots;
    } else {
      ReplaceSteps(x, t, i);
      StepKeepsInv(x, Connect(t, true));
      RunOfThree(s, Verify(t, false), Connect(t, true), Login(t, true));
      assert x.pcs[t := Returning(i)] == s.pcs[t := Returning(i)];
    }
  }

  lemma ReturnedAgainst(s: State, y: State, z: State, t: nat, i: nat, id: nat, p: nat)
    requires i < |s.slots| && y.slots == s.slots[i := Slot(s.slots[i].mutex, true, Some(Connection(id, true)))]
    requires y.proxies == s.proxies && y.pcs == s.pcs[t := Returning(i)]
    requires z.slots == y.slots[i := y.slots[i].(mutex := None)]
    requires z.proxies == y.proxies[p := Proxy(true, Some(id), i)] && z.pcs == y.pcs[t := Idle]
    ensures HandsOut(s, z, t, i, id, p)
  {
    assert z.pcs == s.pcs[t := Idle];
    assert z.slots == s.slots[i := Slot(None, true, Some(Connection(id, true)))];
  }

  /** A thread that goes on alone returns the slot's own connection, untouched, if it was found alive,
      and otherwise a new one that is logged in. */
  lemma AloneItReturns(s: State, t: nat, i: nat, alive: bool, p: nat)
    requires Inv(s) && PcOf(s, t) == Verifying(i) && p !in s.proxies
    ensures i < |s.slots| && Usable(s.slots[i])
    ensures CanRun(s, ReturnSteps(t, alive, p))
    ensures HandsOut(s, After(s, ReturnSteps(t, alive, p)), t, i, IdToReturn(s, i, alive), p)
  {
    hide Apply, Inv, CanRun, After, VerifySteps, HandsOut;
    VerifiesOrReplaces(s, t, i, alive);
    RunKeepsInv(s, VerifySteps(t, alive));
    var y := After(s, VerifySteps(t, alive));
    ReturnsFrom(y, t, i, p);
    RunConcat(s, VerifySteps(t, alive), [Construct(t, p), Leave(t)]);
    ReturnedAgainst(s, y, After(y, [Construct(t, p), Leave(t)]), t, i, IdToReturn(s, i, alive), p);
  }

  /** So if any slot is available when the thread begins, it ends with a proxy for one that was, in at
      most three steps for each slot of the pool and five more. */
  lemma AloneItGetsAConnection(s: State, t: nat, j: nat, alive: bool, p: nat) returns (acts: seq<Action>, i: nat)
    requires Inv(s) && PcOf(s, t) == Scanning(0) && Available(s, j) && p !in s.proxies
    ensures CanRun(s, acts) && |acts| <= 3 * |s.slots| + 5
    ensures Available(s, i) && Usable(s.slots[i])
    ensures HandsOut(s, After(s, acts), t, i, IdToReturn(s, i, alive), p)
  {
    var n := |s.slots|;
    RoundIs(0, j, n);
    var d := 0;
    while !Available(s, Round(0, d, n))
      invariant d <= j
      invariant forall e: nat :: e < d ==> !Available(s, Round(0, e, n))
      decreases j - d
    {
      d := d + 1;
    }
    SoloRunClaims(s, t, 0, d);
    i := Round(0, d, n);
    var claiming, returning := SoloRun(s, t, 0, d), ReturnSteps(t, alive, p);
    var claimed := Claimed(s, t, i);
    RunKeepsInv(s, claiming);
    AloneItReturns(claimed, t, i, alive, p);
    hide Apply, After, CanRun, Inv, SoloRun, ReturnSteps;
    RunConcat(s, claiming, returning);
    ClaimedHandsOut(s, After(claimed, returning), t, i, alive, p);
    ReturnStepsAreFew(t, alive, p);
    acts := claiming + returning;
  }

  lemma ReturnStepsAreFew(t: nat, alive: bool, p: nat)
    ensures |ReturnSteps(t, alive, p)| <= 5
  {
  }

  lemma ClaimedHandsOut(s: State, z: State, t: nat, i: nat, alive: bool, p: nat)
    requires i < |s.slots| && Usable(s.slots[i])
    requires HandsOut(Claimed(s, t, i), z, t, i, IdToReturn(Claimed(s, t, i), i, alive), p)
    ensures HandsOut(s, z, t, i, IdToReturn(s, i, alive), p)
  {
    assert z.pcs == s.pcs[t := Idle];
  }

  // ----- What is handed out, whatever the others do

  predicate IsStepOf(a: Action, t: nat) {
    !a.MoveConstruct? && !a.MoveAssign? && !a.Destroy? && a.t == t
  }

  /** The thread does not return in the run. */
  predicate StaysInside(acts: seq<Action>, t: nat) {
    forall a :: a in acts ==> !(IsStepOf(a, t) && (a.Construct? || a.Leave?))
  }

  /** The thread is to return the connection `c` of slot `i`. */
  ghost predicate Keeps(z: State, t: nat, i: nat, c: Connection) {
    PcOf(z, t) == Returning(i) && i < |z.slots| && z.slots[i].conn == Some(c)
  }

  /** The thread has not replaced the connection yet, or has by one numbered from `n` on, or has failed to. */
  ghost predicate Replaces(z: State, t: nat, i: nat, n: nat) {
    var pc := PcOf(z, t);
    && i < |z.slots| && n <= z.nextId
    && (pc.Leaving? || ((pc.Connecting? || pc.LoggingIn? || pc.Returning?) && pc.i == i))
    && (pc.LoggingIn? || pc.Returning? ==> z.slots[i].conn.Some? && n <= z.slots[i].conn.value.id)
  }

  lemma OtherStepsKeepSlot(s: State, a: Action, t: nat)
    requires InBounds(s) && LocksMatch(s) && Enabled(s, a) && !IsStepOf(a, t) && HasLock(PcOf(s, t))
    ensures var s', i := Apply(s, a), PcOf(s, t).i;
            i < |s.slots| == |s'.slots| && s'.slots[i].conn == s.slots[i].conn && PcOf(s', t) == PcOf(s, t)
  {
    StepIsLocal(s, a);
    LockIsExclusive(s);
    assert s.slots[PcOf(s, t).i].mutex == Some(t);
  }

  lemma StepKeepsConnection(s: State, a: Action, t: nat, i: nat, c: Connection)
    requires Inv(s) && Enabled(s, a) && Keeps(s, t, i, c) && StaysInside([a], t)
    ensures !IsStepOf(a, t) && Keeps(Apply(s, a), t, i, c)
  {
    assert a in [a];
    if !IsStepOf(a, t) {
      OtherStepsKeepSlot(s, a, t);
    }
  }

  lemma StepReplaces(s: State, a: Action, t: nat, i: nat, n: nat)
    requires Inv(s) && Enabled(s, a) && Replaces(s, t, i, n) && StaysInside([a], t)
    ensures Replaces(Apply(s, a), t, i, n)
  {
    assert a in [a];
    if !IsStepOf(a, t) {
      OtherStepsKeepSlot(s, a, t);
      ConnectionIsOldOrNew(s, a, i);
    }
  }

  lemma {:induction false} RunKeepsConnection(s: State, acts: seq<Action>, t: nat, i: nat, c: Connection)
    requires Inv(s) && CanRun(s, acts) && Keeps(s, t, i, c) && StaysInside(acts, t)
    ensures Keeps(After(s, acts), t, i, c) && forall a :: a in acts ==> !IsStepOf(a, t)
    decreases |acts|
  {
    hide Apply, Keeps, Inv, IsStepOf;
    if acts != [] {
      StepKeepsInv(s, acts[0]);
      StepKeepsConnection(s, acts[0], t, i, c);
      RunKeepsConnection(Apply(s, acts[0]), acts[1..], t, i, c);
    }
  }

  lemma {:induction false} RunReplaces(s: State, acts: seq<Action>, t: nat, i: nat, n: nat)
    requires Inv(s) && CanRun(s, acts) && Replaces(s, t, i, n) && StaysInside(acts, t)
    ensures Replaces(After(s, acts), t, i, n)
    decreases |acts|
  {
    hide Apply, Replaces, Inv, IsStepOf;
    if acts != [] {
      StepKeepsInv(s, acts[0]);
      StepReplaces(s, acts[0], t, i, n);
      RunReplaces(Apply(s, acts[0]), acts[1..], t, i, n);
    }
  }

  /** A thread verifies its slot's connection, and after any steps of any threads it returns a proxy. If
      the connection was found alive, it took no step in between and hands out that connection, which
      is as it was; otherwise it hands out one that was made since, for the same slot. */
  lemma VerifiedIsHandedOut(s: State, t: nat, i: nat, alive: bool, acts: seq<Action>, p: nat)
    requires Inv(s) && PcOf(s, t) == Verifying(i) && StaysInside(acts, t)
    requires CanRun(Apply(s, Verify(t, alive)), acts)
    requires Enabled(After(Apply(s, Verify(t, alive)), acts), Construct(t, p))
    ensures i < |s.slots| && s.slots[i].conn.Some?
    ensures var y := After(Apply(s, Verify(t, alive)), acts);
            && InBounds(y) && i < |y.slots|
            && var z := Apply(y, Construct(t, p));
               && p in z.proxies && Live(z.proxies[p]) && z.proxies[p].index == i && RefersToUsable(z, p, i)
               && (alive ==> z.slots[i].conn == s.slots[i].conn && forall a :: a in acts ==> !IsStepOf(a, t))
               && (!alive ==> z.proxies[p].conn.value >= s.nextId)
  {
    VerifyingIsUsable(s, t, i);
    StepKeepsInv(s, Verify(t, alive));
    var x := Apply(s, Verify(t, alive));
    RunKeepsInv(x, acts);
    var y := After(x, acts);
    if alive {
      RunKeepsConnection(x, acts, t, i, s.slots[i].conn.value);
    } else {
      RunReplaces(x, acts, t, i, s.nextId);
    }
    StepKeepsInv(y, Construct(t, p));
    assert Holds(Apply(y, Construct(t, p)), ByProxy(p), i);
  }

  /** Any fresh pool loses its first slot to a thread whose refresh cannot connect. */
  lemma FailedRefreshLosesSlot(s: State, t: nat) returns (acts: seq<Action>)
    requires IsFresh(s)
    ensures CanRun(s, acts) && IsLost(After(s, acts), 0)
  {
    FreshIsInv(s);
    var begun := Apply(s, Begin(t));
    StepKeepsInv(s, Begin(t));
    OwnStepsAtSlot(begun, t, 0);
    var claimed := After(begun, OwnSteps(begun, t, 0));
    RunKeepsInv(begun, OwnSteps(begun, t, 0));
    var verified := Apply(claimed, Verify(t, false));
    StepKeepsInv(claimed, Verify(t, false));
    LosingStepLoses(verified, Connect(t, false));
    var lost := Apply(verified, Connect(t, false));
    FirstStep(verified, Connect(t, false), []);
    FirstStep(claimed, Verify(t, false), [Connect(t, false)] + []);
    var last := [Verify(t, false)] + ([Connect(t, false)] + []);
    hide Apply, After, CanRun, Inv, IsLost;
    RunConcat(begun, OwnSteps(begun, t, 0), last);
    FirstStep(s, Begin(t), OwnSteps(begun, t, 0) + last);
    acts := [Begin(t)] + (OwnSteps(begun, t, 0) + last);
  }
}

/** The pool's constructor: the first connection is made alone, the others by tasks that run at
    the same time and share two error flags. */
module PoolConstruction {
  import opened Wrappers
  import opened ConnectionPool

  datatype Task = Posted | Checked | Connecting | LoggingIn | Done | Skipped

  datatype Building = Building(tasks: seq<Task>, slots: seq<Slot>, connectError: bool, loginError: bool, nextId: nat)

  datatype BuildAction =
    | LoadConnectError(i: nat)
    | LoadLoginError(i: nat)
    | Connect(i: nat, connected: bool)
    | Login(i: nat, accepted: bool)

  const EMPTY_SLOT := Slot(None, false, None)

  /** After the first connection was made and logged in: the tasks are posted. */
  function Begun(size: nat): Building
    requires size >= 1
  {
    Building([Done] + seq(size - 1, _ => Posted),
             [EMPTY_SLOT.(conn := Some(Connection(0, true)))] + seq(size - 1, _ => EMPTY_SLOT), false, false, 1)
  }

  predicate Ready(b: Building, a: BuildAction) {
    && |b.tasks| == |b.slots| && a.i < |b.tasks|
    && match a
       case LoadConnectError(i) => b.tasks[i].Posted?
       case LoadLoginError(i) => b.tasks[i].Checked?
       case Connect(i, _) => b.tasks[i].Connecting?
       case Login(i, _) => b.tasks[i].LoggingIn? && b.slots[i].conn.Some?
  }

  function Step(b: Building, a: BuildAction): Building
    requires Ready(b, a)
  {
    var i := a.i;
    match a
    case LoadConnectError(_) => b.(tasks := b.tasks[i := if b.connectError then Skipped else Checked])
    case LoadLoginError(_) => b.(tasks := b.tasks[i := if b.loginError then Skipped else Task.Connecting])
    case Connect(_, connected) =>
      if connected then
        b.(tasks := b.tasks[i := Task.LoggingIn],
           slots := b.slots[i := b.slots[i].(conn := Some(Connection(b.nextId, false)))],
           nextId := b.nextId + 1)
      else b.(tasks := b.tasks[i := Done], connectError := true)
    case Login(_, accepted) =>
      b.(tasks := b.tasks[i := Done],
         slots := b.slots[i := b.slots[i].(conn := Some(b.slots[i].conn.value.(loggedIn := accepted)))],
         loginError := b.loginError || !accepted)
  }

  ghost predicate CanBuild(b: Building, acts: seq<BuildAction>)
    decreases |acts|
  {
    acts == [] || (Ready(b, acts[0]) && CanBuild(Step(b, acts[0]), acts[1..]))
  }

  function Built(b: Building, acts: seq<BuildAction>): Building
    requires CanBuild(b, acts)
    decreases |acts|
  {
    if acts == [] then b else Built(Step(b, acts[0]), acts[1..])
  }

  predicate Failed(b: Building) {
    b.connectError || b.loginError
  }

  /** `join` has returned: no task is left. */
  predicate Joined(b: Building) {
    forall i :: 0 <= i < |b.tasks| ==> b.tasks[i].Done? || b.tasks[i].Skipped?
  }

  function AsPool(b: Building): State {
    State(b.slots, map[], map[], b.nextId)
  }

  /** What a task's progress says about its slot. */
  ghost predicate TaskMatchesSlot(b: Building, i: nat)
    requires |b.tasks| == |b.slots| && i < |b.tasks|
  {
    match b.tasks[i]
    case Posted => b.slots[i].conn.None?
    case Checked => b.slots[i].conn.None?
    case Connecting => b.slots[i].conn.None?
    case LoggingIn => b.slots[i].conn.Some?
    case Done => Usable(b.slots[i]) || Failed(b)
    case Skipped => Failed(b)
  }

  /** A task could not connect, or connected and could not log in. */
  predicate FailedToConnect(b: Building, i: nat)
    requires |b.tasks| == |b.slots| && i < |b.slots|
  {
    b.tasks[i].Done? && b.slots[i].conn.None?
  }

  predicate FailedToLogIn(b: Building, i: nat)
    requires |b.tasks| == |b.slots| && i < |b.slots|
  {
    b.tasks[i].Done? && b.slots[i].conn.Some? && !Usable(b.slots[i])
  }

  ghost predicate FlagsMatch(b: Building)
    requires |b.tasks| == |b.slots|
  {
    && (b.connectError <==> exists i: nat :: i < |b.slots| && FailedToConnect(b, i))
    && (b.loginError <==> exists i: nat :: i < |b.slots| && FailedToLogIn(b, i))
  }

  ghost predicate BuildInv(b: Building) {
    && |b.tasks| == |b.slots| && b.tasks != []
    && (forall i :: 0 <= i < |b.slots| ==> b.slots[i].mutex.None? && !b.slots[i].inUse)
    && (forall i :: 0 <= i < |b.slots| ==> TaskMatchesSlot(b, i))
    && FlagsMatch(b)
    && ConnectionsAreDistinct(AsPool(b))
  }

  lemma FailureIsOldOrNew(b: Building, a: BuildAction, i: nat)
    requires BuildInv(b) && Ready(b, a) && i < |b.slots|
    ensures var c := Step(b, a);
            && |c.tasks| == |c.slots| == |b.slots|
            && (FailedToConnect(c, i) <==>
                  FailedToConnect(b, i) || (a.Connect? && !a.connected && i == a.i))
            && (FailedToLogIn(c, i) <==>
                  FailedToLogIn(b, i) || (a.Login? && !a.accepted && i == a.i))
  {
    assert TaskMatchesSlot(b, a.i);
  }

  lemma FlagsStillMatch(b: Building, a: BuildAction)
    requires BuildInv(b) && Ready(b, a)
    ensures |Step(b, a).tasks| == |Step(b, a).slots| && FlagsMatch(Step(b, a))
  {
    hide FailedToConnect, FailedToLogIn, TaskMatchesSlot, ConnectionsAreDistinct;
    var c := Step(b, a);
    forall i: nat | i < |b.slots|
      ensures FailedToConnect(c, i) <==> FailedToConnect(b, i) || (a.Connect? && !a.connected && i == a.i)
      ensures FailedToLogIn(c, i) <==> FailedToLogIn(b, i) || (a.Login? && !a.accepted && i == a.i)
    {
      FailureIsOldOrNew(b, a, i);
    }
    if a.Connect? && !a.connected {
      assert FailedToConnect(c, a.i);
    }
    if a.Login? && !a.accepted {
      assert FailedToLogIn(c, a.i);
    }
    assert b.connectError ==> exists i: nat :: i < |c.slots| && FailedToConnect(c, i) by {
      if b.connectError {
        var i: nat :| i < |b.slots| && FailedToConnect(b, i);
        assert FailedToConnect(c, i);
      }
    }
    assert b.loginError ==> exists i: nat :: i < |c.slots| && FailedToLogIn(c, i) by {
      if b.loginError {
        var i: nat :| i < |b.slots| && FailedToLogIn(b, i);
        assert FailedToLogIn(c, i);
      }
    }
  }

  lemma TasksStillMatch(b: Building, a: BuildAction, i: nat)
    requires BuildInv(b) && Ready(b, a) && i < |b.tasks|
    ensures TaskMatchesSlot(Step(b, a), i)
    ensures Step(b, a).slots[i].mutex.None? && !Step(b, a).slots[i].inUse
  {
    assert TaskMatchesSlot(b, i);
  }

  lemma ConnectionsStillDistinct(b: Building, a: BuildAction)
    requires BuildInv(b) && Ready(b, a)
    ensures ConnectionsAreDistinct(AsPool(Step(b, a)))
  {
  }

  lemma BuildStepKeepsInv(b: Building, a: BuildAction)
    requires BuildInv(b) && Ready(b, a)
    ensures BuildInv(Step(b, a))
  {
    ConnectionsStillDistinct(b, a);
    forall i | 0 <= i < |b.tasks|
      ensures TaskMatchesSlot(Step(b, a), i)
      ensures Step(b, a).slots[i].mutex.None? && !Step(b, a).slots[i].inUse
    {
      TasksStillMatch(b, a, i);
    }
    FlagsStillMatch(b, a);
  }

  lemma {:induction false} BuildKeepsInv(b: Building, acts: seq<BuildAction>)
    requires BuildInv(b) && CanBuild(b, acts)
    ensures BuildInv(Built(b, acts)) && |Built(b, acts).slots| == |b.slots|
    decreases |acts|
  {
    if acts != [] {
      BuildStepKeepsInv(b, acts[0]);
      BuildKeepsInv(Step(b, acts[0]), acts[1..]);
    }
  }

  /** A task that had not begun to connect when an error was noted never does. */
  predicate StaysOut(b: Building, i: nat)
    requires |b.tasks| == |b.slots| && i < |b.slots|
  {
    && Failed(b) && b.slots[i].conn.None?
    && (b.tasks[i].Posted? || b.tasks[i].Skipped? || (b.tasks[i].Checked? && b.loginError))
  }

  lemma {:induction false} NothingBeginsAfterFailure(b: Building, acts: seq<BuildAction>, i: nat)
    requires BuildInv(b) && CanBuild(b, acts) && i < |b.tasks| && StaysOut(b, i)
    ensures |Built(b, acts).slots| == |Built(b, acts).tasks| == |b.slots| && StaysOut(Built(b, acts), i)
    decreases |acts|
  {
    if acts != [] {
      BuildStepKeepsInv(b, acts[0]);
      NothingBeginsAfterFailure(Step(b, acts[0]), acts[1..], i);
    }
  }

  datatype BuildError = ConnectError | LoginError

  /** What the constructor throws once its tasks are joined, if anything. */
  function Thrown(b: Building): Option<BuildError> {
    if b.connectError then Some(ConnectError) else if b.loginError then Some(LoginError) else None
  }

  /** However the tasks interleave, when all are joined the constructor returns normally exactly when
      every slot is logged in, and then the pool is fresh. It throws a connect error exactly when some
      task could not connect, and a login error when none of these but some task could not log in. */
  lemma ConstructorReturnsLoggedIn(size: nat, acts: seq<BuildAction>)
    requires size >= 1 && CanBuild(Begun(size), acts) && Joined(Built(Begun(size), acts))
    ensures var b := Built(Begun(size), acts);
            && |b.slots| == |b.tasks| == size
            && (Thrown(b) == None <==> forall i :: 0 <= i < |b.slots| ==> Usable(b.slots[i]))
            && (Thrown(b) == None ==> IsFresh(AsPool(b)))
            && (Thrown(b) == Some(ConnectError) <==> exists i: nat :: i < size && FailedToConnect(b, i))
            && (Thrown(b) == Some(LoginError) <==>
                  && (forall i: nat :: i < size ==> !FailedToConnect(b, i))
                  && exists i: nat :: i < size && FailedToLogIn(b, i))
  {
    BuildKeepsInv(Begun(size), acts);
    var b := Built(Begun(size), acts);
    forall i | 0 <= i < |b.slots| ensures Usable(b.slots[i]) || Failed(b) {
      assert TaskMatchesSlot(b, i);
      assert b.tasks[i].Done? || b.tasks[i].Skipped?;
    }
  }
}
