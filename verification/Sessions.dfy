/** Session gauges against the guards that are alive: the metrics as a state machine. */
module Sessions {
  import opened Bytes

  type ConnId = nat
  type Username = string

  datatype Protocol = Http1 | Http2 | Http3

  datatype ClientInfo = ClientInfo(username: Option<Username>, sessions: nat)

  /** A live session guard. */
  datatype Guard = Guard(protocol: Protocol, id: ConnId)

  datatype State = State(
    perClient: bool,
    aggregate: map<Protocol, int>,
    perUser: map<(Username, Protocol), int>,
    clients: map<ConnId, ClientInfo>,
    guards: seq<Guard>)

  datatype Step =
    | Register(id: ConnId)
    | Unregister(id: ConnId)
    | Open(protocol: Protocol, id: ConnId, username: Option<Username>)
    | Relabel(protocol: Protocol, id: ConnId, username: Option<Username>)
    | Drop(index: nat)

  /** A gauge that was never touched reads 0. */
  function Gauge<K>(gauges: map<K, int>, key: K): int {
    if key in gauges then gauges[key] else 0
  }

  function Bump<K(!new)>(gauges: map<K, int>, key: K, delta: int): (r: map<K, int>)
    ensures forall k :: Gauge(r, k) == Gauge(gauges, k) + if k == key then delta else 0
  {
    gauges[key := Gauge(gauges, key) + delta]
  }

  function Label(username: Option<Username>): Username {
    if username.Some? then username.value else ""
  }

  function SaturatingIncrement(n: nat): nat {
    if n + 1 < U64_END then n + 1 else n
  }

  predicate Enabled(s: State, step: Step) {
    step.Drop? ==> step.index < |s.guards|
  }

  function Without(guards: seq<Guard>, i: nat): seq<Guard>
    requires i < |guards|
  {
    guards[..i] + guards[i + 1..]
  }

  /** What one call does to the clients, the gauges and the guards. */
  function Apply(s: State, step: Step): State
    requires Enabled(s, step)
  {
    match step
    case Register(id) =>
      if id in s.clients then s else s.(clients := s.clients[id := ClientInfo(None, 0)])
    case Unregister(id) =>
      s.(clients := s.clients - {id})
    case Open(protocol, id, username) =>
      var entry := if id in s.clients then s.clients[id] else ClientInfo(None, 0);
      var named := if username.Some? then username else entry.username;
      State(
        s.perClient,
        Bump(s.aggregate, protocol, 1),
        if s.perClient then Bump(s.perUser, (Label(username), protocol), 1) else s.perUser,
        s.clients[id := ClientInfo(named, SaturatingIncrement(entry.sessions))],
        [Guard(protocol, id)] + s.guards)
    case Relabel(protocol, id, username) =>
      if id !in s.clients || Label(s.clients[id].username) == Label(username) then s
      else
        var moved := Bump(Bump(s.perUser, (Label(s.clients[id].username), protocol), -1), (Label(username), protocol), 1);
        s.(perUser := if s.perClient then moved else s.perUser,
           clients := s.clients[id := s.clients[id].(username := username)])
    case Drop(i) =>
      var guard := s.guards[i];
      var dropped := State(
        s.perClient,
        Bump(s.aggregate, guard.protocol, -1),
        s.perUser,
        s.clients - {guard.id},
        Without(s.guards, i));
      if guard.id in s.clients && s.perClient then
        dropped.(perUser := Bump(s.perUser, (Label(s.clients[guard.id].username), guard.protocol), -1))
      else dropped
  }

  // ------------------------------------------------------------------ counting guards

  function One(b: bool): (n: nat)
    ensures n == if b then 1 else 0
  {
    if b then 1 else 0
  }

  /** The connection is tracked under this label. */
  predicate Labelled(clients: map<ConnId, ClientInfo>, id: ConnId, name: Username) {
    id in clients && Label(clients[id].username) == name
  }

  /** The live guards of a protocol whose entry carries a label. */
  function Count(guards: seq<Guard>, clients: map<ConnId, ClientInfo>, name: Username, p: Protocol): nat {
    if guards == [] then 0
    else
      One(guards[0].protocol == p && Labelled(clients, guards[0].id, name)) + Count(guards[1..], clients, name, p)
  }

  function CountOf(guards: seq<Guard>, p: Protocol): nat {
    if guards == [] then 0 else One(guards[0].protocol == p) + CountOf(guards[1..], p)
  }

  /** The live guards of one connection and protocol. */
  function Held(guards: seq<Guard>, id: ConnId, p: Protocol): nat {
    if guards == [] then 0 else One(guards[0] == Guard(p, id)) + Held(guards[1..], id, p)
  }

  predicate NoneHeld(guards: seq<Guard>, id: ConnId) {
    forall p :: Held(guards, id, p) == 0
  }

  /** The share of the count that one connection has. */
  function Share(guards: seq<Guard>, clients: map<ConnId, ClientInfo>, id: ConnId, name: Username, p: Protocol): nat {
    if Labelled(clients, id, name) then Held(guards, id, p) else 0
  }

  /** Changing one entry changes the count by that connection's share only. */
  lemma {:induction false} CountAfterChange(
    guards: seq<Guard>, clients: map<ConnId, ClientInfo>, clients': map<ConnId, ClientInfo>,
    id: ConnId, name: Username, p: Protocol)
    requires clients' - {id} == clients - {id}
    ensures Count(guards, clients', name, p) - Share(guards, clients', id, name, p)
         == Count(guards, clients, name, p) - Share(guards, clients, id, name, p)
    decreases |guards|
  {
    if guards != [] {
      CountAfterChange(guards[1..], clients, clients', id, name, p);
      if guards[0].id != id {
        SameElsewhere(clients, clients', id, guards[0].id);
      }
    }
  }

  lemma SameElsewhere(clients: map<ConnId, ClientInfo>, clients': map<ConnId, ClientInfo>, id: ConnId, other: ConnId)
    requires clients' - {id} == clients - {id} && other != id
    ensures other in clients' <==> other in clients
    ensures other in clients ==> clients'[other] == clients[other]
  {
    assert other in clients' <==> other in clients' - {id};
    assert other in clients <==> other in clients - {id};
    if other in clients {
      assert (clients' - {id})[other] == (clients - {id})[other];
    }
  }

  lemma {:induction false} CountWithout(guards: seq<Guard>, i: nat, clients: map<ConnId, ClientInfo>, name: Username, p: Protocol)
    requires i < |guards|
    ensures Count(guards, clients, name, p)
         == Count(Without(guards, i), clients, name, p) + One(guards[i].protocol == p && Labelled(clients, guards[i].id, name))
    decreases |guards|
  {
    if i == 0 {
      assert Without(guards, 0) == guards[1..];
    } else {
      CountWithout(guards[1..], i - 1, clients, name, p);
      assert Without(guards, i)[1..] == Without(guards[1..], i - 1);
    }
  }

  lemma {:induction false} HeldWithout(guards: seq<Guard>, i: nat, id: ConnId, p: Protocol)
    requires i < |guards|
    ensures Held(guards, id, p) == Held(Without(guards, i), id, p) + One(guards[i] == Guard(p, id))
    ensures CountOf(guards, p) == CountOf(Without(guards, i), p) + One(guards[i].protocol == p)
    decreases |guards|
  {
    if i == 0 {
      assert Without(guards, 0) == guards[1..];
    } else {
      HeldWithout(guards[1..], i - 1, id, p);
      assert Without(guards, i)[1..] == Without(guards[1..], i - 1);
    }
  }

  // ------------------------------------------------------------------ balance

  ghost predicate PerUserExact(s: State) {
    forall name, p :: Gauge(s.perUser, (name, p)) == Count(s.guards, s.clients, name, p)
  }

  predicate AggregateExact(s: State) {
    forall p :: Gauge(s.aggregate, p) == CountOf(s.guards, p)
  }

  /** When a call leaves the per-user gauges right, in terms of the state it meets. */
  predicate Careful(s: State, step: Step)
    requires Enabled(s, step)
  {
    match step
    case Register(id) => id in s.clients || NoneHeld(s.guards, id)
    case Unregister(id) => id !in s.clients || NoneHeld(s.guards, id)
    case Open(protocol, id, username) =>
      && (username.None? && id in s.clients ==> Labelled(s.clients, id, ""))
      && (NoneHeld(s.guards, id) || Labelled(s.clients, id, if username.Some? then username.value else ""))
    case Relabel(protocol, id, username) =>
      || id !in s.clients
      || Labelled(s.clients, id, Label(username))
      || forall p :: Held(s.guards, id, p) == One(p == protocol)
    case Drop(i) => s.guards[i].id !in s.clients || NoneHeld(Without(s.guards, i), s.guards[i].id)
  }

  /** How far a per-user gauge is off. */
  function Gap(s: State, name: Username, p: Protocol): int {
    Gauge(s.perUser, (name, p)) - Count(s.guards, s.clients, name, p)
  }

  function If(b: bool, n: int): int {
    if b then n else 0
  }

  lemma RegisterGap(s: State, id: ConnId, name: Username, p: Protocol)
    requires id !in s.clients
    ensures Gap(Apply(s, Register(id)), name, p) == Gap(s, name, p) - If(name == "", Held(s.guards, id, p))
  {
    hide Count, Held;
    var s' := Apply(s, Register(id));
    assert s'.clients - {id} == s.clients - {id};
    CountAfterChange(s.guards, s.clients, s'.clients, id, name, p);
  }

  lemma UnregisterGap(s: State, id: ConnId, name: Username, p: Protocol)
    requires id in s.clients
    ensures Gap(Apply(s, Unregister(id)), name, p)
         == Gap(s, name, p) + If(Labelled(s.clients, id, name), Held(s.guards, id, p))
  {
    hide Count, Held;
    var s' := Apply(s, Unregister(id));
    assert s'.clients - {id} == s.clients - {id};
    CountAfterChange(s.guards, s.clients, s'.clients, id, name, p);
  }

  lemma RelabelGap(s: State, q: Protocol, id: ConnId, username: Option<Username>, name: Username, p: Protocol)
    requires s.perClient && id in s.clients && !Labelled(s.clients, id, Label(username))
    ensures Gap(Apply(s, Relabel(q, id, username)), name, p)
         == Gap(s, name, p)
            + If(name == Label(username), One(p == q) - Held(s.guards, id, p))
            - If(Labelled(s.clients, id, name), One(p == q) - Held(s.guards, id, p))
  {
    hide Count, Held;
    var s' := Apply(s, Relabel(q, id, username));
    assert s'.clients - {id} == s.clients - {id};
    CountAfterChange(s.guards, s.clients, s'.clients, id, name, p);
  }

  /** The label that a connection has once a guard is opened for it. */
  function OpenedLabel(s: State, id: ConnId, username: Option<Username>): Username {
    if username.None? && id in s.clients then Label(s.clients[id].username) else Label(username)
  }

  lemma OpenGap(s: State, q: Protocol, id: ConnId, username: Option<Username>, name: Username, p: Protocol)
    requires s.perClient
    ensures Gap(Apply(s, Open(q, id, username)), name, p)
         == Gap(s, name, p)
            + One(p == q && name == Label(username)) - One(p == q && name == OpenedLabel(s, id, username))
            - If(name == OpenedLabel(s, id, username), Held(s.guards, id, p))
            + If(Labelled(s.clients, id, name), Held(s.guards, id, p))
  {
    hide Held, Count;
    var s' := Apply(s, Open(q, id, username));
    assert s'.clients - {id} == s.clients - {id};
    CountAfterChange(s.guards, s.clients, s'.clients, id, name, p);
    CountFirst(Guard(q, id), s.guards, s'.clients, name, p);
  }

  lemma CountFirst(g: Guard, guards: seq<Guard>, clients: map<ConnId, ClientInfo>, name: Username, p: Protocol)
    ensures Count([g] + guards, clients, name, p)
         == One(g.protocol == p && Labelled(clients, g.id, name)) + Count(guards, clients, name, p)
  {
    assert ([g] + guards)[1..] == guards;
  }

  lemma DropGap(s: State, i: nat, name: Username, p: Protocol)
    requires i < |s.guards|
    requires s.perClient
    ensures Gap(Apply(s, Drop(i)), name, p)
         == Gap(s, name, p) + If(Labelled(s.clients, s.guards[i].id, name), Held(Without(s.guards, i), s.guards[i].id, p))
  {
    hide Count, Held;
    var s' := Apply(s, Drop(i));
    var id := s.guards[i].id;
    assert s'.clients - {id} == s.clients - {id};
    CountWithout(s.guards, i, s.clients, name, p);
    CountAfterChange(s'.guards, s.clients, s'.clients, id, name, p);
  }

  /** The gauges are right exactly when no gap is left. */
  lemma ExactIff(s: State)
    ensures PerUserExact(s) <==> forall name, p :: Gap(s, name, p) == 0
  {
    hide Count;
    if PerUserExact(s) {
      forall name, p ensures Gap(s, name, p) == 0 {
        assert Gauge(s.perUser, (name, p)) == Count(s.guards, s.clients, name, p);
      }
    }
    if forall name, p :: Gap(s, name, p) == 0 {
      forall name, p ensures Gauge(s.perUser, (name, p)) == Count(s.guards, s.clients, name, p) {
        assert Gap(s, name, p) == 0;
      }
    }
  }

  /** A call leaves right per-user gauges right exactly when it is careful. */
  lemma StaysExactIff(s: State, step: Step)
    requires s.perClient && PerUserExact(s) && Enabled(s, step)
    ensures PerUserExact(Apply(s, step)) <==> Careful(s, step)
  {
    hide Gap, PerUserExact, Apply;
    ExactIff(s);
    ExactIff(Apply(s, step));
    match step {
      case Register(id) => RegisterExactIff(s, id);
      case Unregister(id) => UnregisterExactIff(s, id);
      case Open(q, id, username) => OpenExactIff(s, q, id, username);
      case Relabel(q, id, username) => RelabelExactIff(s, q, id, username);
      case Drop(i) => DropExactIff(s, i);
    }
  }

  ghost predicate NoGap(s: State) {
    forall name, p :: Gap(s, name, p) == 0
  }

  lemma RegisterExactIff(s: State, id: ConnId)
    requires NoGap(s)
    ensures NoGap(Apply(s, Register(id))) <==> Careful(s, Register(id))
  {
    hide Gap, Held;
    if id !in s.clients {
      forall name, p { RegisterGap(s, id, name, p); }
      if NoGap(Apply(s, Register(id))) {
        forall p ensures Held(s.guards, id, p) == 0 { assert Gap(Apply(s, Register(id)), "", p) == 0; }
      }
    }
  }

  lemma UnregisterExactIff(s: State, id: ConnId)
    requires NoGap(s)
    ensures NoGap(Apply(s, Unregister(id))) <==> Careful(s, Unregister(id))
  {
    hide Gap, Held;
    if id in s.clients {
      forall name, p { UnregisterGap(s, id, name, p); }
      if NoGap(Apply(s, Unregister(id))) {
        var name := Label(s.clients[id].username);
        forall p ensures Held(s.guards, id, p) == 0 { assert Gap(Apply(s, Unregister(id)), name, p) == 0; }
      }
    } else {
      assert s.clients - {id} == s.clients;
    }
  }

  lemma RelabelExactIff(s: State, q: Protocol, id: ConnId, username: Option<Username>)
    requires s.perClient && NoGap(s)
    ensures NoGap(Apply(s, Relabel(q, id, username))) <==> Careful(s, Relabel(q, id, username))
  {
    hide Gap, Held;
    var s' := Apply(s, Relabel(q, id, username));
    if id in s.clients && !Labelled(s.clients, id, Label(username)) {
      forall name, p { RelabelGap(s, q, id, username, name, p); }
      if NoGap(s') {
        forall p ensures Held(s.guards, id, p) == One(p == q) { assert Gap(s', Label(username), p) == 0; }
      }
    }
  }

  lemma OpenExactIff(s: State, q: Protocol, id: ConnId, username: Option<Username>)
    requires s.perClient && NoGap(s)
    ensures NoGap(Apply(s, Open(q, id, username))) <==> Careful(s, Open(q, id, username))
  {
    hide Gap, Held;
    var s' := Apply(s, Open(q, id, username));
    var given := OpenedLabel(s, id, username);
    forall name, p { OpenGap(s, q, id, username, name, p); }
    if NoGap(s') {
      assert Gap(s', Label(username), q) == 0;
      forall p ensures Gap(s', given, p) == 0 {}
    }
  }

  lemma DropExactIff(s: State, i: nat)
    requires i < |s.guards| && s.perClient && NoGap(s)
    ensures NoGap(Apply(s, Drop(i))) <==> Careful(s, Drop(i))
  {
    hide Gap, Held;
    var s' := Apply(s, Drop(i));
    var id := s.guards[i].id;
    forall name, p { DropGap(s, i, name, p); }
    if NoGap(s') && id in s.clients {
      var name := Label(s.clients[id].username);
      forall p ensures Held(Without(s.guards, i), id, p) == 0 { assert Gap(s', name, p) == 0; }
    }
  }

  /** The aggregate gauges count the live guards whatever is called. */
  lemma AggregateStays(s: State, step: Step)
    requires AggregateExact(s) && Enabled(s, step)
    ensures AggregateExact(Apply(s, step))
  {
    hide Held, Count;
    var s' := Apply(s, step);
    forall p ensures Gauge(s'.aggregate, p) == CountOf(s'.guards, p) {
      match step
      case Drop(i) => HeldWithout(s.guards, i, s.guards[i].id, p);
      case Open(protocol, id, username) => assert s'.guards[1..] == s.guards;
      case _ =>
    }
  }

  // ------------------------------------------------------------------ disciplined runs

  predicate HasGuard(guards: seq<Guard>, id: ConnId) {
    guards != [] && (guards[0].id == id || HasGuard(guards[1..], id))
  }

  predicate Distinct(guards: seq<Guard>) {
    guards == [] || (!HasGuard(guards[1..], guards[0].id) && Distinct(guards[1..]))
  }

  ghost predicate Tracked(guards: seq<Guard>, clients: map<ConnId, ClientInfo>) {
    forall id | HasGuard(guards, id) :: id in clients
  }

  /** No id is guarded twice, guarded ids are tracked, and names come with guards. */
  ghost predicate Orderly(s: State) {
    && Distinct(s.guards)
    && Tracked(s.guards, s.clients)
    && forall id | id in s.clients ::
         if HasGuard(s.guards, id) then s.clients[id].sessions == 1 else s.clients[id] == ClientInfo(None, 0)
  }

  /** Distinct connection ids, and relabelling of live sessions only. */
  predicate Disciplined(s: State, step: Step) {
    match step
    case Unregister(id) => !HasGuard(s.guards, id)
    case Open(protocol, id, username) => !HasGuard(s.guards, id)
    case Relabel(protocol, id, username) => id in s.clients ==> Guard(protocol, id) in s.guards
    case _ => true
  }

  lemma {:induction false} HeldNone(guards: seq<Guard>, id: ConnId, p: Protocol)
    requires !HasGuard(guards, id)
    ensures Held(guards, id, p) == 0
  {
    if guards != [] {
      HeldNone(guards[1..], id, p);
    }
  }

  lemma {:induction false} HasGuardWithout(guards: seq<Guard>, i: nat, id: ConnId)
    requires i < |guards|
    ensures HasGuard(guards, id) <==> (guards[i].id == id || HasGuard(Without(guards, i), id))
    decreases |guards|
  {
    if i == 0 {
      assert Without(guards, 0) == guards[1..];
    } else {
      HasGuardWithout(guards[1..], i - 1, id);
      assert Without(guards, i)[1..] == Without(guards[1..], i - 1);
    }
  }

  lemma {:induction false} DistinctWithout(guards: seq<Guard>, i: nat)
    requires i < |guards| && Distinct(guards)
    ensures Distinct(Without(guards, i)) && !HasGuard(Without(guards, i), guards[i].id)
    decreases |guards|
  {
    if i == 0 {
      assert Without(guards, 0) == guards[1..];
    } else {
      DistinctWithout(guards[1..], i - 1);
      HasGuardWithout(guards[1..], i - 1, guards[0].id);
      assert Without(guards, i)[1..] == Without(guards[1..], i - 1);
    }
  }

  lemma HeldOnce(guards: seq<Guard>, i: nat, p: Protocol)
    requires i < |guards| && Distinct(guards)
    ensures Held(guards, guards[i].id, p) == One(p == guards[i].protocol)
    ensures NoneHeld(Without(guards, i), guards[i].id)
  {
    hide Held, Distinct, HasGuard;
    var id, rest := guards[i].id, Without(guards, i);
    DistinctWithout(guards, i);
    forall q ensures Held(rest, id, q) == 0 { HeldNone(rest, id, q); }
    HeldWithout(guards, i, id, p);
  }

  lemma DisciplinedIsCareful(s: State, step: Step)
    requires Orderly(s) && Enabled(s, step) && Disciplined(s, step)
    ensures Careful(s, step)
  {
    hide Held;
    match step {
      case Register(id) => if id !in s.clients { forall p { HeldNone(s.guards, id, p); } }
      case Unregister(id) => forall p { HeldNone(s.guards, id, p); }
      case Open(q, id, username) => forall p { HeldNone(s.guards, id, p); }
      case Relabel(q, id, username) =>
        if id in s.clients {
          var i :| 0 <= i < |s.guards| && s.guards[i] == Guard(q, id);
          forall p { HeldOnce(s.guards, i, p); }
        }
      case Drop(i) => HeldOnce(s.guards, i, Http1);
    }
  }

  lemma OrderlyAfterOpen(s: State, q: Protocol, id: ConnId, username: Option<Username>)
    requires Orderly(s) && !HasGuard(s.guards, id)
    ensures Orderly(Apply(s, Open(q, id, username)))
  {
  }

  lemma OrderlyAfterDrop(s: State, i: nat)
    requires i < |s.guards| && Orderly(s)
    ensures Orderly(Apply(s, Drop(i)))
  {
    hide HasGuard, Distinct;
    DistinctWithout(s.guards, i);
    forall id { HasGuardWithout(s.guards, i, id); }
  }

  lemma {:induction false} GuardIn(guards: seq<Guard>, g: Guard)
    requires g in guards
    ensures HasGuard(guards, g.id)
  {
    if guards[0] != g {
      GuardIn(guards[1..], g);
    }
  }

  lemma OrderlyStays(s: State, step: Step)
    requires Orderly(s) && Enabled(s, step) && Disciplined(s, step)
    ensures Orderly(Apply(s, step))
  {
    match step {
      case Open(q, id, username) => OrderlyAfterOpen(s, q, id, username);
      case Drop(i) => OrderlyAfterDrop(s, i);
      case Relabel(q, id, username) => if id in s.clients { GuardIn(s.guards, Guard(q, id)); }
      case _ =>
    }
  }

  /** Everything the gauges promise. */
  ghost predicate Balanced(s: State) {
    Orderly(s) && AggregateExact(s) && (s.perClient ==> PerUserExact(s))
  }

  ghost predicate Follows(s: State, steps: seq<Step>)
    decreases |steps|
  {
    steps != [] ==>
      Enabled(s, steps[0]) && Disciplined(s, steps[0]) && Follows(Apply(s, steps[0]), steps[1..])
  }

  ghost function After(s: State, steps: seq<Step>): State
    requires Follows(s, steps)
    decreases |steps|
  {
    if steps == [] then s else After(Apply(s, steps[0]), steps[1..])
  }

  /** Over every disciplined interleaving each gauge counts the live guards. */
  lemma {:induction false} AlwaysBalanced(s: State, steps: seq<Step>)
    requires Balanced(s) && Follows(s, steps)
    ensures Balanced(After(s, steps))
    decreases |steps|
  {
    if steps != [] {
      StepKeepsBalance(s, steps[0]);
      AlwaysBalanced(Apply(s, steps[0]), steps[1..]);
    }
  }

  lemma StepKeepsBalance(s: State, step: Step)
    requires Balanced(s) && Enabled(s, step) && Disciplined(s, step)
    ensures Balanced(Apply(s, step))
  {
    hide Orderly, AggregateExact, PerUserExact, Careful, Disciplined;
    OrderlyStays(s, step);
    AggregateStays(s, step);
    if s.perClient {
      DisciplinedIsCareful(s, step);
      StaysExactIff(s, step);
    }
  }

  function Fresh(perClient: bool): State {
    State(perClient, map[], map[], map[], [])
  }

  /** So from the start of the program on. */
  lemma BalancedFromTheStart(perClient: bool, steps: seq<Step>)
    requires Follows(Fresh(perClient), steps)
    ensures Balanced(After(Fresh(perClient), steps))
  {
    hide After, Follows;
    assert Balanced(Fresh(perClient));
    AlwaysBalanced(Fresh(perClient), steps);
  }

  // ------------------------------------------------------------------ the sums

  function Total(s: State, names: seq<Username>, p: Protocol): int {
    if names == [] then 0 else Gauge(s.perUser, (names[0], p)) + Total(s, names[1..], p)
  }

  function Matches(names: seq<Username>, name: Username): nat {
    if names == [] then 0 else One(names[0] == name) + Matches(names[1..], name)
  }

  function CountAll(guards: seq<Guard>, clients: map<ConnId, ClientInfo>, names: seq<Username>, p: Protocol): nat {
    if names == [] then 0 else Count(guards, clients, names[0], p) + CountAll(guards, clients, names[1..], p)
  }

  /** Every label in use is listed once. */
  predicate Lists(names: seq<Username>, clients: map<ConnId, ClientInfo>) {
    forall id | id in clients :: Matches(names, Label(clients[id].username)) == 1
  }

  lemma {:induction false} CountAllStep(guards: seq<Guard>, clients: map<ConnId, ClientInfo>, names: seq<Username>, p: Protocol)
    requires guards != [] && guards[0].id in clients
    ensures CountAll(guards, clients, names, p)
         == CountAll(guards[1..], clients, names, p)
            + If(guards[0].protocol == p, Matches(names, Label(clients[guards[0].id].username)))
    decreases |names|
  {
    if names != [] {
      CountAllStep(guards, clients, names[1..], p);
    }
  }

  lemma {:induction false} CountAllIsCountOf(guards: seq<Guard>, clients: map<ConnId, ClientInfo>, names: seq<Username>, p: Protocol)
    requires Tracked(guards, clients)
    requires Lists(names, clients)
    ensures CountAll(guards, clients, names, p) == CountOf(guards, p)
    decreases |guards|
  {
    hide Count, Matches;
    if guards == [] {
      CountAllNone(clients, names, p);
    } else {
      CountAllStep(guards, clients, names, p);
      CountAllIsCountOf(guards[1..], clients, names, p);
    }
  }

  lemma {:induction false} CountAllNone(clients: map<ConnId, ClientInfo>, names: seq<Username>, p: Protocol)
    ensures CountAll([], clients, names, p) == 0
  {
    if names != [] {
      CountAllNone(clients, names[1..], p);
    }
  }

  lemma {:induction false} TotalIsCountAll(s: State, names: seq<Username>, p: Protocol)
    requires PerUserExact(s)
    ensures Total(s, names, p) == CountAll(s.guards, s.clients, names, p)
    decreases |names|
  {
    hide Count;
    if names != [] {
      TotalIsCountAll(s, names[1..], p);
      assert Gauge(s.perUser, (names[0], p)) == Count(s.guards, s.clients, names[0], p);
    }
  }

  /** For each protocol the per-user gauges, summed over the labels in use, are the
      aggregate gauge. */
  lemma PerUserSumsToAggregate(s: State, names: seq<Username>, p: Protocol)
    requires Balanced(s) && s.perClient && Lists(names, s.clients)
    ensures Total(s, names, p) == Gauge(s.aggregate, p)
  {
    hide Count, CountOf, CountAll, Total, PerUserExact, Lists, Matches;
    TotalIsCountAll(s, names, p);
    CountAllIsCountOf(s.guards, s.clients, names, p);
  }

  /** A registered connection that is relabelled before its guard exists leaves a
      negative gauge behind. */
  lemma EarlyRelabelUnbalances()
    ensures var s := Apply(Apply(Fresh(true), Register(0)), Relabel(Http2, 0, Some("user")));
            Gauge(s.perUser, ("", Http2)) == -1 && Count(s.guards, s.clients, "", Http2) == 0
  {
  }

  // ------------------------------------------------------------------ the objects

  /** The shared metrics; `guards` records the guards that are alive. */
  class Metrics {
    const perClient: bool
    var clientSessions: map<Protocol, int>
    var clientSessionsPerUser: map<(Username, Protocol), int>
    var clients: map<ConnId, ClientInfo>
    ghost var guards: seq<Guard>

    ghost function View(): State
      reads this
    {
      State(perClient, clientSessions, clientSessionsPerUser, clients, guards)
    }

    constructor (perClient: bool)
      ensures View() == Fresh(perClient)
    {
      this.perClient := perClient;
      clientSessions, clientSessionsPerUser, clients, guards := map[], map[], map[], [];
    }

    method RegisterConnection(id: ConnId)
      modifies this
      ensures View() == Apply(old(View()), Register(id))
    {
      if id !in clients {
        clients := clients[id := ClientInfo(None, 0)];
      }
    }

    method UnregisterConnection(id: ConnId)
      modifies this
      ensures View() == Apply(old(View()), Unregister(id))
    {
      clients := clients - {id};
    }

    method TransferSessionUsername(protocol: Protocol, id: ConnId, username: Option<Username>)
      modifies this
      ensures View() == Apply(old(View()), Relabel(protocol, id, username))
    {
      if id !in clients { return; }
      var entry := clients[id];
      var oldLabel, newLabel := Label(entry.username), Label(username);
      if oldLabel == newLabel { return; }
      if perClient {
        clientSessionsPerUser := Bump(clientSessionsPerUser, (oldLabel, protocol), -1);
        clientSessionsPerUser := Bump(clientSessionsPerUser, (newLabel, protocol), 1);
      }
      clients := clients[id := entry.(username := username)];
    }

    /** Opens a session and gives its guard. */
    method ClientSessionsCounter(protocol: Protocol, id: ConnId, username: Option<Username>) returns (guard: Guard)
      modifies this
      ensures View() == Apply(old(View()), Open(protocol, id, username))
      ensures guard == Guard(protocol, id) && guards[0] == guard
    {
      clientSessions := Bump(clientSessions, protocol, 1);
      if perClient {
        clientSessionsPerUser := Bump(clientSessionsPerUser, (Label(username), protocol), 1);
      }
      var entry := if id in clients then clients[id] else ClientInfo(None, 0);
      if username.Some? {
        entry := entry.(username := username);
      }
      clients := clients[id := entry.(sessions := SaturatingIncrement(entry.sessions))];
      guard := Guard(protocol, id);
      guards := [guard] + guards;
    }

    /** The guard at `index` goes out of scope. */
    method DropGuard(guard: Guard, ghost index: nat)
      requires index < |guards| && guards[index] == guard
      modifies this
      ensures View() == Apply(old(View()), Drop(index))
    {
      clientSessions := Bump(clientSessions, guard.protocol, -1);
      if guard.id in clients {
        var entry := clients[guard.id];
        clients := clients - {guard.id};
        if perClient {
          clientSessionsPerUser := Bump(clientSessionsPerUser, (Label(entry.username), guard.protocol), -1);
        }
      }
      assert clients == old(clients) - {guard.id};
      guards := Without(guards, index);
    }
  }
}
