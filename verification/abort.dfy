/**
 Aborts against keep-alive and resume in app/src/aseg.c, one channel, as the
 interleaved steps of its threads: the fetch that holds the channel's lock, and
 any number of threads inside `abort_ch` or `resume_ch`.
 */
module Abort {
  /** A socket: its descriptor, which the system may give out again, and which
      socket it is. */
  datatype Socket = Socket(fd: nat, id: nat)
  datatype Option<T> = None | Some(value: T)

  /** Where the fetch is.  `gen0` is the generation it read on entry; `own` tells
      that this fetch connected or reused the channel's socket; `saw` what it read
      of `kaAlive`. */
  datatype Fetch =
    | Idle
    | Entered(gen0: nat)
    | Running(gen0: nat, saw: bool, own: bool)
    | Keeping(gen0: nat)

  /** Where a thread is in `abort_ch`.  The generation bump reads and writes. */
  datatype Aborter = Raised | ReadGen(r: nat) | Bumped | Cleared | HasSock(fd: Option<nat>)

  datatype State = State(
    abort: bool,
    gen: nat,
    kaAlive: bool,
    kaGen: nat,
    sock: Option<Socket>,
    fetch: Fetch,
    aborters: map<nat, Aborter>,
    nextId: nat,
    landed: set<nat>)          // sockets an abort landed on

  const Init := State(false, 0, false, 0, None, Idle, map[], 0, {})

  datatype Step =
    | Enter | Check | Bail | SeeAlive | Reuse | Connect(fd: nat) | Redirect | Fail | Keep | KeepGen
    | Raise(t: nat) | LoadGen(t: nat) | StoreGen(t: nat) | ClearAlive(t: nat) | LoadSock(t: nat) | Land(t: nat)
    | Resume

  predicate Enabled(s: State, a: Step) {
    match a
    case Enter => s.fetch.Idle?
    case Check => s.fetch.Entered?
    case Bail => s.fetch.Running? && s.abort
    case SeeAlive => s.fetch.Running?
    case Reuse => s.fetch.Running? && s.fetch.saw && s.kaGen == s.gen && s.sock.Some?
    case Connect(_) => s.fetch.Running?
    case Redirect => s.fetch.Running?
    case Fail => s.fetch.Running?
    case Keep => s.fetch.Running? && s.fetch.own && s.sock.Some?
    case KeepGen => s.fetch.Keeping?
    case Raise(t) => t !in s.aborters
    case LoadGen(t) => t in s.aborters && s.aborters[t].Raised?
    case StoreGen(t) => t in s.aborters && s.aborters[t].ReadGen?
    case ClearAlive(t) => t in s.aborters && s.aborters[t].Bumped?
    case LoadSock(t) => t in s.aborters && s.aborters[t].Cleared?
    case Land(t) => t in s.aborters && s.aborters[t].HasSock?
    case Resume => true
  }

  function Next(s: State, a: Step): State
    requires Enabled(s, a)
  {
    match a
    // aseg_fetch_inner: the generation is read before the abort flag
    case Enter => s.(fetch := Entered(s.gen))
    case Check => s.(fetch := if s.abort then Idle else Running(s.fetch.gen0, false, false))
    case Bail => s.(sock := None, kaAlive := false, fetch := Idle)
    case SeeAlive => s.(fetch := s.fetch.(saw := s.kaAlive))
    case Reuse => s.(fetch := s.fetch.(own := true))
    case Connect(fd) =>
      s.(sock := Some(Socket(fd, s.nextId)), nextId := s.nextId + 1, fetch := s.fetch.(own := true))
    case Redirect => s.(kaAlive := false, fetch := s.fetch.(saw := false))
    case Fail => s.(sock := None, kaAlive := false, fetch := Idle)
    // keep_alive
    case Keep => s.(kaAlive := true, fetch := Keeping(s.fetch.gen0))
    case KeepGen => s.(kaGen := s.fetch.gen0, fetch := Idle)
    // abort_ch
    case Raise(t) => s.(abort := true, aborters := s.aborters[t := Raised])
    case LoadGen(t) => s.(aborters := s.aborters[t := ReadGen(s.gen)])
    case StoreGen(t) => s.(gen := s.aborters[t].r + 1, aborters := s.aborters[t := Bumped])
    case ClearAlive(t) => s.(kaAlive := false, aborters := s.aborters[t := Cleared])
    case LoadSock(t) =>
      s.(aborters := s.aborters[t := HasSock(if s.sock.Some? then Some(s.sock.value.fd) else None)])
    case Land(t) =>
      var hit := s.sock.Some? && s.aborters[t].fd == Some(s.sock.value.fd);
      s.(landed := s.landed + (if hit then {s.sock.value.id} else {}), aborters := s.aborters - {t})
    // resume_ch, when nothing newer is waiting
    case Resume => s.(abort := false)
  }

  /** The state a run leads to, if every step of it is enabled in turn. */
  function Exec(s: State, steps: seq<Step>): Option<State>
    decreases |steps|
  {
    if steps == [] then Some(s)
    else if Enabled(s, steps[0]) then Exec(Next(s, steps[0]), steps[1..])
    else None
  }

  /** The store of a generation bump that would take the generation back, because other bumps
      went in since its read. */
  predicate Lowers(s: State, a: Step) {
    a.StoreGen? && a.t in s.aborters && s.aborters[a.t].ReadGen? && s.aborters[a.t].r + 1 < s.gen
  }

  /** A thread that may still abort a socket: one that found none to abort cannot. */
  predicate Armed(p: Aborter) {
    p != HasSock(None)
  }

  predicate AnyArmed(s: State) {
    exists t :: t in s.aborters && Armed(s.aborters[t])
  }

  /** A resume clears the flag while some thread inside `abort_ch` may still abort a socket. */
  predicate Unflags(s: State, a: Step) {
    a.Resume? && AnyArmed(s)
  }

  predicate Disturbs(s: State, a: Step) {
    Lowers(s, a) || Unflags(s, a)
  }

  predicate Orderly(s: State, steps: seq<Step>)
    decreases |steps|
  {
    steps != [] ==>
      !Disturbs(s, steps[0]) && (Enabled(s, steps[0]) ==> Orderly(Next(s, steps[0]), steps[1..]))
  }

  predicate PastBump(p: Aborter) {
    p.Bumped? || p.Cleared? || p.HasSock?
  }

  ghost predicate Inv(s: State) {
    && (forall t | t in s.aborters && Armed(s.aborters[t]) :: s.abort)
    // a value read for a bump is not older than anything a fetch could keep a socket under
    && (forall t | t in s.aborters && s.aborters[t].ReadGen? ::
          && s.kaGen <= s.aborters[t].r <= s.gen
          && (s.fetch.Running? || s.fetch.Keeping? ==> s.fetch.gen0 <= s.aborters[t].r))
    && s.kaGen <= s.gen && (!s.fetch.Idle? ==> s.fetch.gen0 <= s.gen)
    // once a bump is in, nothing older can still be stored as current
    && (forall t | t in s.aborters && PastBump(s.aborters[t]) && Armed(s.aborters[t]) ::
          s.kaGen < s.gen && (s.fetch.Running? || s.fetch.Keeping? ==> s.fetch.gen0 < s.gen))
    && (forall i | i in s.landed :: i < s.nextId)
    && (s.sock.Some? ==> s.sock.value.id < s.nextId)
    // an aborted socket is stamped with an old generation, and will be
    && (s.sock.Some? && s.sock.value.id in s.landed ==>
          && s.kaGen < s.gen
          && (s.fetch.Keeping? || (s.fetch.Running? && s.fetch.own) ==> s.fetch.gen0 < s.gen))
  }

  predicate Aborts(a: Step) {
    a.Raise? || a.LoadGen? || a.StoreGen? || a.ClearAlive? || a.LoadSock? || a.Land? || a.Resume?
  }

  lemma InvFetch(s: State, a: Step)
    requires Inv(s) && Enabled(s, a) && !Aborts(a)
    ensures Inv(Next(s, a))
  {
  }

  lemma InvAbort(s: State, a: Step)
    requires Inv(s) && Enabled(s, a) && !Disturbs(s, a) && Aborts(a)
    ensures Inv(Next(s, a))
  {
    match a
    case Raise(t) =>
    case LoadGen(t) =>
    case StoreGen(t) =>
    case ClearAlive(t) =>
    case LoadSock(t) =>
    case Land(t) =>
    case Resume =>
  }

  lemma InvNext(s: State, a: Step)
    requires Inv(s) && Enabled(s, a) && !Disturbs(s, a)
    ensures Inv(Next(s, a))
  {
    hide *;
    if Aborts(a) { InvAbort(s, a); } else { InvFetch(s, a); }
  }

  lemma {:induction false} InvExec(s: State, steps: seq<Step>)
    requires Inv(s) && Orderly(s, steps) && Exec(s, steps).Some?
    ensures Inv(Exec(s, steps).value)
    decreases |steps|
  {
    if steps != [] {
      InvNext(s, steps[0]);
      InvExec(Next(s, steps[0]), steps[1..]);
    }
  }

  /** However the steps interleave, a socket an abort landed on is never reused, as
      long as no bump takes the generation back and no resume clears the flag while a thread
      may still abort a socket; bumps may overlap. */
  lemma AbortedNeverReused(steps: seq<Step>)
    requires Exec(Init, steps).Some? && Orderly(Init, steps)
    ensures var s := Exec(Init, steps).value;
      Enabled(s, Reuse) ==> s.sock.value.id !in s.landed
  {
    InvExec(Init, steps);
  }

  // ---- what disturbs it --------------------------------------------

  lemma {:induction false} ExecConcat(s: State, a: seq<Step>, b: seq<Step>)
    requires Exec(s, a).Some?
    ensures Exec(s, a + b) == Exec(Exec(s, a).value, b)
    ensures Orderly(s, a) && Orderly(Exec(s, a).value, b) ==> Orderly(s, a + b)
    decreases |a|
  {
    if a == [] {
      assert a + b == b;
    } else {
      assert (a + b)[1..] == a[1..] + b;
      ExecConcat(Next(s, a[0]), a[1..], b);
    }
  }

  /** Some run leads from one state to the other. */
  ghost predicate Leads(s: State, s': State) {
    exists steps :: Exec(s, steps) == Some(s')
  }

  /** Some run does so without a step that disturbs. */
  ghost predicate Calm(s: State, s': State) {
    exists steps :: Exec(s, steps) == Some(s') && Orderly(s, steps)
  }

  lemma LeadsStep(s: State, a: Step)
    requires Enabled(s, a)
    ensures Leads(s, Next(s, a)) && (!Disturbs(s, a) ==> Calm(s, Next(s, a)))
  {
    hide Enabled, Next, Disturbs;
    var s' := Next(s, a);
    assert [a][1..] == [];
    assert Exec(s', []) == Some(s') && Orderly(s', []);
    assert Exec(s, [a]) == Some(s');
    assert !Disturbs(s, a) ==> Orderly(s, [a]);
  }

  lemma LeadsOn(a: State, b: State, c: State)
    requires Leads(a, b) && Leads(b, c)
    ensures Leads(a, c) && (Calm(a, b) && Calm(b, c) ==> Calm(a, c))
  {
    hide Exec, Orderly;
    var p, q :| Exec(a, p) == Some(b) && Exec(b, q) == Some(c);
    ExecConcat(a, p, q);
    if Calm(a, b) && Calm(b, c) {
      var u :| Exec(a, u) == Some(b) && Orderly(a, u);
      var v :| Exec(b, v) == Some(c) && Orderly(b, v);
      ExecConcat(a, u, v);
    }
  }

  lemma CalmLeads(a: State, b: State)
    requires Calm(a, b)
    ensures Leads(a, b)
  {
  }

  /** One more step at the end of a run. */
  lemma ThenStep(a: State, b: State, step: Step)
    requires Calm(a, b) && Enabled(b, step) && !Disturbs(b, step)
    ensures Calm(a, Next(b, step))
  {
    hide *;
    CalmLeads(a, b);
    LeadsStep(b, step);
    LeadsOn(a, b, Next(b, step));
  }

  lemma NoSteps(s: State)
    ensures Calm(s, s)
  {
    assert Exec(s, []) == Some(s) && Orderly(s, []);
  }

  /** Undisturbed, keep-alive works: what a fetch connected and kept serves the next fetch. */
  lemma KeptIsReused(s: State, fd: nat)
    requires s.fetch.Idle? && !s.abort
    ensures exists v ::
      && Calm(s, v) && v.fetch.Running? && v.fetch.own
      && v.sock == Some(Socket(fd, s.nextId)) && v.nextId == s.nextId + 1 && v.aborters == s.aborters
  {
    var s1 := Next(s, Enter);
    var s2 := Next(s1, Check);
    var s3 := Next(s2, Connect(fd));
    var s4 := Next(s3, Keep);
    var s5 := Next(s4, KeepGen);
    var s6 := Next(s5, Enter);
    var s7 := Next(s6, Check);
    var s8 := Next(s7, SeeAlive);
    var v := Next(s8, Reuse);
    hide Calm;
    NoSteps(s);
    ThenStep(s, s, Enter);
    ThenStep(s, s1, Check);
    ThenStep(s, s2, Connect(fd));
    ThenStep(s, s3, Keep);
    ThenStep(s, s4, KeepGen);
    ThenStep(s, s5, Enter);
    ThenStep(s, s6, Check);
    ThenStep(s, s7, SeeAlive);
    ThenStep(s, s8, Reuse);
  }

  /** A thread at a point of `abort_ch`. */
  function With(s: State, t: nat, p: Aborter): State {
    s.(aborters := s.aborters[t := p])
  }

  lemma Moves(s: State, t: nat, p: Aborter, a: Step, s': State, q: Aborter)
    requires Enabled(With(s, t, p), a)
    requires Next(With(s, t, p), a) == With(With(s', t, p), t, q)
    ensures Next(With(s, t, p), a) == With(s', t, q)
  {
    assert s'.aborters[t := p][t := q] == s'.aborters[t := q];
  }

  function SockFd(s: State): Option<nat> {
    if s.sock.Some? then Some(s.sock.value.fd) else None
  }

  /** The rest of an abort, from its store on: the generation becomes `r + 1`. */
  function Stored(s: State, r: nat): State {
    s.(gen := r + 1, kaAlive := false,
       landed := s.landed + (if s.sock.Some? then {s.sock.value.id} else {}))
  }

  lemma StoreEffect(s: State, t: nat, r: nat)
    requires t !in s.aborters
    ensures var x := With(s, t, ReadGen(r));
      Enabled(x, StoreGen(t)) && Calm(Next(x, StoreGen(t)), Stored(s, r))
  {
    var v := s.(gen := r + 1);
    var w := v.(kaAlive := false);
    StoreMoves(s, t, r, v, w);
    LandMoves(w, t);
    hide Calm, Exec, Orderly, Disturbs, Enabled, Next, With;
    var b := With(v, t, Bumped);
    NoSteps(b);
    Quiet(b, ClearAlive(t));
    ThenStep(b, b, ClearAlive(t));
    Quiet(With(w, t, Cleared), LoadSock(t));
    ThenStep(b, With(w, t, Cleared), LoadSock(t));
    Quiet(With(w, t, HasSock(SockFd(s))), Land(t));
    ThenStep(b, With(w, t, HasSock(SockFd(s))), Land(t));
  }

  /** Only a bump's store and a resume can disturb. */
  lemma Quiet(s: State, a: Step)
    requires !a.StoreGen? && !a.Resume?
    ensures !Disturbs(s, a)
  {}

  lemma StoreMoves(s: State, t: nat, r: nat, v: State, w: State)
    requires t !in s.aborters && v == s.(gen := r + 1) && w == v.(kaAlive := false)
    ensures Enabled(With(s, t, ReadGen(r)), StoreGen(t))
      && Next(With(s, t, ReadGen(r)), StoreGen(t)) == With(v, t, Bumped)
    ensures Enabled(With(v, t, Bumped), ClearAlive(t)) && Next(With(v, t, Bumped), ClearAlive(t)) == With(w, t, Cleared)
  {
    Moves(s, t, ReadGen(r), StoreGen(t), v, Bumped);
    Moves(v, t, Bumped, ClearAlive(t), w, Cleared);
  }

  lemma LandMoves(s: State, t: nat)
    requires t !in s.aborters
    ensures Enabled(With(s, t, Cleared), LoadSock(t))
    ensures Next(With(s, t, Cleared), LoadSock(t)) == With(s, t, HasSock(SockFd(s)))
    ensures Enabled(With(s, t, HasSock(SockFd(s))), Land(t))
    ensures Next(With(s, t, HasSock(SockFd(s))), Land(t))
         == s.(landed := s.landed + (if s.sock.Some? then {s.sock.value.id} else {}))
  {
    Moves(s, t, Cleared, LoadSock(t), s, HasSock(SockFd(s)));
    assert s.aborters[t := HasSock(SockFd(s))] - {t} == s.aborters;
  }

  /** What an undisturbed abort does. */
  function Aborted(s: State): State {
    Stored(s.(abort := true), s.gen)
  }

  lemma AbortEffect(s: State, t: nat)
    requires t !in s.aborters
    ensures Calm(s, Aborted(s))
  {
    hide Calm, Exec, Orderly, Stored, AnyArmed, Armed;
    var u := s.(abort := true);
    Moves(u, t, Raised, LoadGen(t), u, ReadGen(s.gen));
    NoSteps(s);
    ThenStep(s, s, Raise(t));
    ThenStep(s, With(u, t, Raised), LoadGen(t));
    StoreEffect(u, t, s.gen);
    ThenStep(s, With(u, t, ReadGen(s.gen)), StoreGen(t));
    CalmLeads(s, Next(With(u, t, ReadGen(s.gen)), StoreGen(t)));
    CalmLeads(Next(With(u, t, ReadGen(s.gen)), StoreGen(t)), Aborted(s));
    LeadsOn(s, Next(With(u, t, ReadGen(s.gen)), StoreGen(t)), Aborted(s));
  }

  /** Undisturbed aborts take the generation up as far as wanted. */
  function RaisedTo(s: State, g: nat): State
    requires s.gen <= g
    decreases g - s.gen
  {
    if g == s.gen then s else RaisedTo(Aborted(s), g)
  }

  lemma {:induction false} RaiseTo(s: State, t: nat, g: nat)
    requires t !in s.aborters && s.gen <= g
    ensures var u := RaisedTo(s, g);
      && Calm(s, u)
      && u == s.(gen := g, abort := u.abort, kaAlive := u.kaAlive, landed := u.landed)
      && (s.gen < g ==> u.abort && s.landed <= u.landed && (s.sock.Some? ==> s.sock.value.id in u.landed))
      && (s.abort ==> u.abort)
    decreases g - s.gen
  {
    hide Calm;
    NoSteps(s);
    if s.gen < g {
      var u := Aborted(s);
      AbortEffect(s, t);
      RaiseTo(u, t, g);
      CalmLeads(s, u);
      CalmLeads(u, RaisedTo(s, g));
      LeadsOn(s, u, RaisedTo(s, g));
    }
  }

  function StepsLeft(p: Aborter): nat {
    match p
    case Raised => 5 case ReadGen(_) => 4 case Bumped => 3 case Cleared => 2 case HasSock(_) => 1
  }

  /** A thread inside `abort_ch` can always run to its end. */
  lemma {:induction false} FinishOne(s: State, t: nat) returns (s': State)
    requires t in s.aborters
    ensures Leads(s, s') && s'.aborters == s.aborters - {t} && s'.fetch == s.fetch && s'.abort == s.abort
    decreases StepsLeft(s.aborters[t])
  {
    hide Leads;
    var a := match s.aborters[t]
      case Raised => LoadGen(t) case ReadGen(_) => StoreGen(t) case Bumped => ClearAlive(t)
      case Cleared => LoadSock(t) case HasSock(_) => Land(t);
    var u := Next(s, a);
    LeadsStep(s, a);
    s' := u;
    if !s.aborters[t].HasSock? {
      s' := FinishOne(u, t);
      assert u.aborters - {t} == s.aborters - {t};
      LeadsOn(s, u, s');
    }
  }

  /** All others run to their end; one is left. */
  lemma {:induction false} Drain(s: State, t: nat) returns (s': State)
    requires t in s.aborters
    ensures Leads(s, s') && s'.aborters == map[t := s.aborters[t]] && s'.fetch == s.fetch
    ensures s.aborters == map[t := s.aborters[t]] ==> s' == s
    decreases |s.aborters|
  {
    hide Leads;
    s' := s;
    if x :| x in s.aborters && x != t {
      var u := FinishOne(s, x);
      assert u.aborters.Keys == s.aborters.Keys - {x};
      s' := Drain(u, t);
      LeadsOn(s, u, s');
    } else {
      assert s.aborters == map[t := s.aborters[t]];
      NoSteps(s);
      CalmLeads(s, s);
    }
  }

  /** The fetch can always let go of the channel. */
  lemma Settle(s: State) returns (s': State)
    ensures Calm(s, s') && s'.aborters == s.aborters && s'.fetch.Idle?
  {
    hide Calm;
    NoSteps(s);
    s' := s;
    if s'.fetch.Entered? {
      ThenStep(s, s', Check);
      s' := Next(s', Check);
    }
    if !s'.fetch.Idle? {
      var a := if s'.fetch.Running? then Fail else KeepGen;
      ThenStep(s, s', a);
      s' := Next(s', a);
    }
  }

  /** The state enables the reuse of a socket an abort landed on. */
  predicate ReusesAborted(s: State) {
    Enabled(s, Reuse) && s.sock.value.id in s.landed
  }

  /** A fetch that entered on a generation still to come keeps its socket, which an abort
      has landed on, under that generation; the next fetch may reuse it. */
  lemma KeptAhead(s: State) returns (v: State)
    requires s.aborters == map[] && s.fetch.Entered? && s.gen < s.fetch.gen0
    ensures Calm(s, v) && ReusesAborted(v)
  {
    hide Calm, RaisedTo;
    var g := s.fetch.gen0;
    var s1 := Next(s, Resume);
    var s2 := Next(s1, Check);
    var s3 := Next(s2, Connect(0));
    NoSteps(s);
    ThenStep(s, s, Resume);
    ThenStep(s, s1, Check);
    ThenStep(s, s2, Connect(0));
    RaiseTo(s3, 0, g);
    var s4 := RaisedTo(s3, g);
    CalmLeads(s, s3);
    CalmLeads(s3, s4);
    LeadsOn(s, s3, s4);
    v := KeptNow(s4);
    CalmLeads(s, s4);
    CalmLeads(s4, v);
    LeadsOn(s, s4, v);
  }

  lemma KeptNow(s: State) returns (v: State)
    requires (s.aborters == map[] || !s.abort) && s.sock.Some? && s.sock.value.id in s.landed
    requires s.fetch == Running(s.gen, false, true)
    ensures Calm(s, v) && ReusesAborted(v)
  {
    hide Calm;
    var s1 := Next(s, Keep);
    var s2 := Next(s1, KeepGen);
    var s3 := if s.abort then Next(s2, Resume) else s2;
    var s4 := Next(s3, Enter);
    var s5 := Next(s4, Check);
    v := Next(s5, SeeAlive);
    NoSteps(s);
    ThenStep(s, s, Keep);
    ThenStep(s, s1, KeepGen);
    if s.abort { ThenStep(s, s2, Resume); }
    ThenStep(s, s3, Enter);
    ThenStep(s, s4, Check);
    ThenStep(s, s5, SeeAlive);
  }

  /** One thread that is overtaken between its read and its store is enough: in `u` its store
      takes the generation back, and from there on, without another step that disturbs, an
      aborted socket comes to be reused.  If no other thread was inside, nothing else disturbs
      before either. */
  lemma LoweredReuses(s: State, t: nat) returns (u: State, v: State)
    requires t in s.aborters && s.aborters[t].ReadGen?
    ensures Leads(s, u) && Lowers(u, StoreGen(t))
    ensures Calm(Next(u, StoreGen(t)), v) && ReusesAborted(v)
    ensures s.aborters == map[t := s.aborters[t]] ==> Calm(s, u)
  {
    hide Calm, Leads, RaisedTo;
    var r := s.aborters[t].r;
    var s1 := Settle(s);
    var s2 := Drain(s1, t);
    var g := if s2.gen < r + 2 then r + 2 else s2.gen;
    RaiseTo(s2, t + 1, g);
    var s3 := RaisedTo(s2, g);
    u := Next(s3, Enter);
    CalmLeads(s2, s3);
    LeadsStep(s3, Enter);
    LeadsOn(s2, s3, u);
    CalmLeads(s, s1);
    LeadsOn(s, s1, s2);
    LeadsOn(s, s2, u);
    v := AfterStore(u, t);
  }

  lemma AfterStore(u: State, t: nat) returns (v: State)
    requires t in u.aborters && u.aborters == map[t := u.aborters[t]] && u.fetch.Entered?
    requires Lowers(u, StoreGen(t)) && u.fetch.gen0 == u.gen
    ensures Calm(Next(u, StoreGen(t)), v) && ReusesAborted(v)
  {
    hide Calm;
    var r := u.aborters[t].r;
    var idle := u.(aborters := map[]);
    assert u == With(idle, t, ReadGen(r));
    StoreEffect(idle, t, r);
    var w := Stored(idle, r);
    v := KeptAhead(w);
    CalmLeads(Next(u, StoreGen(t)), w);
    CalmLeads(w, v);
    LeadsOn(Next(u, StoreGen(t)), w, v);
  }

  /** Whatever happened before, once a thread's store would take the generation back some
      continuation reuses a socket an abort landed on. */
  lemma LoweredBumpReusesAborted(steps: seq<Step>, t: nat)
    requires Exec(Init, steps).Some? && Lowers(Exec(Init, steps).value, StoreGen(t))
    ensures exists more :: Exec(Init, steps + more).Some? && ReusesAborted(Exec(Init, steps + more).value)
  {
    hide Exec, Orderly;
    var s := Exec(Init, steps).value;
    var u, v := LoweredReuses(s, t);
    ThroughStep(s, u, StoreGen(t), v);
    var more :| Exec(s, more) == Some(v);
    ExecConcat(Init, steps, more);
  }

  lemma ThroughStep(s: State, u: State, a: Step, v: State)
    requires Leads(s, u) && Enabled(u, a) && Calm(Next(u, a), v)
    ensures Leads(s, v)
  {
    hide *;
    LeadsStep(u, a);
    CalmLeads(Next(u, a), v);
    LeadsOn(s, u, Next(u, a));
    LeadsOn(s, Next(u, a), v);
  }

  /** One resume while a thread is armed is enough too: in `u` the thread is about to load the
      socket, or holds a descriptor that may be given out again, when the flag is cleared; a
      fetch slips in, its socket is aborted and kept. */
  lemma ResumedReuses(s: State, t: nat) returns (u: State, v: State)
    requires t in s.aborters && Armed(s.aborters[t])
    ensures Leads(s, u) && Unflags(u, Resume) && Calm(Next(u, Resume), v) && ReusesAborted(v)
  {
    hide Calm, Leads;
    var s1 := ToLoad(s, t);
    u := Settle(s1);
    CalmLeads(s1, u);
    LeadsOn(s, s1, u);
    v := SlipsIn(Next(u, Resume), t);
  }

  /** An armed thread can always get to where it loads the socket, if it has not. */
  lemma {:induction false} ToLoad(s: State, t: nat) returns (s': State)
    requires t in s.aborters && Armed(s.aborters[t])
    ensures Leads(s, s') && t in s'.aborters && Armed(s'.aborters[t])
    ensures s'.aborters[t].Cleared? || s'.aborters[t].HasSock?
    decreases StepsLeft(s.aborters[t])
  {
    hide Leads;
    NoSteps(s);
    CalmLeads(s, s);
    s' := s;
    if !s.aborters[t].Cleared? && !s.aborters[t].HasSock? {
      var a := match s.aborters[t] case Raised => LoadGen(t) case ReadGen(_) => StoreGen(t) case _ => ClearAlive(t);
      LeadsStep(s, a);
      s' := ToLoad(Next(s, a), t);
      LeadsOn(s, Next(s, a), s');
    }
  }

  lemma SlipsIn(s: State, t: nat) returns (v: State)
    requires t in s.aborters && Armed(s.aborters[t]) && (s.aborters[t].Cleared? || s.aborters[t].HasSock?)
    requires s.fetch.Idle? && !s.abort
    ensures Calm(s, v) && ReusesAborted(v)
  {
    hide Calm;
    var fd := if s.aborters[t].HasSock? then s.aborters[t].fd.value else 0;
    var s1 := Next(s, Enter);
    var s2 := Next(s1, Check);
    var s3 := Next(s2, Connect(fd));
    var s4 := if s.aborters[t].Cleared? then Next(s3, LoadSock(t)) else s3;
    var s5 := Next(s4, Land(t));
    NoSteps(s);
    ThenStep(s, s, Enter);
    ThenStep(s, s1, Check);
    ThenStep(s, s2, Connect(fd));
    if s.aborters[t].Cleared? { ThenStep(s, s3, LoadSock(t)); }
    ThenStep(s, s4, Land(t));
    v := KeptNow(s5);
    CalmLeads(s, s5);
    CalmLeads(s5, v);
    LeadsOn(s, s5, v);
  }

  /** Whatever happened before, where a resume would clear the flag on an armed thread some
      continuation reuses a socket an abort landed on. */
  lemma ResumedAbortReusesAborted(steps: seq<Step>)
    requires Exec(Init, steps).Some? && Unflags(Exec(Init, steps).value, Resume)
    ensures exists more :: Exec(Init, steps + more).Some? && ReusesAborted(Exec(Init, steps + more).value)
  {
    hide Exec, Orderly;
    var s := Exec(Init, steps).value;
    var t :| t in s.aborters && Armed(s.aborters[t]);
    var u, v := ResumedReuses(s, t);
    ThroughStep(s, u, Resume, v);
    var more :| Exec(s, more) == Some(v);
    ExecConcat(Init, steps, more);
  }

  // ---- resume against a newer request ---------------------------------------

  /** A thread that still has to write the abort flag, or may: an opener that has
      published its request, a resume that has cleared the flag, and one that has
      seen the newer request. */
  datatype Writer = Published | WroteClear | Raising

  datatype Flag = Flag(abort: bool, superseded: bool, writers: map<nat, Writer>)

  datatype FlagStep =
    | Publish(t: nat)        // an opener announces its request ...
    | OpenerAbort(t: nat)    // ... and then aborts
    | OtherAbort             // any other abort
    | Clear(t: nat)          // resume_ch clears the flag ...
    | CheckNewer(t: nat)     // ... checks for a newer request ...
    | Reraise(t: nat)        // ... and raises the flag again
    | Withdraw               // the newer request is done with

  predicate Can(f: Flag, a: FlagStep) {
    match a
    case Publish(t) => t !in f.writers
    case OpenerAbort(t) => t in f.writers && f.writers[t].Published?
    case OtherAbort => true
    case Clear(t) => t !in f.writers
    case CheckNewer(t) => t in f.writers && f.writers[t].WroteClear?
    case Reraise(t) => t in f.writers && f.writers[t].Raising?
    case Withdraw => true
  }

  function Do(f: Flag, a: FlagStep): Flag
    requires Can(f, a)
  {
    match a
    case Publish(t) => f.(superseded := true, writers := f.writers[t := Published])
    case OpenerAbort(t) => f.(abort := true, writers := f.writers - {t})
    case OtherAbort => f.(abort := true)
    case Clear(t) => f.(abort := false, writers := f.writers[t := WroteClear])
    case CheckNewer(t) =>
      if f.superseded then f.(writers := f.writers[t := Raising]) else f.(writers := f.writers - {t})
    case Reraise(t) => f.(abort := true, writers := f.writers - {t})
    case Withdraw => f.(superseded := false)
  }

  function Play(f: Flag, steps: seq<FlagStep>): Option<Flag>
    decreases |steps|
  {
    if steps == [] then Some(f)
    else if Can(f, steps[0]) then Play(Do(f, steps[0]), steps[1..])
    else None
  }

  /** While a newer request stands with the flag down, someone is about to raise it. */
  ghost predicate Owed(f: Flag) {
    f.superseded && !f.abort ==> exists t :: t in f.writers
  }

  lemma {:induction false} OwedAlways(f: Flag, steps: seq<FlagStep>)
    requires Owed(f) && Play(f, steps).Some?
    ensures Owed(Play(f, steps).value)
    decreases |steps|
  {
    if steps != [] {
      var g := Do(f, steps[0]);
      assert Owed(g) by {
        match steps[0]
        case Publish(t) => assert t in g.writers;
        case Clear(t) => assert t in g.writers;
        case CheckNewer(t) => assert f.superseded ==> t in g.writers;
        case _ =>
      }
      OwedAlways(g, steps[1..]);
    }
  }

  /** A resume racing the opener never finishes with the flag down while the newer
      request stands: once every opener and resume is through, the flag is up. */
  lemma ResumeKeepsNewerAbort(steps: seq<FlagStep>)
    requires Play(Flag(false, false, map[]), steps).Some?
    ensures var f := Play(Flag(false, false, map[]), steps).value;
      f.superseded && f.writers == map[] ==> f.abort
  {
    OwedAlways(Flag(false, false, map[]), steps);
  }

  predicate Raises(a: FlagStep) {
    a.OpenerAbort? || a.OtherAbort? || a.Reraise?
  }

  /** The flag is what the last step that writes it left: up if and only if some abort was raised after the
      last clear, or it was up and nothing cleared it. */
  lemma {:induction false} FlagExactly(f: Flag, steps: seq<FlagStep>)
    requires Play(f, steps).Some?
    ensures Play(f, steps).value.abort <==>
      || (exists i | 0 <= i < |steps| && Raises(steps[i]) :: forall j | i < j < |steps| :: !steps[j].Clear?)
      || (f.abort && forall j | 0 <= j < |steps| :: !steps[j].Clear?)
    decreases |steps|
  {
    if steps != [] {
      var a, rest := steps[0], steps[1..];
      var g := Do(f, a);
      FlagExactly(g, rest);
      assert g.abort <==> Raises(a) || (f.abort && !a.Clear?);
      assert forall j | 1 <= j < |steps| :: steps[j] == rest[j - 1];
      if i :| 0 <= i < |rest| && Raises(rest[i]) && forall j | i < j < |rest| :: !rest[j].Clear? {
        assert Raises(steps[i + 1]) && forall j | i + 1 < j < |steps| :: !steps[j].Clear?;
      }
      if i :| 0 < i < |steps| && Raises(steps[i]) && forall j | i < j < |steps| :: !steps[j].Clear? {
        assert Raises(rest[i - 1]) && forall j | i - 1 < j < |rest| :: !rest[j].Clear?;
      }
    }
  }

  /** Only a resume that saw a newer request raises the flag again: steps without an abort, none of whose checks
      finds one, raise nothing. */
  ghost predicate Peaceful(f: Flag, steps: seq<FlagStep>)
    requires Play(f, steps).Some?
    decreases |steps|
  {
    steps == [] ||
    (!steps[0].OpenerAbort? && !steps[0].OtherAbort? && !(steps[0].CheckNewer? && f.superseded)
     && Peaceful(Do(f, steps[0]), steps[1..]))
  }

  /** A resume clears the flag: once it has, and while no abort comes and no newer request is found to
      stand, the flag stays down, whoever else resumes. */
  lemma {:induction false} ResumeClears(f: Flag, t: nat, steps: seq<FlagStep>)
    requires Can(f, Clear(t)) && (forall u | u in f.writers :: !f.writers[u].Raising?)
    requires Play(Do(f, Clear(t)), steps).Some? && Peaceful(Do(f, Clear(t)), steps)
    ensures !Play(Do(f, Clear(t)), steps).value.abort
  {
    StaysDown(Do(f, Clear(t)), steps);
  }

  lemma {:induction false} StaysDown(f: Flag, steps: seq<FlagStep>)
    requires !f.abort && (forall u | u in f.writers :: !f.writers[u].Raising?)
    requires Play(f, steps).Some? && Peaceful(f, steps)
    ensures !Play(f, steps).value.abort
    decreases |steps|
  {
    if steps != [] { StaysDown(Do(f, steps[0]), steps[1..]); }
  }

  /** Undisturbed, a resume ends with the flag down, whatever raised it before. */
  lemma ResumeAlone(f: Flag, t: nat)
    requires t !in f.writers
    ensures Play(f, [Clear(t), CheckNewer(t)]).Some?
    ensures var g := Play(f, [Clear(t), CheckNewer(t)]).value;
      !g.abort && (if f.superseded then g.writers == f.writers[t := Raising] else g.writers == f.writers)
  {
    var s := [Clear(t), CheckNewer(t)];
    assert s[1..] == [CheckNewer(t)] && s[1..][1..] == [];
    var f1 := Do(f, Clear(t));
    var f2 := Do(f1, CheckNewer(t));
    assert Play(f2, []) == Some(f2);
    assert Play(f1, s[1..]) == Play(f2, s[1..][1..]);
    assert f1.writers - {t} == f.writers;
    assert f1.writers[t := Raising] == f.writers[t := Raising];
  }
}
