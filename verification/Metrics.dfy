/** The metrics recorder: metric vectors created on first use under double-checked locking.

    Every caller is one thread of control making one request.  A run is a schedule: the order in
    which callers take their next step, so that a statement about every schedule is a statement about
    every interleaving at the granularity of the lock operations, the map accesses and the
    registration. */
module Metrics {
  import opened Prelude

  datatype Kind = Counter | Histogram | Gauge

  datatype Request = Request(kind: Kind, name: string)

  type Vector = nat    // a vector allocated by the process, numbered in order of allocation

  datatype Stage =
    | Start                              // before RLock
    | Reading                            // holds the read lock
    | Looked(found: Option<Vector>)      // has looked once, holds the read lock
    | Missed                             // released the read lock without a vector
    | Locked                             // holds the write lock
    | Creating                           // has looked twice, holds the write lock
    | Created(vec: Vector)               // has registered, holds the write lock
    | Leaving(vec: Vector)               // holds the write lock, about to release and return
    | Failing                            // registration panicked, the deferred unlock is pending
    | Returned(vec: Vector)
    | Panicked

  /** What the recorder registered, in order. */
  datatype Made = Made(request: Request, vec: Vector)

  datatype State = State(
    stages: map<int, Stage>,
    readers: set<int>,
    writer: Option<int>,
    vectors: map<Request, Vector>,     // the recorder's three maps, told apart by kind
    registry: set<string>,             // names in the process-wide default registry
    made: seq<Made>,
    issued: nat
  )

  /** The registry refuses an invalid name, and a name it has, whatever kind registered it: the help
      text is the name and the labels are always the same, so the descriptors are equal. */
  predicate Accepts(valid: string -> bool, registry: set<string>, name: string) {
    valid(name) && name !in registry
  }

  function Initial(calls: map<int, Request>, foreign: set<string>): State {
    State(map t | t in calls :: Start, {}, None, map[], foreign, [], 0)
  }

  /** One step of caller t; a blocked or finished caller does nothing. */
  function Step(valid: string -> bool, calls: map<int, Request>, s: State, t: int): (s': State)
    requires t in calls && t in s.stages
    ensures s'.stages.Keys == s.stages.Keys
  {
    var r := calls[t];
    match s.stages[t]
    case Start =>
      if s.writer.Some? then s else s.(readers := s.readers + {t}, stages := s.stages[t := Reading])
    case Reading =>
      s.(stages := s.stages[t := Looked(if r in s.vectors then Some(s.vectors[r]) else None)])
    case Looked(found) =>
      s.(readers := s.readers - {t}, stages := s.stages[t := if found.Some? then Returned(found.value) else Missed])
    case Missed =>
      if s.writer.Some? || s.readers != {} then s else s.(writer := Some(t), stages := s.stages[t := Locked])
    case Locked =>
      s.(stages := s.stages[t := if r in s.vectors then Leaving(s.vectors[r]) else Creating])
    case Creating =>
      if Accepts(valid, s.registry, r.name) then
        s.(registry := s.registry + {r.name}, made := s.made + [Made(r, s.issued)],
           issued := s.issued + 1, stages := s.stages[t := Created(s.issued)])
      else
        s.(issued := s.issued + 1, stages := s.stages[t := Failing])
    case Created(v) =>
      s.(vectors := s.vectors[r := v], stages := s.stages[t := Leaving(v)])
    case Leaving(v) =>
      s.(writer := None, stages := s.stages[t := Returned(v)])
    case Failing =>
      s.(writer := None, stages := s.stages[t := Panicked])
    case Returned(_) => s
    case Panicked => s
  }

  function Run(valid: string -> bool, calls: map<int, Request>, foreign: set<string>, schedule: seq<int>): (s: State)
    requires forall t :: t in schedule ==> t in calls
    ensures s.stages.Keys == calls.Keys
  {
    if schedule == [] then Initial(calls, foreign)
    else
      var n := |schedule| - 1;
      Step(valid, calls, Run(valid, calls, foreign, schedule[..n]), schedule[n])
  }

  predicate Finished(stage: Stage) { stage.Returned? || stage.Panicked? }

  // ---- the invariant ----

  predicate HoldsRead(stage: Stage) { stage.Reading? || stage.Looked? }

  predicate HoldsWrite(stage: Stage) {
    stage.Locked? || stage.Creating? || stage.Created? || stage.Leaving? || stage.Failing?
  }

  /** Readers exclude the writer, and there is one writer. */
  ghost predicate LockInv(s: State) {
    && (forall t :: t in s.readers <==> t in s.stages && HoldsRead(s.stages[t]))
    && (forall t :: t in s.stages ==> (HoldsWrite(s.stages[t]) <==> s.writer == Some(t)))
    && (s.writer.Some? ==> s.writer.value in s.stages && s.readers == {})
  }

  ghost predicate MadeName(made: seq<Made>, name: string) {
    exists i :: 0 <= i < |made| && made[i].request.name == name
  }

  /** What has been registered: valid names, none of them foreign, none of them twice. */
  ghost predicate MadeInv(valid: string -> bool, foreign: set<string>, made: seq<Made>, registry: set<string>,
                          issued: nat) {
    && Distinct(made) && foreign <= registry
    && (forall i :: 0 <= i < |made| ==>
          valid(made[i].request.name) && made[i].request.name in registry
          && made[i].request.name !in foreign && made[i].vec < issued)
    && (forall name :: name in registry ==> name in foreign || MadeName(made, name))
  }

  ghost predicate Distinct(made: seq<Made>) {
    forall i, j :: 0 <= i < j < |made| ==>
      made[i].request.name != made[j].request.name && made[i].vec != made[j].vec
  }

  /** The registered vectors are in the maps, except one that its creator is about to store. */
  ghost predicate StoredInv(calls: map<int, Request>, s: State)
    requires s.stages.Keys == calls.Keys
  {
    && (forall r :: r in s.vectors ==> Made(r, s.vectors[r]) in s.made)
    && (forall m :: m in s.made && m.request !in s.vectors ==>
          s.writer.Some? && s.writer.value in s.stages
          && s.stages[s.writer.value] == Created(m.vec) && calls[s.writer.value] == m.request)
  }

  /** Why the registry refuses a name. */
  ghost predicate Refused(valid: string -> bool, foreign: set<string>, made: seq<Made>, r: Request) {
    !valid(r.name) || r.name in foreign
    || exists i :: 0 <= i < |made| && made[i].request.name == r.name && made[i].request.kind != r.kind
  }

  ghost predicate CallerInv(valid: string -> bool, foreign: set<string>, s: State, r: Request, stage: Stage) {
    match stage
    case Looked(found) => found.Some? ==> Made(r, found.value) in s.made
    case Returned(v) => Made(r, v) in s.made
    case Leaving(v) => Made(r, v) in s.made
    case Created(v) => Made(r, v) in s.made && r !in s.vectors
    case Creating => r !in s.vectors
    case Failing => Refused(valid, foreign, s.made, r)
    case Panicked => Refused(valid, foreign, s.made, r)
    case _ => true
  }

  ghost predicate Inv(valid: string -> bool, calls: map<int, Request>, foreign: set<string>, s: State) {
    && s.stages.Keys == calls.Keys
    && LockInv(s) && MadeInv(valid, foreign, s.made, s.registry, s.issued) && StoredInv(calls, s)
    && (forall t :: t in calls ==> CallerInv(valid, foreign, s, calls[t], s.stages[t]))
  }

  lemma StepKeepsLocks(valid: string -> bool, calls: map<int, Request>, foreign: set<string>, s: State, t: int)
    requires t in calls && Inv(valid, calls, foreign, s)
    ensures LockInv(Step(valid, calls, s, t))
  {
    hide MadeInv;
    hide StoredInv;
    hide CallerInv;
  }

  lemma RegisterKeepsMade(valid: string -> bool, foreign: set<string>, made: seq<Made>, registry: set<string>,
                          issued: nat, r: Request)
    requires MadeInv(valid, foreign, made, registry, issued) && Accepts(valid, registry, r.name)
    ensures MadeInv(valid, foreign, made + [Made(r, issued)], registry + {r.name}, issued + 1)
  {
    var more := made + [Made(r, issued)];
    forall name | name in registry + {r.name}
      ensures name in foreign || MadeName(more, name)
    {
      if name == r.name {
        assert more[|made|].request.name == name;
      } else if name !in foreign {
        assert MadeName(made, name);
        var i :| 0 <= i < |made| && made[i].request.name == name;
        assert more[i].request.name == name;
      }
    }
  }

  lemma StepKeepsMade(valid: string -> bool, calls: map<int, Request>, foreign: set<string>, s: State, t: int)
    requires t in calls && Inv(valid, calls, foreign, s)
    ensures var s' := Step(valid, calls, s, t);
      MadeInv(valid, foreign, s'.made, s'.registry, s'.issued) && s.made <= s'.made
  {
    if s.stages[t].Creating? && Accepts(valid, s.registry, calls[t].name) {
      hide MadeInv;
      RegisterKeepsMade(valid, foreign, s.made, s.registry, s.issued, calls[t]);
    }
  }

  /** Two registered vectors: the same name or the same vector only if they are one. */
  lemma OneVector(made: seq<Made>, a: Made, b: Made)
    requires Distinct(made) && a in made && b in made
    ensures a.request.name == b.request.name ==> a == b
    ensures a.vec == b.vec ==> a == b
  {
  }

  lemma MadeIsNotRefused(valid: string -> bool, foreign: set<string>, made: seq<Made>, registry: set<string>,
                         issued: nat, m: Made)
    requires MadeInv(valid, foreign, made, registry, issued) && m in made
    ensures !Refused(valid, foreign, made, m.request)
  {
  }

  lemma StepKeepsStored(valid: string -> bool, calls: map<int, Request>, foreign: set<string>, s: State, t: int)
    requires t in calls && Inv(valid, calls, foreign, s)
    ensures StoredInv(calls, Step(valid, calls, s, t))
  {
    hide MadeInv;
    assert CallerInv(valid, foreign, s, calls[t], s.stages[t]);
  }

  /** The second look and the lock together: a creator that the registry refuses did not find its own
      request among the registered ones. */
  lemma RefusedByAnother(valid: string -> bool, calls: map<int, Request>, foreign: set<string>, s: State, t: int)
    requires t in calls && Inv(valid, calls, foreign, s)
    requires s.stages[t].Creating? && !Accepts(valid, s.registry, calls[t].name)
    ensures Refused(valid, foreign, s.made, calls[t])
  {
    var r := calls[t];
    if valid(r.name) && r.name !in foreign {
      assert MadeName(s.made, r.name);
      var i :| 0 <= i < |s.made| && s.made[i].request.name == r.name;
      assert s.made[i] in s.made && s.writer == Some(t);
    }
  }

  lemma StepKeepsCaller(valid: string -> bool, calls: map<int, Request>, foreign: set<string>, s: State, t: int)
    requires t in calls && Inv(valid, calls, foreign, s)
    ensures var s' := Step(valid, calls, s, t); CallerInv(valid, foreign, s', calls[t], s'.stages[t])
  {
    hide MadeInv;
    hide Refused;
    var s' := Step(valid, calls, s, t);
    assert CallerInv(valid, foreign, s, calls[t], s.stages[t]);
    if s.stages[t].Creating? {
      if Accepts(valid, s.registry, calls[t].name) {
        assert s'.made[|s.made|] == Made(calls[t], s'.stages[t].vec);
      } else {
        RefusedByAnother(valid, calls, foreign, s, t);
      }
    }
  }

  /** A step moves its caller only, registers at most at the end, and changes the maps only under
      the write lock. */
  lemma StepEffect(valid: string -> bool, calls: map<int, Request>, s: State, t: int)
    requires t in calls && t in s.stages
    ensures var s' := Step(valid, calls, s, t);
      && s.made <= s'.made
      && (s'.vectors == s.vectors || HoldsWrite(s.stages[t]))
      && (forall u :: u in s.stages && u != t ==> s'.stages[u] == s.stages[u])
  {
  }

  lemma StepKeepsOthers(valid: string -> bool, calls: map<int, Request>, foreign: set<string>, s: State, t: int, u: int)
    requires t in calls && u in calls && t != u && Inv(valid, calls, foreign, s)
    ensures var s' := Step(valid, calls, s, t); CallerInv(valid, foreign, s', calls[u], s'.stages[u])
  {
    var s' := Step(valid, calls, s, t);
    hide Step;
    hide MadeInv;
    hide StoredInv;
    StepEffect(valid, calls, s, t);
    RefusedMonotone(valid, foreign, s.made, s'.made, calls[u]);
    hide Refused;
    assert CallerInv(valid, foreign, s, calls[u], s.stages[u]);
    assert HoldsWrite(s.stages[u]) ==> s'.vectors == s.vectors;
  }

  lemma RefusedMonotone(valid: string -> bool, foreign: set<string>, made: seq<Made>, more: seq<Made>, r: Request)
    requires made <= more
    ensures Refused(valid, foreign, made, r) ==> Refused(valid, foreign, more, r)
    ensures forall m :: m in made ==> m in more
  {
  }

  lemma StepKeepsInv(valid: string -> bool, calls: map<int, Request>, foreign: set<string>, s: State, t: int)
    requires t in calls && Inv(valid, calls, foreign, s)
    ensures Inv(valid, calls, foreign, Step(valid, calls, s, t))
  {
    hide Step;
    hide MadeInv;
    hide StoredInv;
    hide LockInv;
    hide CallerInv;
    StepKeepsLocks(valid, calls, foreign, s, t);
    StepKeepsMade(valid, calls, foreign, s, t);
    StepKeepsStored(valid, calls, foreign, s, t);
    forall u | u in calls
      ensures var s' := Step(valid, calls, s, t); CallerInv(valid, foreign, s', calls[u], s'.stages[u])
    {
      if u == t {
        StepKeepsCaller(valid, calls, foreign, s, t);
      } else {
        StepKeepsOthers(valid, calls, foreign, s, t, u);
      }
    }
  }

  lemma {:induction false} RunKeepsInv(valid: string -> bool, calls: map<int, Request>, foreign: set<string>,
        schedule: seq<int>)
    requires forall t :: t in schedule ==> t in calls
    ensures Inv(valid, calls, foreign, Run(valid, calls, foreign, schedule))
  {
    if schedule != [] {
      var n := |schedule| - 1;
      RunKeepsInv(valid, calls, foreign, schedule[..n]);
      StepKeepsInv(valid, calls, foreign, Run(valid, calls, foreign, schedule[..n]), schedule[n]);
    }
  }

  // ---- what every schedule guarantees ----

  function Registrations(made: seq<Made>, name: string): nat {
    if made == [] then 0
    else Registrations(made[..|made| - 1], name) + if made[|made| - 1].request.name == name then 1 else 0
  }

  lemma {:induction false} AtMostOne(made: seq<Made>, name: string)
    requires forall i, j :: 0 <= i < j < |made| ==> made[i].request.name != made[j].request.name
    ensures Registrations(made, name) <= 1
    ensures Registrations(made, name) == 1 ==> MadeName(made, name)
  {
    if made != [] {
      var before := made[..|made| - 1];
      AtMostOne(before, name);
      if Registrations(before, name) == 1 {
        var i :| 0 <= i < |before| && before[i].request.name == name;
        assert made[i].request.name == name;
      } else if made[|made| - 1].request.name == name {
        assert MadeName(made, name);
      }
    }
  }

  /** No name is registered twice, so in particular not twice for one kind. */
  lemma RegisteredOnce(valid: string -> bool, calls: map<int, Request>, foreign: set<string>, schedule: seq<int>,
                       name: string)
    requires forall t :: t in schedule ==> t in calls
    ensures Registrations(Run(valid, calls, foreign, schedule).made, name) <= 1
  {
    RunKeepsInv(valid, calls, foreign, schedule);
    AtMostOne(Run(valid, calls, foreign, schedule).made, name);
  }

  /** Two callers asking for the same kind and name end the same way: with the same vector, or both
      panicking.  Callers that got the same vector asked for the same kind and name. */
  lemma CallersAgree(valid: string -> bool, calls: map<int, Request>, foreign: set<string>, schedule: seq<int>,
                     t: int, u: int)
    requires forall x :: x in schedule ==> x in calls
    requires t in calls && u in calls
    ensures var s := Run(valid, calls, foreign, schedule); var a, b := s.stages[t], s.stages[u];
      && (a.Returned? && b.Returned? ==> (a.vec == b.vec <==> calls[t] == calls[u]))
      && (calls[t] == calls[u] ==> !(a.Returned? && b.Panicked?))
  {
    RunKeepsInv(valid, calls, foreign, schedule);
    var s := Run(valid, calls, foreign, schedule);
    hide Run;
    assert CallerInv(valid, foreign, s, calls[t], s.stages[t]) && CallerInv(valid, foreign, s, calls[u], s.stages[u]);
    if s.stages[t].Returned? {
      var a := Made(calls[t], s.stages[t].vec);
      MadeIsNotRefused(valid, foreign, s.made, s.registry, s.issued, a);
      if s.stages[u].Returned? { OneVector(s.made, a, Made(calls[u], s.stages[u].vec)); }
    }
  }

  /** A caller that finishes panics exactly when its name is invalid, taken by other code, or taken
      by another kind; otherwise it returns. */
  lemma PanicsExactlyWhenRefused(valid: string -> bool, calls: map<int, Request>, foreign: set<string>,
                                 schedule: seq<int>, t: int)
    requires forall x :: x in schedule ==> x in calls
    requires t in calls
    ensures var s := Run(valid, calls, foreign, schedule);
      Finished(s.stages[t]) ==> (s.stages[t].Panicked? <==> Refused(valid, foreign, s.made, calls[t]))
  {
    RunKeepsInv(valid, calls, foreign, schedule);
    var s := Run(valid, calls, foreign, schedule);
    hide Run;
    if s.stages[t].Returned? {
      MadeIsNotRefused(valid, foreign, s.made, s.registry, s.issued, Made(calls[t], s.stages[t].vec));
    }
  }

  /** Exclusion: while a caller holds the write lock nobody else holds the lock in any mode. */
  lemma WriterIsAlone(valid: string -> bool, calls: map<int, Request>, foreign: set<string>, schedule: seq<int>,
                      t: int, u: int)
    requires forall x :: x in schedule ==> x in calls
    requires t in calls && u in calls && t != u
    ensures var s := Run(valid, calls, foreign, schedule);
      HoldsWrite(s.stages[t]) ==> !HoldsWrite(s.stages[u]) && !HoldsRead(s.stages[u])
  {
    RunKeepsInv(valid, calls, foreign, schedule);
  }

  /** Steps left to a caller, at most. */
  function Remaining(stage: Stage): nat {
    match stage
    case Start => 8
    case Reading => 7
    case Looked(_) => 6
    case Missed => 5
    case Locked => 4
    case Creating => 3
    case Created(_) => 2
    case Leaving(_) => 1
    case Failing => 1
    case _ => 0
  }

  lemma Movable(valid: string -> bool, calls: map<int, Request>, foreign: set<string>, s: State,
                waiting: int) returns (t: int)
    requires Inv(valid, calls, foreign, s)
    requires waiting in calls && !Finished(s.stages[waiting])
    ensures t in calls
    ensures var s' := Step(valid, calls, s, t);
      && Remaining(s'.stages[t]) < Remaining(s.stages[t])
      && forall u :: u in calls && u != t ==> s'.stages[u] == s.stages[u]
  {
    hide MadeInv;
    hide StoredInv;
    hide CallerInv;
    if s.writer.Some? {
      t := s.writer.value;
    } else if exists u :: u in s.readers {
      t :| t in s.readers && t in s.stages && HoldsRead(s.stages[t]);
    } else {
      t := waiting;
    }
  }

  /** No deadlock: as long as a caller has not finished, some caller can take a step, and a step
      brings that caller closer to its end and leaves the others where they are. */
  lemma SomebodyCanMove(valid: string -> bool, calls: map<int, Request>, foreign: set<string>, schedule: seq<int>,
                        waiting: int)
    returns (t: int)
    requires forall x :: x in schedule ==> x in calls
    requires waiting in calls && !Finished(Run(valid, calls, foreign, schedule).stages[waiting])
    ensures t in calls
    ensures var s := Run(valid, calls, foreign, schedule); var s' := Run(valid, calls, foreign, schedule + [t]);
      && Remaining(s'.stages[t]) < Remaining(s.stages[t])
      && forall u :: u in calls && u != t ==> s'.stages[u] == s.stages[u]
  {
    RunKeepsInv(valid, calls, foreign, schedule);
    t := Movable(valid, calls, foreign, Run(valid, calls, foreign, schedule), waiting);
    assert (schedule + [t])[..|schedule|] == schedule;
  }

  // ---- one caller by itself ----

  datatype Tables = Tables(vectors: map<Request, Vector>, registry: set<string>, made: seq<Made>, issued: nat)

  /** The outcome of one request: a known vector, a new one registered and stored, or a panic (None)
      that leaves the maps and the registry alone. */
  predicate Obtained(valid: string -> bool, r: Request, was: Tables, now: Tables, v: Option<Vector>) {
    if r in was.vectors then now == was && v == Some(was.vectors[r])
    else if Accepts(valid, was.registry, r.name) then
      && v == Some(was.issued) && now.vectors == was.vectors[r := was.issued]
      && now.registry == was.registry + {r.name} && now.made == was.made + [Made(r, was.issued)]
      && now.issued == was.issued + 1
    else now == was.(issued := was.issued + 1) && v == None
  }

  class Recorder {
    const valid: string -> bool
    var vectors: map<Request, Vector>
    var registry: set<string>
    var made: seq<Made>
    var issued: nat

    function Contents(): Tables
      reads this
    {
      Tables(vectors, registry, made, issued)
    }

    constructor (valid: string -> bool, foreign: set<string>)
      ensures this.valid == valid && Contents() == Tables(map[], foreign, [], 0)
    {
      this.valid, vectors, registry, made, issued := valid, map[], foreign, [], 0;
    }

    /** Registering panics (None) on a name the registry does not accept. */
    method Register(r: Request) returns (v: Option<Vector>)
      modifies this
      ensures vectors == old(vectors) && issued == old(issued) + 1
      ensures if Accepts(valid, old(registry), r.name)
        then v == Some(old(issued)) && registry == old(registry) + {r.name}
          && made == old(made) + [Made(r, old(issued))]
        else v == None && registry == old(registry) && made == old(made)
    {
      var id := issued;
      issued := issued + 1;
      if !Accepts(valid, registry, r.name) { return None; }
      registry, made := registry + {r.name}, made + [Made(r, id)];
      v := Some(id);
    }

    /** The vector of a request with nobody else running: the first look... */
    method GetOrCreate(r: Request) returns (v: Option<Vector>)
      modifies this
      ensures Obtained(valid, r, old(Contents()), Contents(), v)
    {
      if r in vectors { return Some(vectors[r]); }
      v := CreateLocked(r);
    }

    /** ... and what is done under the write lock: the second look, the registration, the store. */
    method CreateLocked(r: Request) returns (v: Option<Vector>)
      modifies this
      ensures Obtained(valid, r, old(Contents()), Contents(), v)
    {
      if r in vectors { return Some(vectors[r]); }
      v := Register(r);
      if v.None? { return None; }
      vectors := vectors[r := v.value];
    }
  }

  function Steps(valid: string -> bool, calls: map<int, Request>, s: State, t: int, n: nat): (s': State)
    requires t in calls && t in s.stages
    ensures s'.stages.Keys == s.stages.Keys
    decreases n
  {
    if n == 0 then s else Steps(valid, calls, Step(valid, calls, s, t), t, n - 1)
  }

  function TablesOf(s: State): Tables { Tables(s.vectors, s.registry, s.made, s.issued) }

  lemma {:induction false} FinishedStays(valid: string -> bool, calls: map<int, Request>, s: State, t: int, n: nat)
    requires t in calls && t in s.stages && Finished(s.stages[t])
    ensures Steps(valid, calls, s, t, n) == s
    decreases n
  {
    if n > 0 { FinishedStays(valid, calls, s, t, n - 1); }
  }

  lemma {:induction false} FromLocked(valid: string -> bool, calls: map<int, Request>, s: State, t: int)
    requires t in calls && t in s.stages && s.stages[t].Locked?
    ensures var e := Steps(valid, calls, s, t, 4);
      && e.readers == s.readers && e.writer.None? && Finished(e.stages[t])
      && Obtained(valid, calls[t], TablesOf(s), TablesOf(e),
                  if e.stages[t].Returned? then Some(e.stages[t].vec) else None)
  {
    var s1 := Step(valid, calls, s, t);
    var s2 := Step(valid, calls, s1, t);
    assert Steps(valid, calls, s, t, 4) == Steps(valid, calls, s1, t, 3) == Steps(valid, calls, s2, t, 2);
    FinishedSoon(valid, calls, s2, t);
  }

  /** At most two more steps after the second look and the registration. */
  lemma {:induction false} FinishedSoon(valid: string -> bool, calls: map<int, Request>, s: State, t: int)
    requires t in calls && t in s.stages
    requires var g := s.stages[t]; Finished(g) || g.Leaving? || g.Failing? || g.Created?
    ensures var e := Steps(valid, calls, s, t, 2);
      && Finished(e.stages[t]) && e.readers == s.readers && e.registry == s.registry && e.made == s.made
        && e.issued == s.issued
      && (s.stages[t].Created? ==>
        e.vectors == s.vectors[calls[t] := s.stages[t].vec] && e.stages[t] == Returned(s.stages[t].vec))
      && (!s.stages[t].Created? ==> e.vectors == s.vectors)
      && (s.stages[t].Leaving? ==> e.stages[t] == Returned(s.stages[t].vec))
      && (s.stages[t].Failing? ==> e.stages[t] == Panicked)
      && (Finished(s.stages[t]) ==> e == s)
      && (!Finished(s.stages[t]) ==> e.writer.None?)
  {
    var s1 := Step(valid, calls, s, t);
    assert Steps(valid, calls, s, t, 2) == Steps(valid, calls, s1, t, 1) == Step(valid, calls, s1, t);
  }

  /** The steps of a caller that is not interrupted come to the outcome of one request, and leave the
      lock free. */
  lemma {:induction false} AloneObtains(valid: string -> bool, calls: map<int, Request>, s: State, t: int)
    requires t in calls && t in s.stages && s.stages[t].Start? && s.writer.None? && s.readers == {}
    ensures var e := Steps(valid, calls, s, t, 8);
      && e.readers == {} && e.writer.None? && Finished(e.stages[t])
      && Obtained(valid, calls[t], TablesOf(s), TablesOf(e),
                  if e.stages[t].Returned? then Some(e.stages[t].vec) else None)
  {
    var s1 := Step(valid, calls, s, t);
    var s2 := Step(valid, calls, s1, t);
    var s3 := Step(valid, calls, s2, t);
    assert Steps(valid, calls, s, t, 8) == Steps(valid, calls, s3, t, 5) by {
      assert Steps(valid, calls, s2, t, 6) == Steps(valid, calls, s3, t, 5);
      assert Steps(valid, calls, s1, t, 7) == Steps(valid, calls, s2, t, 6);
    }
    if Finished(s3.stages[t]) {
      FinishedStays(valid, calls, s3, t, 5);
    } else {
      FromLocked(valid, calls, Step(valid, calls, s3, t), t);
    }
  }
}
