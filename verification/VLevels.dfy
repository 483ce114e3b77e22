/** The logger's verbosity state shared by goroutines: lock-free reads of two words, a cache of
    levels per call site under a mutex, and setters that pass through inconsistent states. Every
    atomic step of every call may interleave with the others. */
module VLevels {
  import opened Text

  type Site = int
  type Tid = nat

  datatype ModulePat = ModulePat(pattern: string, level: int)

  type Filter = seq<ModulePat>

  /** Whether a pattern matches the file of a call site. */
  type Matcher = (string, Site) -> bool

  /** The level of the first matching filter, 0 if none matches. */
  function FilterLevel(matches: Matcher, filter: Filter, site: Site): int {
    if filter == [] then 0
    else if matches(filter[0].pattern, site) then filter[0].level
    else FilterLevel(matches, filter[1..], site)
  }

  lemma {:induction false} FirstFilterDecides(matches: Matcher, filter: Filter, site: Site, k: nat)
    requires k <= |filter| && forall j :: 0 <= j < k ==> !matches(filter[j].pattern, site)
    ensures k < |filter| && matches(filter[k].pattern, site) ==> FilterLevel(matches, filter, site) == filter[k].level
    ensures k == |filter| ==> FilterLevel(matches, filter, site) == 0
  {
    if k > 0 {
      assert forall j :: 0 <= j < k - 1 ==> filter[1..][j] == filter[j + 1];
      FirstFilterDecides(matches, filter[1..], site, k - 1);
    }
  }

  /** A call of `V` or `VDepth`; `known` says whether the runtime can tell the call site. */
  datatype Call = Call(level: int, site: Site, known: bool)

  /** The arguments of `setVState`. */
  datatype NewState = NewState(verbosity: int, filter: Filter, setFilter: bool)

  datatype Request = SetLevel(verbosity: int) | SetModule(filter: Filter)

  /** Where a goroutine is, named by the next atomic step it takes. */
  datatype Pc =
    | Idle
    | ReadVerbosity(call: Call)
    | ReadFilterLength(call: Call)
    | LockForV(call: Call)
    | LookUp(call: Call)
    | Fill(call: Call)
    | Answer(call: Call, v: int)
    | Answered(call: Call, yes: bool)
    | LockForSet(request: Request)
    | ReadArguments(request: Request)
    | ZeroVerbosity(to: NewState)
    | ZeroFilterLength(to: NewState)
    | StoreFilter(to: NewState)
    | WipeCache(to: NewState)
    | StoreFilterLength(to: NewState)
    | StoreVerbosity(to: NewState)
    | UnlockSet
    | StoreBare(verbosity: int)

  datatype State = State(
    verbosity: int, filterLength: int, filter: Filter, vmap: Option<map<Site, int>>,
    lock: Option<Tid>, threads: map<Tid, Pc>, panicked: bool)

  /** After package initialisation: everything off, no cache yet. */
  predicate Initial(s: State) {
    && s.verbosity == 0 && s.filterLength == 0 && s.filter == [] && s.vmap == None
    && s.lock == None && !s.panicked && forall t :: t in s.threads ==> s.threads[t] == Idle
  }

  function Goto(s: State, t: Tid, pc: Pc): State {
    s.(threads := s.threads[t := pc])
  }

  /** A goroutine with nothing under way may start any call. */
  predicate Starts(pc: Pc) {
    pc.ReadVerbosity? || pc.LockForSet? || pc.StoreBare?
  }

  /** One atomic step of goroutine t. */
  predicate Step(matches: Matcher, s: State, s': State, t: Tid)
    requires t in s.threads
  {
    match s.threads[t]
    case Idle => t in s'.threads && Starts(s'.threads[t]) && s' == Goto(s, t, s'.threads[t])
    // V, VDepth
    case ReadVerbosity(c) =>
      s' == Goto(s, t, if s.verbosity >= c.level then Answered(c, true) else ReadFilterLength(c))
    case ReadFilterLength(c) =>
      s' == Goto(s, t, if s.filterLength > 0 then LockForV(c) else Answered(c, false))
    case LockForV(c) => s.lock == None && s' == Goto(s.(lock := Some(t)), t, LookUp(c))
    case LookUp(c) =>
      if !c.known then s' == Goto(s.(lock := None), t, Answered(c, false))
      else if s.vmap.Some? && c.site in s.vmap.value then s' == Goto(s, t, Answer(c, s.vmap.value[c.site]))
      else s' == Goto(s, t, Fill(c))
    case Fill(c) =>
      var v := FilterLevel(matches, s.filter, c.site);
      if s.vmap.None? then s' == s.(panicked := true)
      else s' == Goto(s.(vmap := Some(s.vmap.value[c.site := v])), t, Answer(c, v))
    case Answer(c, v) => s' == Goto(s.(lock := None), t, Answered(c, v >= c.level))
    case Answered(_, _) => s' == Goto(s, t, Idle)
    // Level.Set, moduleSpec.Set
    case LockForSet(r) => s.lock == None && s' == Goto(s.(lock := Some(t)), t, ReadArguments(r))
    case ReadArguments(r) =>
      s' == Goto(s, t, ZeroVerbosity(
        match r
        case SetLevel(v) => NewState(v, s.filter, false)
        case SetModule(f) => NewState(s.verbosity, f, true)))
    case ZeroVerbosity(to) => s' == Goto(s.(verbosity := 0), t, ZeroFilterLength(to))
    case ZeroFilterLength(to) =>
      s' == Goto(s.(filterLength := 0), t, if to.setFilter then StoreFilter(to) else StoreFilterLength(to))
    case StoreFilter(to) => s' == Goto(s.(filter := to.filter), t, WipeCache(to))
    case WipeCache(to) => s' == Goto(s.(vmap := Some(map[])), t, StoreFilterLength(to))
    case StoreFilterLength(to) => s' == Goto(s.(filterLength := |to.filter|), t, StoreVerbosity(to))
    case StoreVerbosity(to) => s' == Goto(s.(verbosity := to.verbosity), t, UnlockSet)
    case UnlockSet => s' == Goto(s.(lock := None), t, Idle)
    // SetVerbosity
    case StoreBare(v) => s' == Goto(s.(verbosity := v), t, Idle)
  }

  // ---- The invariant ----

  predicate Holds(pc: Pc) {
    pc.LookUp? || pc.Fill? || pc.Answer? || pc.ReadArguments? || pc.ZeroVerbosity? || pc.ZeroFilterLength? ||
    pc.StoreFilter? || pc.WipeCache? || pc.StoreFilterLength? || pc.StoreVerbosity? || pc.UnlockSet?
  }

  /** The part of `V` that is reached only after a positive filter length was seen. */
  predicate SawFilter(pc: Pc) {
    pc.LockForV? || pc.LookUp? || pc.Fill? || pc.Answer?
  }

  /** The filter length is switched off. */
  predicate SwitchedOff(pc: Pc) {
    pc.StoreFilter? || pc.WipeCache? || pc.StoreFilterLength?
  }

  /** What a goroutine knows by having come this far. */
  predicate Knows(matches: Matcher, s: State, pc: Pc) {
    && (SawFilter(pc) ==> s.vmap.Some?)
    && (pc.Answer? ==> pc.v == FilterLevel(matches, s.filter, pc.call.site))
    && (pc.ZeroVerbosity? || pc.ZeroFilterLength? ==> !pc.to.setFilter ==> pc.to.filter == s.filter)
    && (pc.StoreFilter? ==> pc.to.setFilter)
    && (pc.WipeCache? || pc.StoreFilterLength? || pc.StoreVerbosity? ==> pc.to.filter == s.filter)
    && (SwitchedOff(pc) ==> s.filterLength == 0)
  }

  /** The goroutine holding the lock, if any. */
  function Holder(s: State): Pc {
    if s.lock.Some? && s.lock.value in s.threads then s.threads[s.lock.value] else Idle
  }

  predicate CacheExact(matches: Matcher, s: State) {
    s.vmap.Some? ==> forall site :: site in s.vmap.value ==> s.vmap.value[site] == FilterLevel(matches, s.filter, site)
  }

  predicate Inv(matches: Matcher, s: State) {
    && !s.panicked
    && (s.lock.Some? ==> s.lock.value in s.threads)
    && (forall t :: t in s.threads ==> (Holds(s.threads[t]) <==> s.lock == Some(t)))
    && (forall t :: t in s.threads ==> Knows(matches, s, s.threads[t]))
    && (!Holder(s).WipeCache? ==> CacheExact(matches, s) && (s.filter != [] ==> s.vmap.Some?))
    && (!SwitchedOff(Holder(s)) ==> s.filterLength == |s.filter|)
    && (s.filterLength > 0 ==> s.vmap.Some?)
  }

  lemma InitialInv(matches: Matcher, s: State)
    requires Initial(s)
    ensures Inv(matches, s)
  {
  }

  /** The lock-free reads. */
  lemma ReadingKeepsInv(matches: Matcher, s: State, s': State, t: Tid)
    requires Inv(matches, s) && t in s.threads && Step(matches, s, s', t)
    requires var pc := s.threads[t]; pc.ReadVerbosity? || pc.ReadFilterLength?
    ensures Inv(matches, s')
  {
  }

  /** Starting, ending, and the bare store of the verbosity. */
  lemma OutsideKeepsInv(matches: Matcher, s: State, s': State, t: Tid)
    requires Inv(matches, s) && t in s.threads && Step(matches, s, s', t)
    requires var pc := s.threads[t]; pc.Idle? || pc.Answered? || pc.StoreBare?
    ensures Inv(matches, s')
  {
  }

  /** Taking the lock. */
  lemma LockingKeepsInv(matches: Matcher, s: State, s': State, t: Tid)
    requires Inv(matches, s) && t in s.threads && Step(matches, s, s', t)
    requires var pc := s.threads[t]; pc.LockForV? || pc.LockForSet?
    ensures Inv(matches, s')
  {
  }

  /** The cache lookup. */
  lemma LookUpKeepsInv(matches: Matcher, s: State, s': State, t: Tid)
    requires Inv(matches, s) && t in s.threads && Step(matches, s, s', t)
    requires var pc := s.threads[t]; pc.LookUp?
    ensures Inv(matches, s')
  {
  }

  /** Filling the cache. */
  lemma FillKeepsInv(matches: Matcher, s: State, s': State, t: Tid)
    requires Inv(matches, s) && t in s.threads && Step(matches, s, s', t)
    requires var pc := s.threads[t]; pc.Fill?
    ensures Inv(matches, s')
  {
  }

  /** Giving the lock back. */
  lemma UnlockingKeepsInv(matches: Matcher, s: State, s': State, t: Tid)
    requires Inv(matches, s) && t in s.threads && Step(matches, s, s', t)
    requires var pc := s.threads[t]; pc.Answer? || pc.UnlockSet?
    ensures Inv(matches, s')
  {
  }

  /** The setter up to switching the filter length off. */
  lemma EnteringKeepsInv(matches: Matcher, s: State, s': State, t: Tid)
    requires Inv(matches, s) && t in s.threads && Step(matches, s, s', t)
    requires var pc := s.threads[t]; pc.ReadArguments? || pc.ZeroVerbosity? || pc.ZeroFilterLength?
    ensures Inv(matches, s')
  {
  }

  /** Changing the filter and wiping the cache. */
  lemma ChangingKeepsInv(matches: Matcher, s: State, s': State, t: Tid)
    requires Inv(matches, s) && t in s.threads && Step(matches, s, s', t)
    requires var pc := s.threads[t]; pc.StoreFilter? || pc.WipeCache?
    ensures Inv(matches, s')
  {
  }

  /** Switching both words on again. */
  lemma RestoringKeepsInv(matches: Matcher, s: State, s': State, t: Tid)
    requires Inv(matches, s) && t in s.threads && Step(matches, s, s', t)
    requires var pc := s.threads[t]; pc.StoreFilterLength? || pc.StoreVerbosity?
    ensures Inv(matches, s')
  {
  }

  lemma {:induction false} StepKeepsInv(matches: Matcher, s: State, s': State, t: Tid)
    requires Inv(matches, s) && t in s.threads && Step(matches, s, s', t)
    ensures Inv(matches, s')
  {
    match s.threads[t]
    case Idle => OutsideKeepsInv(matches, s, s', t);
    case ReadVerbosity(_) => ReadingKeepsInv(matches, s, s', t);
    case ReadFilterLength(_) => ReadingKeepsInv(matches, s, s', t);
    case Answered(_, _) => OutsideKeepsInv(matches, s, s', t);
    case StoreBare(_) => OutsideKeepsInv(matches, s, s', t);
    case LockForV(_) => LockingKeepsInv(matches, s, s', t);
    case LockForSet(_) => LockingKeepsInv(matches, s, s', t);
    case LookUp(_) => LookUpKeepsInv(matches, s, s', t);
    case Fill(_) => FillKeepsInv(matches, s, s', t);
    case Answer(_, _) => UnlockingKeepsInv(matches, s, s', t);
    case UnlockSet => UnlockingKeepsInv(matches, s, s', t);
    case ReadArguments(_) => EnteringKeepsInv(matches, s, s', t);
    case ZeroVerbosity(_) => EnteringKeepsInv(matches, s, s', t);
    case ZeroFilterLength(_) => EnteringKeepsInv(matches, s, s', t);
    case StoreFilter(_) => ChangingKeepsInv(matches, s, s', t);
    case WipeCache(_) => ChangingKeepsInv(matches, s, s', t);
    case StoreFilterLength(_) => RestoringKeepsInv(matches, s, s', t);
    case StoreVerbosity(_) => RestoringKeepsInv(matches, s, s', t);
  }

  // ---- Runs ----

  /** A run: any interleaving of steps of any goroutines. */
  ghost predicate IsRun(matches: Matcher, run: seq<State>) {
    && run != []
    && Initial(run[0])
    && forall i: nat :: i + 1 < |run| ==> SomeStep(matches, run, i)
  }

  /** Some goroutine takes the step from moment i to the next. */
  ghost predicate SomeStep(matches: Matcher, run: seq<State>, i: nat)
    requires i + 1 < |run|
  {
    exists t :: t in run[i].threads && Step(matches, run[i], run[i + 1], t)
  }

  lemma {:induction false} RunKeepsInv(matches: Matcher, run: seq<State>, i: nat)
    requires IsRun(matches, run) && i < |run|
    ensures Inv(matches, run[i])
  {
    if i == 0 {
      InitialInv(matches, run[0]);
    } else {
      RunKeepsInv(matches, run, i - 1);
      var t := LastMove(matches, run, i);
      StepKeepsInv(matches, run[i - 1], run[i], t);
    }
  }

  /** In every run, at every moment the lock is free: each cached level is that of the first
      matching filter now in force, and the visible filter length is that filter's. And no run
      writes into a cache that does not exist. */
  lemma FreeMeansExact(matches: Matcher, run: seq<State>, i: nat)
    requires IsRun(matches, run) && i < |run|
    ensures !run[i].panicked
    ensures run[i].lock == None ==> CacheExact(matches, run[i]) && run[i].filterLength == |run[i].filter|
  {
    RunKeepsInv(matches, run, i);
  }

  lemma CacheStays(matches: Matcher, s: State, s': State, t: Tid)
    requires t in s.threads && Step(matches, s, s', t)
    ensures s.vmap.Some? ==> s'.vmap.Some?
  {
  }

  /** Once a positive filter length was visible, the cache exists for good. */
  lemma {:induction false} CacheOutlivesFilter(matches: Matcher, run: seq<State>, i: nat, j: nat)
    requires IsRun(matches, run) && i <= j < |run| && run[i].filterLength > 0
    ensures run[j].vmap.Some?
  {
    if i == j {
      RunKeepsInv(matches, run, i);
    } else {
      CacheOutlivesFilter(matches, run, i, j - 1);
      var t := LastMove(matches, run, j);
      CacheStays(matches, run[j - 1], run[j], t);
    }
  }

  /** Goroutine t answers a call in the step from i to i + 1. */
  predicate Answers(run: seq<State>, i: nat, t: Tid, c: Call, yes: bool) {
    && i + 1 < |run| && t in run[i].threads && t in run[i + 1].threads
    && !run[i].threads[t].Answered? && run[i + 1].threads[t] == Answered(c, yes)
  }

  lemma AnswerStep(matches: Matcher, s: State, s': State, t: Tid, u: Tid, c: Call, yes: bool)
    requires Inv(matches, s) && u in s.threads && Step(matches, s, s', u)
    requires t in s.threads && t in s'.threads && !s.threads[t].Answered? && s'.threads[t] == Answered(c, yes)
    ensures u == t && Working(s.threads[t], c)
    ensures yes ==> s.verbosity >= c.level || FilterLevel(matches, s.filter, c.site) >= c.level
    ensures !yes ==> !c.known || s.filterLength <= 0 || FilterLevel(matches, s.filter, c.site) < c.level
  {
  }

  /** In the middle of this call of `V`. */
  predicate Working(pc: Pc, c: Call) {
    match pc
    case ReadVerbosity(d) => c == d
    case ReadFilterLength(d) => c == d
    case LockForV(d) => c == d
    case LookUp(d) => c == d
    case Fill(d) => c == d
    case Answer(d, _) => c == d
    case _ => false
  }

  /** `V` says yes only if, at the moment it decides, the verbosity or the level of the filter then
      in force reaches the request; it says no only if the site is unknown, filtering is off, or
      the filter's level is too low at that moment. */
  lemma AnswersAreJustified(matches: Matcher, run: seq<State>, i: nat, t: Tid, c: Call, yes: bool)
    requires IsRun(matches, run) && Answers(run, i, t, c, yes)
    ensures yes ==> run[i].verbosity >= c.level || FilterLevel(matches, run[i].filter, c.site) >= c.level
    ensures !yes ==> !c.known || run[i].filterLength <= 0 || FilterLevel(matches, run[i].filter, c.site) < c.level
  {
    RunKeepsInv(matches, run, i);
    var u := LastMove(matches, run, i + 1);
    AnswerStep(matches, run[i], run[i + 1], t, u, c, yes);
  }

  lemma LastMove(matches: Matcher, run: seq<State>, i: nat) returns (u: Tid)
    requires IsRun(matches, run) && 0 < i < |run|
    ensures u in run[i - 1].threads && Step(matches, run[i - 1], run[i], u)
  {
    assert SomeStep(matches, run, i - 1);
    u :| u in run[i - 1].threads && Step(matches, run[i - 1], run[i], u);
  }

  /** In the middle of this call, past its first test. */
  predicate PastFirstTest(run: seq<State>, i: nat, t: Tid, c: Call) {
    InCall(run, i, t, c) && !run[i].threads[t].ReadVerbosity?
  }

  predicate InCall(run: seq<State>, i: nat, t: Tid, c: Call) {
    i < |run| && t in run[i].threads && Working(run[i].threads[t], c)
  }

  /** Past its first test, a call has seen a verbosity that was too low, at some moment since it
      began. */
  lemma {:induction false} SawLowVerbosity(matches: Matcher, run: seq<State>, i: nat, t: Tid, c: Call) returns (k: nat)
    requires IsRun(matches, run) && PastFirstTest(run, i, t, c)
    ensures k < i && run[k].verbosity < c.level
    ensures forall j: nat :: k <= j <= i ==> InCall(run, j, t, c)
  {
    MomentBefore(matches, run, i, t, c);
    if PastFirstTest(run, i - 1, t, c) {
      k := SawLowVerbosity(matches, run, i - 1, t, c);
    } else {
      k := i - 1;
    }
  }

  /** One moment earlier the call was under way too; if it was still at its first test, the
      verbosity it read then was too low. */
  lemma MomentBefore(matches: Matcher, run: seq<State>, i: nat, t: Tid, c: Call)
    requires IsRun(matches, run) && PastFirstTest(run, i, t, c)
    ensures i > 0 && InCall(run, i - 1, t, c)
    ensures !PastFirstTest(run, i - 1, t, c) ==> run[i - 1].verbosity < c.level
  {
    StartsIdle(matches, run, i, t, c);
    var u := LastMove(matches, run, i);
    BeforeWorking(matches, run[i - 1], run[i], u, t, c);
  }

  lemma StartsIdle(matches: Matcher, run: seq<State>, i: nat, t: Tid, c: Call)
    requires IsRun(matches, run) && InCall(run, i, t, c)
    ensures i > 0
  {
  }

  lemma BeforeWorking(matches: Matcher, s: State, s': State, u: Tid, t: Tid, c: Call)
    requires u in s.threads && Step(matches, s, s', u)
    requires t in s'.threads && Working(s'.threads[t], c) && !s'.threads[t].ReadVerbosity?
    ensures t in s.threads && Working(s.threads[t], c)
    ensures s.threads[t].ReadVerbosity? ==> u == t && s.verbosity < c.level
  {
  }

  // ---- What a setter leaves behind ----

  /** The arguments that a request has `setVState` write, read in this state. */
  function Arguments(s: State, r: Request): NewState {
    match r
    case SetLevel(v) => NewState(v, s.filter, false)
    case SetModule(f) => NewState(s.verbosity, f, true)
  }

  /** On its way to writing these arguments. */
  predicate Setting(pc: Pc, to: NewState) {
    match pc
    case ZeroVerbosity(t) => t == to
    case ZeroFilterLength(t) => t == to
    case StoreFilter(t) => t == to
    case WipeCache(t) => t == to
    case StoreFilterLength(t) => t == to
    case StoreVerbosity(t) => t == to
    case _ => false
  }

  predicate InSet(run: seq<State>, i: nat, t: Tid, to: NewState) {
    i < |run| && t in run[i].threads && Setting(run[i].threads[t], to)
  }

  /** The setter read its arguments at moment k and has been writing them since, up to moment i. */
  predicate ReadSince(run: seq<State>, k: nat, i: nat, t: Tid, to: NewState, r: Request) {
    && k < i < |run| && t in run[k].threads && run[k].threads[t] == ReadArguments(r)
    && to == Arguments(run[k], r)
    && forall j: nat :: k < j <= i ==> InSet(run, j, t, to)
  }

  lemma BeforeSetting(matches: Matcher, s: State, s': State, u: Tid, t: Tid, to: NewState)
    requires u in s.threads && Step(matches, s, s', u) && t in s'.threads && Setting(s'.threads[t], to)
    ensures t in s.threads
    ensures Setting(s.threads[t], to) || (s.threads[t].ReadArguments? && to == Arguments(s, s.threads[t].request))
  {
  }

  lemma {:induction false} SetterHasRead(matches: Matcher, run: seq<State>, i: nat, t: Tid, to: NewState)
    returns (k: nat, r: Request)
    requires IsRun(matches, run) && InSet(run, i, t, to)
    ensures ReadSince(run, k, i, t, to, r)
  {
    assert i > 0;
    var u := LastMove(matches, run, i);
    BeforeSetting(matches, run[i - 1], run[i], u, t, to);
    if Setting(run[i - 1].threads[t], to) {
      k, r := SetterHasRead(matches, run, i - 1, t, to);
    } else {
      k, r := i - 1, run[i - 1].threads[t].request;
    }
  }

  /** Goroutine t finishes writing in the step from i to i + 1. */
  predicate Finishes(run: seq<State>, i: nat, t: Tid, to: NewState) {
    && i + 1 < |run| && t in run[i].threads && t in run[i + 1].threads
    && run[i].threads[t] == StoreVerbosity(to) && run[i + 1].threads[t] == UnlockSet
  }

  lemma FinishStep(matches: Matcher, s: State, s': State, u: Tid, t: Tid, to: NewState)
    requires Inv(matches, s) && u in s.threads && Step(matches, s, s', u)
    requires t in s.threads && t in s'.threads && s.threads[t] == StoreVerbosity(to) && s'.threads[t] == UnlockSet
    ensures s'.verbosity == to.verbosity && s'.filter == to.filter && s'.filterLength == |to.filter|
  {
  }

  /** In every run a setter that finishes leaves what it was asked for: `Level.Set` its verbosity
      and the filter that was in force when it started, `moduleSpec.Set` its filter and the
      verbosity from then; the visible filter length is that filter's. */
  lemma {:induction false} SetterLeaves(matches: Matcher, run: seq<State>, i: nat, t: Tid, to: NewState)
    returns (k: nat, r: Request)
    requires IsRun(matches, run) && Finishes(run, i, t, to)
    ensures ReadSince(run, k, i, t, to, r)
    ensures match r
            case SetLevel(v) => run[i + 1].verbosity == v && run[i + 1].filter == run[k].filter
            case SetModule(f) => run[i + 1].filter == f && run[i + 1].verbosity == run[k].verbosity
    ensures run[i + 1].filterLength == |run[i + 1].filter|
  {
    k, r := SetterHasRead(matches, run, i, t, to);
    RunKeepsInv(matches, run, i);
    var u := LastMove(matches, run, i + 1);
    FinishStep(matches, run[i], run[i + 1], u, t, to);
  }

  /** About to store this verbosity. */
  predicate Stores(pc: Pc, verbosity: int) {
    match pc
    case StoreBare(v) => v == verbosity
    case StoreVerbosity(to) => to.verbosity == verbosity
    case _ => false
  }

  lemma VerbosityStep(matches: Matcher, s: State, s': State, u: Tid)
    requires u in s.threads && Step(matches, s, s', u)
    ensures s'.verbosity == 0 || s'.verbosity == s.verbosity || Stores(s.threads[u], s'.verbosity)
  {
  }

  /** A verbosity other than 0 was stored by some setter: neither the start nor the moments in the
      middle of a setter show one that nobody asked for. */
  lemma {:induction false} VerbosityHasSource(matches: Matcher, run: seq<State>, i: nat) returns (k: nat, u: Tid)
    requires IsRun(matches, run) && i < |run| && run[i].verbosity != 0
    ensures k < i && u in run[k].threads && Stores(run[k].threads[u], run[i].verbosity)
  {
    assert i > 0;
    var last := LastMove(matches, run, i);
    VerbosityStep(matches, run[i - 1], run[i], last);
    if Stores(run[i - 1].threads[last], run[i].verbosity) {
      k, u := i - 1, last;
    } else {
      k, u := VerbosityHasSource(matches, run, i - 1);
    }
  }
}
