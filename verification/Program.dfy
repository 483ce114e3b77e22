/** The instruction set of path patterns and its two meanings: matching a split path, and
    printing the template back. Both are explicit about running off the stack, so that what
    the static check buys is a theorem and not a precondition. */
module Program {
  import opened Text
  import opened Escape

  datatype Instr =
    | Nop
    | Push
    | Deep
    | Lit(text: Str)
    | Concat(n: int)
    | Capture(name: Str)

  // ---- Static view ----

  function Effect(i: Instr): int {
    match i
    case Nop => 0
    case Concat(n) => 1 - n
    case Capture(_) => -1
    case _ => 1
  }

  /** How deep the stack must be for the instruction to run. */
  function Need(i: Instr): int {
    match i
    case Concat(n) => n
    case Capture(_) => 1
    case _ => 0
  }

  function Depth(prog: seq<Instr>): int {
    if prog == [] then 0 else Depth(prog[..|prog| - 1]) + Effect(prog[|prog| - 1])
  }

  function MaxDepth(prog: seq<Instr>): int {
    if prog == [] then 0
    else
      var before, here := MaxDepth(prog[..|prog| - 1]), Depth(prog);
      if before < here then here else before
  }

  predicate HasDeep(prog: seq<Instr>) {
    Deep in prog
  }

  /** Instructions that take exactly one component. */
  predicate TakesOne(i: Instr) {
    i.Push? || i.Lit?
  }

  function Ones(prog: seq<Instr>): nat {
    if prog == [] then 0 else (if TakesOne(prog[0]) then 1 else 0) + Ones(prog[1..])
  }

  /** Single-component instructions after the deep wildcard. */
  function TailOf(prog: seq<Instr>): nat {
    if prog == [] then 0
    else
      var init, last := prog[..|prog| - 1], prog[|prog| - 1];
      TailOf(init) + if TakesOne(last) && HasDeep(init) then 1 else 0
  }

  /** No instruction finds the stack too low, and every concatenation takes something. */
  predicate StackSafe(prog: seq<Instr>) {
    if prog == [] then true
    else
      var init, last := prog[..|prog| - 1], prog[|prog| - 1];
      StackSafe(init) && Need(last) <= Depth(init) && (last.Concat? ==> last.n > 0)
  }

  predicate OneDeep(prog: seq<Instr>) {
    if prog == [] then true
    else
      var init, last := prog[..|prog| - 1], prog[|prog| - 1];
      OneDeep(init) && !(last == Deep && HasDeep(init))
  }

  /** The checker's two conditions, read at any one instruction. */
  lemma {:induction false} SafeAt(prog: seq<Instr>, k: nat)
    requires k <= |prog|
    ensures StackSafe(prog) ==> StackSafe(prog[..k])
    ensures StackSafe(prog) && k < |prog| ==> Need(prog[k]) <= Depth(prog[..k]) && (prog[k].Concat? ==> prog[k].n > 0)
    ensures OneDeep(prog) ==> OneDeep(prog[..k])
    ensures OneDeep(prog) && k < |prog| ==> !(prog[k] == Deep && HasDeep(prog[..k]))
  {
    if k == |prog| {
      assert prog[..k] == prog;
    } else {
      var init := prog[..|prog| - 1];
      assert init[..k] == prog[..k];
      SafeAt(init, k);
    }
  }

  // ---- Matching ----

  datatype VM = VM(pos: nat, stack: seq<Str>, captured: seq<(Str, Str)>)

  datatype Run = Running(vm: VM) | NoMatch | BadEscape(escape: Str) | Crash

  const START := VM(0, [], [])

  function Step(i: Instr, tail: nat, cs: seq<Str>, mode: Mode, vm: VM): Run {
    match i
    case Nop => Running(vm)
    case Push =>
      if vm.pos >= |cs| then NoMatch
      else
        (match UnescapeSpec(cs[vm.pos], mode, false)
         case Text(c) => Running(vm.(stack := vm.stack + [c], pos := vm.pos + 1))
         case Malformed(e) => BadEscape(e))
    case Lit(text) =>
      if vm.pos >= |cs| || cs[vm.pos] != text then NoMatch
      else Running(vm.(stack := vm.stack + [text], pos := vm.pos + 1))
    case Deep =>
      if |cs| < vm.pos + tail then NoMatch
      else
        (match UnescapeSpec(Join(cs[vm.pos..|cs| - tail], [SLASH]), mode, true)
         case Text(c) => Running(vm.(stack := vm.stack + [c], pos := |cs| - tail))
         case Malformed(e) => BadEscape(e))
    case Concat(n) =>
      if n < 0 || |vm.stack| < n then Crash
      else
        var l := |vm.stack| - n;
        Running(vm.(stack := vm.stack[..l] + [Join(vm.stack[l..], [SLASH])]))
    case Capture(name) =>
      if |vm.stack| == 0 then Crash
      else
        var l := |vm.stack| - 1;
        Running(vm.(stack := vm.stack[..l], captured := vm.captured + [(name, vm.stack[l])]))
  }

  /** What one step does to the stack height and to the position. */
  lemma StepMoves(i: Instr, tail: nat, cs: seq<Str>, mode: Mode, vm: VM)
    ensures Step(i, tail, cs, mode, vm).Crash? ==> |vm.stack| < Need(i) || Need(i) < 0
    ensures forall next :: Step(i, tail, cs, mode, vm) == Running(next) ==>
      && |next.stack| == |vm.stack| + Effect(i)
      && next.pos == (if i == Deep then |cs| - tail else if TakesOne(i) then vm.pos + 1 else vm.pos)
      && (vm.pos <= |cs| ==> vm.pos <= next.pos <= |cs|)
  {
  }

  function Exec(prog: seq<Instr>, tail: nat, cs: seq<Str>, mode: Mode, vm: VM): Run {
    if prog == [] then Running(vm)
    else
      match Step(prog[0], tail, cs, mode, vm)
      case Running(next) => Exec(prog[1..], tail, cs, mode, next)
      case stop => stop
  }

  lemma {:induction false} ExecAppend(a: seq<Instr>, b: seq<Instr>, tail: nat, cs: seq<Str>, mode: Mode, vm: VM)
    ensures Exec(a + b, tail, cs, mode, vm) ==
      match Exec(a, tail, cs, mode, vm)
      case Running(next) => Exec(b, tail, cs, mode, next)
      case stop => stop
  {
    if a == [] {
      assert a + b == b;
    } else {
      assert (a + b)[1..] == a[1..] + b;
      match Step(a[0], tail, cs, mode, vm)
      case Running(next) => ExecAppend(a[1..], b, tail, cs, mode, next);
      case _ =>
    }
  }

  lemma {:induction false} ExecThen(a: seq<Instr>, b: seq<Instr>, tail: nat, cs: seq<Str>, mode: Mode, vm: VM, next: VM)
    requires Exec(a, tail, cs, mode, vm) == Running(next)
    ensures Exec(a + b, tail, cs, mode, vm) == Exec(b, tail, cs, mode, next)
  {
    ExecAppend(a, b, tail, cs, mode, vm);
  }

  /** One more instruction: the run of a prefix extended by the instruction that follows it. */
  lemma {:induction false} ExecNext(prog: seq<Instr>, k: nat, tail: nat, cs: seq<Str>, mode: Mode, vm: VM)
    requires k < |prog|
    ensures Exec(prog[..k + 1], tail, cs, mode, vm) ==
      match Exec(prog[..k], tail, cs, mode, vm)
      case Running(next) => Step(prog[k], tail, cs, mode, next)
      case stop => stop
  {
    assert prog[..k + 1] == prog[..k] + [prog[k]];
    ExecAppend(prog[..k], [prog[k]], tail, cs, mode, vm);
    match Exec(prog[..k], tail, cs, mode, vm)
    case Running(next) =>
      assert [prog[k]][1..] == [];
    case _ =>
  }

  /** Static depth is run-time depth: a checked program never runs off its stack, and after
      every instruction the stack has exactly the height computed without running it. */
  lemma {:induction false} StackIsPredicted(prog: seq<Instr>, k: nat, tail: nat, cs: seq<Str>, mode: Mode)
    requires StackSafe(prog) && k <= |prog|
    ensures !Exec(prog[..k], tail, cs, mode, START).Crash?
    ensures forall vm :: Exec(prog[..k], tail, cs, mode, START) == Running(vm) ==>
      |vm.stack| == Depth(prog[..k]) && vm.pos <= |cs|
    ensures 0 <= Depth(prog[..k]) <= MaxDepth(prog)
  {
    if k == 0 {
      MaxDepthBounds(prog, 0);
    } else {
      StackIsPredicted(prog, k - 1, tail, cs, mode);
      SafeAt(prog, k - 1);
      ExecNext(prog, k - 1, tail, cs, mode, START);
      DepthNext(prog, k - 1);
      MaxDepthBounds(prog, k);
      if Exec(prog[..k - 1], tail, cs, mode, START).Running? {
        StepMoves(prog[k - 1], tail, cs, mode, Exec(prog[..k - 1], tail, cs, mode, START).vm);
      }
    }
  }

  lemma DepthNext(prog: seq<Instr>, k: nat)
    requires k < |prog|
    ensures Depth(prog[..k + 1]) == Depth(prog[..k]) + Effect(prog[k])
  {
    assert prog[..k + 1][..k] == prog[..k];
  }

  lemma {:induction false} MaxDepthBounds(prog: seq<Instr>, k: nat)
    requires k <= |prog|
    ensures Depth(prog[..k]) <= MaxDepth(prog)
  {
    if k == |prog| {
      assert prog[..k] == prog;
    } else {
      assert prog[..|prog| - 1][..k] == prog[..k];
      MaxDepthBounds(prog[..|prog| - 1], k);
    }
  }

  /** The bound is attained, so the preallocated stack is never larger than needed. */
  lemma {:induction false} MaxDepthAttained(prog: seq<Instr>)
    ensures exists k :: 0 <= k <= |prog| && Depth(prog[..k]) == MaxDepth(prog)
  {
    if prog == [] {
      assert Depth(prog[..0]) == MaxDepth(prog);
    } else {
      var init := prog[..|prog| - 1];
      MaxDepthAttained(init);
      var k :| 0 <= k <= |init| && Depth(init[..k]) == MaxDepth(init);
      assert init[..k] == prog[..k];
      assert prog[..|prog|] == prog;
    }
  }

  // ---- Component accounting ----

  lemma {:induction false} OnesAppend(a: seq<Instr>, b: seq<Instr>)
    ensures Ones(a + b) == Ones(a) + Ones(b)
  {
    if a == [] {
      assert a + b == b;
    } else {
      assert (a + b)[1..] == a[1..] + b;
      OnesAppend(a[1..], b);
    }
  }

  lemma {:induction false} TailSplit(prog: seq<Instr>, k: nat)
    requires k <= |prog|
    ensures HasDeep(prog[..k]) ==> TailOf(prog) == TailOf(prog[..k]) + Ones(prog[k..])
  {
    if k == |prog| {
      assert prog[..k] == prog;
    } else {
      var init, last := prog[..|prog| - 1], prog[|prog| - 1];
      TailSplit(init, k);
      assert init[..k] == prog[..k];
      assert prog[k..] == init[k..] + [last];
      OnesAppend(init[k..], [last]);
      assert [last][1..] == [];
      if HasDeep(prog[..k]) {
        var d :| 0 <= d < k && prog[..k][d] == Deep;
        assert init[d] == Deep;
      }
    }
  }

  lemma {:induction false} NoDeepNoTail(prog: seq<Instr>)
    requires !HasDeep(prog)
    ensures TailOf(prog) == 0
  {
    if prog != [] {
      NoDeepNoTail(prog[..|prog| - 1]);
    }
  }

  /** The tail length is the number of components still to come once the deep wildcard has run. */
  lemma {:induction false} TailAfterDeep(prog: seq<Instr>, k: nat)
    requires OneDeep(prog) && k < |prog| && prog[k] == Deep
    ensures TailOf(prog) == Ones(prog[k + 1..])
  {
    SafeAt(prog, k);
    NoDeepNoTail(prog[..k]);
    assert prog[..k + 1][..k] == prog[..k];
    assert prog[..k + 1][k] == Deep;
    TailSplit(prog, k + 1);
  }

  lemma OnesNext(prog: seq<Instr>, k: nat)
    requires k < |prog|
    ensures Ones(prog[k..]) == (if TakesOne(prog[k]) then 1 else 0) + Ones(prog[k + 1..])
  {
    assert prog[k..][1..] == prog[k + 1..];
  }

  /** Deep-wildcard accounting: once the deep wildcard has run, what is consumed plus what the
      rest of the program will still take is the whole path. */
  lemma {:induction false} AfterDeep(prog: seq<Instr>, k: nat, cs: seq<Str>, mode: Mode, vm: VM)
    requires OneDeep(prog) && k <= |prog| && HasDeep(prog[..k])
    requires Exec(prog[..k], TailOf(prog), cs, mode, START) == Running(vm)
    ensures vm.pos + Ones(prog[k..]) == |cs|
  {
    DeepIsInside(prog, k);
    var before := LastStep(prog, k - 1, TailOf(prog), cs, mode, vm);
    OnesNext(prog, k - 1);
    if prog[k - 1] == Deep {
      TailAfterDeep(prog, k - 1);
    } else {
      DeepNext(prog, k - 1);
      AfterDeep(prog, k - 1, cs, mode, before);
    }
  }

  lemma DeepIsInside(prog: seq<Instr>, k: nat)
    requires k <= |prog| && HasDeep(prog[..k])
    ensures k > 0
  {
  }

  lemma DeepNext(prog: seq<Instr>, k: nat)
    requires k < |prog|
    ensures HasDeep(prog[..k + 1]) <==> HasDeep(prog[..k]) || prog[k] == Deep
  {
    assert prog[..k + 1] == prog[..k] + [prog[k]];
  }

  /** The step that led to the present state, and how far it moved. */
  lemma {:induction false} LastStep(prog: seq<Instr>, k: nat, tail: nat, cs: seq<Str>, mode: Mode, vm: VM) returns (before: VM)
    requires k < |prog| && Exec(prog[..k + 1], tail, cs, mode, START) == Running(vm)
    ensures Exec(prog[..k], tail, cs, mode, START) == Running(before)
    ensures vm.pos ==
      (if prog[k] == Deep then |cs| - tail else if TakesOne(prog[k]) then before.pos + 1 else before.pos)
  {
    ExecNext(prog, k, tail, cs, mode, START);
    before := Exec(prog[..k], tail, cs, mode, START).vm;
    StepMoves(prog[k], tail, cs, mode, before);
  }

  /** So the end-of-path exit of a single-component instruction is dead after a deep wildcard. */
  lemma NeverShortAfterDeep(prog: seq<Instr>, k: nat, cs: seq<Str>, mode: Mode, vm: VM)
    requires OneDeep(prog) && k < |prog| && HasDeep(prog[..k]) && TakesOne(prog[k])
    requires Exec(prog[..k], TailOf(prog), cs, mode, START) == Running(vm)
    ensures vm.pos < |cs|
  {
    AfterDeep(prog, k, cs, mode, vm);
    assert prog[k..][0] == prog[k];
  }

  /** The run of components each instruction takes, in program order. */
  function Takes(prog: seq<Instr>, tail: nat, cs: seq<Str>, mode: Mode, vm: VM): seq<seq<Str>>
    requires Exec(prog, tail, cs, mode, vm).Running?
  {
    if prog == [] then []
    else
      var next := Step(prog[0], tail, cs, mode, vm).vm;
      [if vm.pos <= next.pos <= |cs| then cs[vm.pos..next.pos] else []] + Takes(prog[1..], tail, cs, mode, next)
  }

  /** Conservation: a run consumes the path left to right, each component exactly once;
      single-component instructions take one, the others except the deep wildcard none. */
  lemma {:induction false} EachComponentOnce(prog: seq<Instr>, tail: nat, cs: seq<Str>, mode: Mode, vm: VM)
    requires vm.pos <= |cs| && Exec(prog, tail, cs, mode, vm).Running?
    ensures vm.pos <= Exec(prog, tail, cs, mode, vm).vm.pos <= |cs|
    ensures Flatten(Takes(prog, tail, cs, mode, vm)) == cs[vm.pos..Exec(prog, tail, cs, mode, vm).vm.pos]
    ensures |Takes(prog, tail, cs, mode, vm)| == |prog|
    ensures forall k :: 0 <= k < |prog| && prog[k] != Deep ==>
      |Takes(prog, tail, cs, mode, vm)[k]| == if TakesOne(prog[k]) then 1 else 0
  {
    if prog != [] {
      var next := Step(prog[0], tail, cs, mode, vm).vm;
      StepMoves(prog[0], tail, cs, mode, vm);
      EachComponentOnce(prog[1..], tail, cs, mode, next);
      var end := Exec(prog, tail, cs, mode, vm).vm.pos;
      assert cs[vm.pos..next.pos] + cs[next.pos..end] == cs[vm.pos..end];
    }
  }

  /** Nothing on the path can fail to decode: legacy mode decodes nothing, and elsewhere every
      component is well formed. */
  predicate Calm(mode: Mode, path: seq<Str>) {
    mode == Legacy || forall c :: c in path ==> WellFormed(c)
  }

  lemma StepIsCalm(i: Instr, tail: nat, path: seq<Str>, mode: Mode, vm: VM)
    requires Calm(mode, path)
    ensures !Step(i, tail, path, mode, vm).BadEscape?
  {
    if i == Deep && vm.pos + tail <= |path| && mode != Legacy {
      var taken := path[vm.pos..|path| - tail];
      assert forall c :: c in taken ==> c in path;
      DecodeOfJoin(taken, mode);
    }
  }

  /** On such a path no program stops at a malformed escape. */
  lemma {:induction false} NeverMalformed(prog: seq<Instr>, tail: nat, path: seq<Str>, mode: Mode, vm: VM)
    requires Calm(mode, path)
    ensures !Exec(prog, tail, path, mode, vm).BadEscape?
  {
    if prog != [] {
      StepIsCalm(prog[0], tail, path, mode, vm);
      if Step(prog[0], tail, path, mode, vm).Running? {
        NeverMalformed(prog[1..], tail, path, mode, Step(prog[0], tail, path, mode, vm).vm);
      }
    }
  }

  /** The escape is what stands at the leftmost malformed percent sign of this part of the path. */
  predicate Reports(path: seq<Str>, a: nat, b: nat, k: nat, escape: Str) {
    && a <= b <= |path|
    && var text := Join(path[a..b], [SLASH]);
       && BadAt(text, k) && k == FirstBad(text)
       && escape == text[k..if k + 3 < |text| then k + 3 else |text|]
  }

  lemma {:induction false} UnescapeReports(s: Str, mode: Mode, multisegment: bool, escape: Str)
    requires UnescapeSpec(s, mode, multisegment) == Malformed(escape)
    ensures mode != Legacy && BadAt(s, FirstBad(s))
    ensures escape == s[FirstBad(s)..if FirstBad(s) + 3 < |s| then FirstBad(s) + 3 else |s|]
  {
    FirstBadMeans(s);
    FailsExactlyOnBadEscape(s, mode, multisegment);
  }

  lemma {:induction false} StepReports(i: Instr, tail: nat, path: seq<Str>, mode: Mode, vm: VM, escape: Str)
    returns (a: nat, b: nat, k: nat)
    requires Step(i, tail, path, mode, vm) == BadEscape(escape)
    ensures mode != Legacy && Reports(path, a, b, k, escape)
  {
    if i == Deep {
      a, b := vm.pos, |path| - tail;
      UnescapeReports(Join(path[a..b], [SLASH]), mode, true, escape);
    } else {
      a, b := vm.pos, vm.pos + 1;
      assert path[a..b] == [path[vm.pos]];
      UnescapeReports(path[vm.pos], mode, false, escape);
    }
    k := FirstBad(Join(path[a..b], [SLASH]));
  }

  /** A run that stops at a malformed escape reports one that the path has. */
  lemma {:induction false} RunReports(prog: seq<Instr>, tail: nat, path: seq<Str>, mode: Mode, vm: VM, escape: Str)
    returns (a: nat, b: nat, k: nat)
    requires Exec(prog, tail, path, mode, vm) == BadEscape(escape)
    ensures mode != Legacy && Reports(path, a, b, k, escape)
  {
    if Step(prog[0], tail, path, mode, vm).Running? {
      a, b, k := RunReports(prog[1..], tail, path, mode, Step(prog[0], tail, path, mode, vm).vm, escape);
    } else {
      a, b, k := StepReports(prog[0], tail, path, mode, vm, escape);
    }
  }

  // ---- Captures ----

  /** The names a program captures, in order. */
  function CaptureNames(prog: seq<Instr>): seq<Str> {
    if prog == [] then []
    else
      var init, last := prog[..|prog| - 1], prog[|prog| - 1];
      CaptureNames(init) + if last.Capture? then [last.name] else []
  }

  function Captures(prog: seq<Instr>): nat {
    |CaptureNames(prog)|
  }

  lemma {:induction false} CaptureNamesNext(prog: seq<Instr>, k: nat)
    requires k < |prog|
    ensures CaptureNames(prog[..k + 1]) == CaptureNames(prog[..k]) + if prog[k].Capture? then [prog[k].name] else []
  {
    assert prog[..k + 1][..k] == prog[..k];
  }

  lemma {:induction false} CaptureNamesGrow(prog: seq<Instr>, k: nat)
    requires k <= |prog|
    ensures CaptureNames(prog[..k]) <= CaptureNames(prog)
  {
    if k == |prog| {
      assert prog[..k] == prog;
    } else {
      assert prog[..|prog| - 1][..k] == prog[..k];
      CaptureNamesGrow(prog[..|prog| - 1], k);
    }
  }

  function NamesOf(captured: seq<(Str, Str)>): seq<Str> {
    if captured == [] then [] else NamesOf(captured[..|captured| - 1]) + [captured[|captured| - 1].0]
  }

  lemma {:induction false} NamesOfAt(captured: seq<(Str, Str)>)
    ensures |NamesOf(captured)| == |captured|
    ensures forall k :: 0 <= k < |captured| ==> NamesOf(captured)[k] == captured[k].0
  {
    if captured != [] {
      NamesOfAt(captured[..|captured| - 1]);
    }
  }

  lemma {:induction false} StepCaptures(i: Instr, tail: nat, cs: seq<Str>, mode: Mode, vm: VM)
    ensures forall next :: Step(i, tail, cs, mode, vm) == Running(next) ==>
      NamesOf(next.captured) == NamesOf(vm.captured) + if i.Capture? then [i.name] else []
  {
    if i.Capture? && |vm.stack| > 0 {
      var more := vm.captured + [(i.name, vm.stack[|vm.stack| - 1])];
      assert more[..|vm.captured|] == vm.captured;
    }
    assert NamesOf(vm.captured) + [] == NamesOf(vm.captured);
  }

  /** At every moment of a run the captures made carry the names captured so far. */
  lemma {:induction false} CapturesRan(prog: seq<Instr>, k: nat, tail: nat, cs: seq<Str>, mode: Mode, vm: VM)
    requires k <= |prog| && Exec(prog[..k], tail, cs, mode, START) == Running(vm)
    ensures NamesOf(vm.captured) == CaptureNames(prog[..k])
  {
    if k > 0 {
      ExecNext(prog, k - 1, tail, cs, mode, START);
      var before := Exec(prog[..k - 1], tail, cs, mode, START).vm;
      CapturesRan(prog, k - 1, tail, cs, mode, before);
      CaptureNamesNext(prog, k - 1);
      StepCaptures(prog[k - 1], tail, cs, mode, before);
    }
  }

  // ---- The static check is exact ----

  /** The shortest path the program can run on: each literal itself, an empty component for
      each `*`, nothing for `**`. */
  function Feed(prog: seq<Instr>): seq<Str> {
    if prog == [] then []
    else (if prog[0].Lit? then [prog[0].text] else if prog[0].Push? then [[]] else []) + Feed(prog[1..])
  }

  lemma {:induction false} FeedAt(prog: seq<Instr>, k: nat)
    requires k < |prog|
    ensures |Feed(prog)| == Ones(prog) == Ones(prog[..k]) + Ones(prog[k..])
    ensures TakesOne(prog[k]) ==> Ones(prog[..k]) < |Feed(prog)|
    ensures prog[k].Lit? ==> Feed(prog)[Ones(prog[..k])] == prog[k].text
  {
    assert prog == prog[..k] + prog[k..];
    OnesAppend(prog[..k], prog[k..]);
    FeedLength(prog);
    OnesNext(prog, k);
    if k > 0 {
      FeedAt(prog[1..], k - 1);
      assert prog[1..][..k - 1] == prog[..k][1..];
    }
  }

  lemma {:induction false} FeedLength(prog: seq<Instr>)
    ensures |Feed(prog)| == Ones(prog)
  {
    if prog != [] {
      FeedLength(prog[1..]);
    }
  }

  lemma {:induction false} FeedRuns(prog: seq<Instr>, k: nat)
    requires OneDeep(prog) && k <= |prog| && StackSafe(prog[..k])
    ensures
      var run := Exec(prog[..k], TailOf(prog), Feed(prog), Legacy, START);
      run.Running? && run.vm.pos == Ones(prog[..k]) && |run.vm.stack| == Depth(prog[..k])
  {
    if k > 0 {
      assert prog[..k][..k - 1] == prog[..k - 1];
      FeedRuns(prog, k - 1);
      FeedStep(prog, k - 1, Exec(prog[..k - 1], TailOf(prog), Feed(prog), Legacy, START).vm);
      ExecNext(prog, k - 1, TailOf(prog), Feed(prog), Legacy, START);
    }
  }

  lemma {:induction false} FeedStep(prog: seq<Instr>, k: nat, vm: VM)
    requires OneDeep(prog) && k < |prog| && Need(prog[k]) <= Depth(prog[..k]) && (prog[k].Concat? ==> prog[k].n > 0)
    requires vm.pos == Ones(prog[..k]) && |vm.stack| == Depth(prog[..k])
    ensures
      var run := Step(prog[k], TailOf(prog), Feed(prog), Legacy, vm);
      run.Running? && run.vm.pos == Ones(prog[..k + 1]) && |run.vm.stack| == Depth(prog[..k + 1])
  {
    FeedAt(prog, k);
    DepthNext(prog, k);
    OnesNext(prog, k);
    OnesUpTo(prog, k);
    if prog[k] == Deep {
      TailAfterDeep(prog, k);
    }
    StepMoves(prog[k], TailOf(prog), Feed(prog), Legacy, vm);
  }

  lemma OnesUpTo(prog: seq<Instr>, k: nat)
    requires k < |prog|
    ensures Ones(prog[..k + 1]) == Ones(prog[..k]) + if TakesOne(prog[k]) then 1 else 0
  {
    assert prog[..k + 1] == prog[..k] + [prog[k]];
    OnesAppend(prog[..k], [prog[k]]);
    assert [prog[k]][1..] == [];
  }

  /** Nothing is refused without cause: a program with one deep wildcard at most whose
      concatenations all take something fails the stack check exactly when some path makes it
      run off its stack; and one that passes matches some path in full. */
  lemma {:induction false} StackCheckIsExact(prog: seq<Instr>)
    requires OneDeep(prog) && forall k :: 0 <= k < |prog| && prog[k].Concat? ==> prog[k].n > 0
    ensures StackSafe(prog) <==> forall cs, mode :: !Exec(prog, TailOf(prog), cs, mode, START).Crash?
    ensures StackSafe(prog) ==>
      var run := Exec(prog, TailOf(prog), Feed(prog), Legacy, START);
      run.Running? && run.vm.pos == |Feed(prog)|
  {
    assert prog[..|prog|] == prog;
    if StackSafe(prog) {
      FeedRuns(prog, |prog|);
      FeedLength(prog);
      forall cs, mode ensures !Exec(prog, TailOf(prog), cs, mode, START).Crash? {
        StackIsPredicted(prog, |prog|, TailOf(prog), cs, mode);
      }
    } else {
      var k := FirstUnsafe(prog);
      FeedRuns(prog, k);
      ExecNext(prog, k, TailOf(prog), Feed(prog), Legacy, START);
      ExecStops(prog, k, TailOf(prog), Feed(prog), Legacy, START);
    }
  }

  lemma {:induction false} FirstUnsafe(prog: seq<Instr>) returns (k: nat)
    requires !StackSafe(prog) && forall k :: 0 <= k < |prog| && prog[k].Concat? ==> prog[k].n > 0
    ensures k < |prog| && StackSafe(prog[..k]) && Depth(prog[..k]) < Need(prog[k])
  {
    var init := prog[..|prog| - 1];
    if StackSafe(init) {
      k := |prog| - 1;
    } else {
      k := FirstUnsafe(init);
      assert init[..k] == prog[..k];
    }
  }

  /** A program stops where its prefix stops. */
  lemma {:induction false} ExecStops(prog: seq<Instr>, k: nat, tail: nat, cs: seq<Str>, mode: Mode, vm: VM)
    requires k < |prog|
    ensures !Exec(prog[..k + 1], tail, cs, mode, vm).Running? ==>
      Exec(prog, tail, cs, mode, vm) == Exec(prog[..k + 1], tail, cs, mode, vm)
  {
    assert prog == prog[..k + 1] + prog[k + 1..];
    ExecAppend(prog[..k + 1], prog[k + 1..], tail, cs, mode, vm);
  }

  // ---- Printing ----

  const STAR: Str := [42]
  const STARS: Str := [42, 42]
  const LBRACE: Str := [123]
  const EQUALS: Str := [61]
  const RBRACE: Str := [125]

  /** `{name=segments}` */
  function Braced(name: Str, segments: Str): Str {
    LBRACE + name + EQUALS + segments + RBRACE
  }

  /** One instruction of the printer; None is a crash. A capture rewrites the top, it does not pop. */
  function Draw(i: Instr, stack: seq<Str>): Option<seq<Str>> {
    match i
    case Nop => Some(stack)
    case Push => Some(stack + [STAR])
    case Lit(text) => Some(stack + [text])
    case Deep => Some(stack + [STARS])
    case Concat(n) =>
      if n < 0 || |stack| < n then None
      else Some(stack[..|stack| - n] + [Join(stack[|stack| - n..], [SLASH])])
    case Capture(name) =>
      if |stack| == 0 then None
      else Some(stack[..|stack| - 1] + [Braced(name, stack[|stack| - 1])])
  }

  function DrawAll(prog: seq<Instr>, stack: seq<Str>): Option<seq<Str>> {
    if prog == [] then Some(stack)
    else
      match Draw(prog[0], stack)
      case Some(next) => DrawAll(prog[1..], next)
      case None => None
  }

  lemma {:induction false} DrawAppend(a: seq<Instr>, b: seq<Instr>, stack: seq<Str>)
    ensures DrawAll(a + b, stack) ==
      match DrawAll(a, stack) case Some(next) => DrawAll(b, next) case None => None
  {
    if a == [] {
      assert a + b == b;
    } else {
      assert (a + b)[1..] == a[1..] + b;
      match Draw(a[0], stack)
      case Some(next) => DrawAppend(a[1..], b, next);
      case None =>
    }
  }

  lemma {:induction false} DrawNext(prog: seq<Instr>, k: nat, stack: seq<Str>)
    requires k < |prog|
    ensures DrawAll(prog[..k + 1], stack) ==
      match DrawAll(prog[..k], stack) case Some(next) => Draw(prog[k], next) case None => None
  {
    assert prog[..k + 1] == prog[..k] + [prog[k]];
    DrawAppend(prog[..k], [prog[k]], stack);
    match DrawAll(prog[..k], stack)
    case Some(next) =>
      assert [prog[k]][1..] == [];
    case None =>
  }

  /** The printer never crashes on a checked program: its stack is the matcher's plus one entry
      per capture so far. */
  lemma {:induction false} PrinterNeverShorter(prog: seq<Instr>, k: nat)
    requires StackSafe(prog) && k <= |prog|
    ensures DrawAll(prog[..k], []).Some?
    ensures |DrawAll(prog[..k], []).value| == Depth(prog[..k]) + Captures(prog[..k])
  {
    if k > 0 {
      PrinterNeverShorter(prog, k - 1);
      SafeAt(prog, k - 1);
      DrawNext(prog, k - 1, []);
      DepthNext(prog, k - 1);
      assert prog[..k][..k - 1] == prog[..k - 1];
    }
  }

  // ---- Dropping no-ops ----

  function DropNops(prog: seq<Instr>): seq<Instr> {
    if prog == [] then []
    else if prog[0] == Nop then DropNops(prog[1..])
    else [prog[0]] + DropNops(prog[1..])
  }

  lemma {:induction false} DropNopsAppend(a: seq<Instr>, b: seq<Instr>)
    ensures DropNops(a + b) == DropNops(a) + DropNops(b)
  {
    if a == [] {
      assert a + b == b;
    } else {
      assert (a + b)[1..] == a[1..] + b;
      DropNopsAppend(a[1..], b);
    }
  }

  /** Leaving out no-ops changes neither what a program matches nor what it prints. */
  lemma {:induction false} DropNopsPreserves(prog: seq<Instr>, tail: nat, cs: seq<Str>, mode: Mode, vm: VM, stack: seq<Str>)
    ensures Exec(DropNops(prog), tail, cs, mode, vm) == Exec(prog, tail, cs, mode, vm)
    ensures DrawAll(DropNops(prog), stack) == DrawAll(prog, stack)
  {
    if prog != [] {
      var rest := DropNops(prog[1..]);
      assert ([prog[0]] + rest)[1..] == rest;
      match Step(prog[0], tail, cs, mode, vm) {
        case Running(next) => DropNopsPreserves(prog[1..], tail, cs, mode, next, stack);
        case _ =>
      }
      match Draw(prog[0], stack) {
        case Some(next) => DropNopsPreserves(prog[1..], tail, cs, mode, vm, next);
        case None =>
      }
    }
  }
}
