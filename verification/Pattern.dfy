/** Compiled path patterns: the static checker that builds them, the matcher and the printer
    that trust it. */
module Pattern {
  import opened Text
  import opened Escape
  import opened Program

  const OP_NOP := 0
  const OP_PUSH := 1
  const OP_LIT_PUSH := 2
  const OP_PUSH_M := 3
  const OP_CONCAT_N := 4
  const OP_CAPTURE := 5

  const COLON: byte := 58

  datatype Op = Op(code: int, operand: int)

  datatype Pattern = Pattern(
    ops: seq<Op>, pool: seq<Str>, vars: seq<Str>, stacksize: int, tailLen: int, verb: Str)

  datatype Build = Built(pattern: Pattern) | InvalidPattern

  // ---- Reading operation codes ----

  /** The instruction a raw code/operand pair stands for; None when the checker refuses it. */
  function Disassemble1(code: int, operand: int, pool: seq<Str>): Option<Instr> {
    if code == OP_NOP then Some(Nop)
    else if code == OP_PUSH then Some(Push)
    else if code == OP_PUSH_M then Some(Deep)
    else if code == OP_LIT_PUSH && 0 <= operand < |pool| then Some(Lit(pool[operand]))
    else if code == OP_CONCAT_N && operand > 0 then Some(Concat(operand))
    else if code == OP_CAPTURE && 0 <= operand < |pool| then Some(Capture(pool[operand]))
    else None
  }

  /** Which pairs of numbers stand for which instruction; a string may be anywhere in the pool. */
  lemma {:induction false} PairMeans(code: int, operand: int, pool: seq<Str>, i: Instr)
    ensures Disassemble1(code, operand, pool) == Some(i) <==>
      match i
      case Nop => code == 0
      case Push => code == 1
      case Lit(text) => code == 2 && 0 <= operand < |pool| && pool[operand] == text
      case Deep => code == 3
      case Concat(n) => code == 4 && operand == n && n > 0
      case Capture(name) => code == 5 && 0 <= operand < |pool| && pool[operand] == name
  {
  }

  /** The first n pairs of a raw operation list. */
  function Disassemble(ops: seq<int>, pool: seq<Str>, n: nat): Option<seq<Instr>>
    requires 2 * n <= |ops|
  {
    if n == 0 then Some([])
    else
      match (Disassemble(ops, pool, n - 1), Disassemble1(ops[2 * n - 2], ops[2 * n - 1], pool))
      case (Some(before), Some(i)) => Some(before + [i])
      case _ => None
  }

  /** What the checker accepts, said without running it: every pair is readable, no instruction
      finds the stack too low, and the deep wildcard occurs at most once. */
  predicate Acceptable(version: int, ops: seq<int>, pool: seq<Str>) {
    && version == 1
    && |ops| % 2 == 0
    && var prog := Disassemble(ops, pool, |ops| / 2);
       prog.Some? && StackSafe(prog.value) && OneDeep(prog.value)
  }

  // ---- Patterns as programs ----

  /** The instruction a typed operation stands for, among operations that number these
      variables: a capture's operand must be its position among the captures, which is where its
      variable is found. */
  function InstrOf(op: Op, pool: seq<Str>, vars: seq<Str>): Option<Instr> {
    if op.code != OP_CAPTURE then Disassemble1(op.code, op.operand, pool)
    else if |vars| > 0 && op.operand == |vars| - 1 then Some(Capture(vars[|vars| - 1]))
    else None
  }

  /** The variables numbered before this operation. */
  function VarsBefore(op: Op, vars: seq<Str>): seq<Str> {
    if op.code == OP_CAPTURE && |vars| > 0 then vars[..|vars| - 1] else vars
  }

  /** The program typed operations stand for. */
  function ReadBack(ops: seq<Op>, pool: seq<Str>, vars: seq<Str>): Option<seq<Instr>> {
    if ops == [] then if vars == [] then Some([]) else None
    else
      var op := ops[|ops| - 1];
      match (ReadBack(ops[..|ops| - 1], pool, VarsBefore(op, vars)), InstrOf(op, pool, vars))
      case (Some(prog), Some(i)) => Some(prog + [i])
      case _ => None
  }

  function Listing(p: Pattern): seq<Instr>
    requires ReadBack(p.ops, p.pool, p.vars).Some?
  {
    ReadBack(p.ops, p.pool, p.vars).value
  }

  /** What building a pattern establishes and every use of it relies on. */
  predicate Valid(p: Pattern) {
    && ReadBack(p.ops, p.pool, p.vars).Some?
    && StackSafe(Listing(p))
    && OneDeep(Listing(p))
    && p.stacksize == MaxDepth(Listing(p))
    && p.tailLen == TailOf(Listing(p))
  }

  // ---- Building ----

  lemma {:induction false} DisassemblePrefix(ops: seq<int>, pool: seq<Str>, k: nat, n: nat)
    requires k <= n && 2 * n <= |ops|
    requires Disassemble(ops, pool, n).Some?
    ensures Disassemble(ops, pool, k).Some?
    ensures |Disassemble(ops, pool, n).value| == n
    ensures Disassemble(ops, pool, n).value[..k] == Disassemble(ops, pool, k).value
  {
    if n == 0 {
    } else if k == n {
      DisassemblePrefix(ops, pool, n - 1, n - 1);
    } else {
      DisassemblePrefix(ops, pool, k, n - 1);
    }
  }

  /** A readable list, read at any one pair. */
  lemma DisassembledAt(ops: seq<int>, pool: seq<Str>, k: nat, n: nat)
    requires k < n && 2 * n <= |ops| && Disassemble(ops, pool, n).Some?
    ensures Disassemble(ops, pool, k).Some? && |Disassemble(ops, pool, n).value| == n
    ensures Disassemble(ops, pool, n).value[..k] == Disassemble(ops, pool, k).value
    ensures Disassemble1(ops[2 * k], ops[2 * k + 1], pool) == Some(Disassemble(ops, pool, n).value[k])
  {
    DisassemblePrefix(ops, pool, k, n);
    DisassemblePrefix(ops, pool, k + 1, n);
    assert Disassemble(ops, pool, n).value[k] == Disassemble(ops, pool, n).value[..k + 1][k];
  }

  /** The checker goes on past an instruction exactly when the extended program is safe. */
  predicate GoesOn(i: Option<Instr>, prog: seq<Instr>) {
    i.Some? && Need(i.value) <= Depth(prog) && !(i == Some(Deep) && HasDeep(prog))
  }

  /** What an acceptable list grants at any one pair. */
  lemma GrantedAt(version: int, ops: seq<int>, pool: seq<Str>, k: nat)
    requires 2 * k + 1 < |ops| && Acceptable(version, ops, pool)
    ensures Disassemble(ops, pool, k).Some?
    ensures GoesOn(Disassemble1(ops[2 * k], ops[2 * k + 1], pool), Disassemble(ops, pool, k).value)
  {
    DisassembledAt(ops, pool, k, |ops| / 2);
    SafeAt(Disassemble(ops, pool, |ops| / 2).value, k);
  }

  /** A pair the checker stops at, for whatever reason, rules the whole list out. */
  lemma RejectAt(version: int, ops: seq<int>, pool: seq<Str>, k: nat)
    requires 2 * k + 1 < |ops|
    requires
      var before, i := Disassemble(ops, pool, k), Disassemble1(ops[2 * k], ops[2 * k + 1], pool);
      before.None? || !GoesOn(i, before.value)
    ensures !Acceptable(version, ops, pool)
  {
    if Acceptable(version, ops, pool) {
      GrantedAt(version, ops, pool, k);
    }
  }

  lemma ReadBackNext(ops: seq<Op>, pool: seq<Str>, vars: seq<Str>, op: Op, i: Instr)
    requires ReadBack(ops, pool, vars).Some?
    requires
      if i.Capture? then op == Op(OP_CAPTURE, |vars|)
      else op.code != OP_CAPTURE && Disassemble1(op.code, op.operand, pool) == Some(i)
    ensures ReadBack(ops + [op], pool, if i.Capture? then vars + [i.name] else vars)
      == Some(ReadBack(ops, pool, vars).value + [i])
  {
    assert (ops + [op])[..|ops|] == ops;
    if i.Capture? {
      assert (vars + [i.name])[..|vars|] == vars;
    }
  }

  /** Leaving out the no-ops changes nothing the checker computes. */
  lemma {:induction false} DropNopsProfile(prog: seq<Instr>)
    ensures Depth(DropNops(prog)) == Depth(prog)
    ensures MaxDepth(DropNops(prog)) == MaxDepth(prog)
    ensures HasDeep(DropNops(prog)) == HasDeep(prog)
    ensures TailOf(DropNops(prog)) == TailOf(prog)
    ensures StackSafe(prog) ==> StackSafe(DropNops(prog))
    ensures OneDeep(prog) ==> OneDeep(DropNops(prog))
  {
    if prog != [] {
      var init, last := prog[..|prog| - 1], prog[|prog| - 1];
      assert prog == init + [last];
      DropNopsProfile(init);
      Snoc(init, last);
      if last != Nop {
        Snoc(DropNops(init), last);
      } else {
        DepthIsCovered(init);
      }
    }
  }

  lemma DepthIsCovered(prog: seq<Instr>)
    ensures Depth(prog) <= MaxDepth(prog)
  {
    MaxDepthBounds(prog, |prog|);
    assert prog[..|prog|] == prog;
  }

  /** What one more instruction does to everything the checker tracks. */
  lemma Snoc(prog: seq<Instr>, i: Instr)
    ensures Depth(prog + [i]) == Depth(prog) + Effect(i)
    ensures MaxDepth(prog + [i]) ==
      if MaxDepth(prog) < Depth(prog) + Effect(i) then Depth(prog) + Effect(i) else MaxDepth(prog)
    ensures TailOf(prog + [i]) == TailOf(prog) + if TakesOne(i) && HasDeep(prog) then 1 else 0
    ensures HasDeep(prog + [i]) <==> HasDeep(prog) || i == Deep
    ensures StackSafe(prog + [i]) <==> StackSafe(prog) && Need(i) <= Depth(prog) && (i.Concat? ==> i.n > 0)
    ensures OneDeep(prog + [i]) <==> OneDeep(prog) && !(i == Deep && HasDeep(prog))
    ensures DropNops(prog + [i]) == if i == Nop then DropNops(prog) else DropNops(prog) + [i]
  {
    assert (prog + [i])[..|prog|] == prog;
    DropNopsAppend(prog, [i]);
    assert [i][1..] == [];
  }

  // ---- The checker's loop ----

  /** The local variables of the checking loop. */
  datatype Checker = Checker(
    ops: seq<Op>, stack: int, maxstack: int, tailLen: int, pushMSeen: bool, vars: seq<Str>)

  /** The checker has accepted this program so far. */
  ghost predicate Tracks(c: Checker, pool: seq<Str>, prog: seq<Instr>) {
    && StackSafe(prog) && OneDeep(prog)
    && c.stack == Depth(prog) && c.maxstack == MaxDepth(prog)
    && c.tailLen == TailOf(prog) && c.pushMSeen == HasDeep(prog)
    && ReadBack(c.ops, pool, c.vars) == Some(DropNops(prog))
  }

  /** One round of the checking loop. */
  method CheckOp(c: Checker, raw: Op, pool: seq<Str>, ghost prog: seq<Instr>) returns (r: Option<Checker>)
    requires Tracks(c, pool, prog)
    ensures r.Some? <==> GoesOn(Disassemble1(raw.code, raw.operand, pool), prog)
    ensures r.Some? ==> Tracks(r.value, pool, prog + [Disassemble1(raw.code, raw.operand, pool).value])
  {
    var op := raw;
    var stack, tailLen, pushMSeen, vars := c.stack, c.tailLen, c.pushMSeen, c.vars;
    ghost var i := Disassemble1(op.code, op.operand, pool);
    if i.Some? {
      Snoc(prog, i.value);
    }
    if op.code == OP_NOP {
      DepthIsCovered(prog);
      return Some(c);
    } else if op.code == OP_PUSH {
      if pushMSeen {
        tailLen := tailLen + 1;
      }
      stack := stack + 1;
    } else if op.code == OP_PUSH_M {
      if pushMSeen {
        return None;
      }
      pushMSeen := true;
      stack := stack + 1;
    } else if op.code == OP_LIT_PUSH {
      if op.operand < 0 || |pool| <= op.operand {
        return None;
      }
      if pushMSeen {
        tailLen := tailLen + 1;
      }
      stack := stack + 1;
    } else if op.code == OP_CONCAT_N {
      if op.operand <= 0 {
        return None;
      }
      stack := stack - op.operand;
      if stack < 0 {
        return None;
      }
      stack := stack + 1;
    } else if op.code == OP_CAPTURE {
      if op.operand < 0 || |pool| <= op.operand {
        return None;
      }
      var v := pool[op.operand];
      op := op.(operand := |vars|);
      vars := vars + [v];
      stack := stack - 1;
      if stack < 0 {
        return None;
      }
    } else {
      return None;
    }
    ReadBackNext(c.ops, pool, c.vars, op, i.value);
    var maxstack := if c.maxstack < stack then stack else c.maxstack;
    r := Some(Checker(c.ops + [op], stack, maxstack, tailLen, pushMSeen, vars));
  }

  /** `NewPattern`: one pass over the code pairs that accepts exactly the acceptable ones and
      returns a pattern that reads as the same program without its no-ops. */
  method NewPattern(version: int, ops: seq<int>, pool: seq<Str>, verb: Str) returns (r: Build)
    ensures r.Built? <==> Acceptable(version, ops, pool)
    ensures r.Built? ==> version == 1 && |ops| % 2 == 0
    ensures r.Built? ==>
      && Valid(r.pattern)
      && r.pattern.verb == verb
      && Listing(r.pattern) == DropNops(Disassemble(ops, pool, |ops| / 2).value)
  {
    if version != 1 {
      return InvalidPattern;
    }
    var l := |ops|;
    if l % 2 != 0 {
      return InvalidPattern;
    }
    var c := Checker([], 0, 0, 0, false, []);
    ghost var prog: seq<Instr> := [];
    var i := 0;
    while i < l
      invariant 0 <= i <= l && i % 2 == 0
      invariant Disassemble(ops, pool, i / 2) == Some(prog)
      invariant Tracks(c, pool, prog)
    {
      var next := CheckOp(c, Op(ops[i], ops[i + 1]), pool, prog);
      if next.None? {
        RejectAt(version, ops, pool, i / 2);
        return InvalidPattern;
      }
      prog := prog + [Disassemble1(ops[i], ops[i + 1], pool).value];
      c := next.value;
      i := i + 2;
    }
    DropNopsProfile(prog);
    r := Built(Pattern(c.ops, pool, c.vars, c.maxstack, c.tailLen, verb));
  }

  // ---- Matching ----

  datatype Match = Bound(bindings: map<Str, Str>) | NotMatch | MalformedPath(escape: Str) | Crashed

  /** A pattern without a verb gets the request's verb back on the last component; a pattern
      with a different verb does not match. */
  function Attach(cs: seq<Str>, patVerb: Str, verb: Str): Option<seq<Str>> {
    if patVerb == verb then Some(cs)
    else if patVerb != [] then None
    else if |cs| == 0 then Some([[COLON] + verb])
    else Some(cs[..|cs| - 1] + [cs[|cs| - 1] + [COLON] + verb])
  }

  /** What is matched is the request as it was written: the components, and the verb after a colon
      unless the pattern asks for that verb itself. */
  lemma {:induction false} AttachedIsWritten(cs: seq<Str>, patVerb: Str, verb: Str)
    ensures Attach(cs, patVerb, verb).Some? <==> patVerb == verb || patVerb == []
    ensures Attach(cs, patVerb, verb).Some? ==>
      Join(Attach(cs, patVerb, verb).value, [SLASH]) ==
        Join(cs, [SLASH]) + if patVerb == verb then [] else [COLON] + verb
  {
    if patVerb == [] && patVerb != verb && |cs| > 0 {
      LastOfJoin(cs[..|cs| - 1], cs[|cs| - 1], [COLON] + verb);
      assert cs == cs[..|cs| - 1] + [cs[|cs| - 1]];
      Assoc(cs[|cs| - 1], [COLON], verb);
    }
  }

  lemma {:induction false} LastOfJoin(cs: seq<Str>, last: Str, more: Str)
    ensures Join(cs + [last + more], [SLASH]) == Join(cs + [last], [SLASH]) + more
  {
    if cs != [] {
      LastOfJoin(cs[1..], last, more);
      assert (cs + [last + more])[1..] == cs[1..] + [last + more];
      assert (cs + [last])[1..] == cs[1..] + [last];
      Assoc(cs[0] + [SLASH], Join(cs[1..] + [last], [SLASH]), more);
    }
  }

  /** Later captures of the same name win. */
  function Bindings(captured: seq<(Str, Str)>): map<Str, Str> {
    if captured == [] then map[]
    else
      var last := captured[|captured| - 1];
      Bindings(captured[..|captured| - 1])[last.0 := last.1]
  }

  /** Matching as a function: running the pattern's program over the whole path. */
  function MatchSpec(p: Pattern, cs: seq<Str>, verb: Str, mode: Mode): Match
    requires Valid(p)
  {
    match Attach(cs, p.verb, verb)
    case None => NotMatch
    case Some(path) =>
      Outcome(Exec(Listing(p), p.tailLen, path, mode, START), |path|)
  }

  /** The last typed operation and what comes before it. */
  lemma ReadBackLast(ops: seq<Op>, pool: seq<Str>, vars: seq<Str>)
    requires ops != [] && ReadBack(ops, pool, vars).Some?
    ensures
      var op, prog := ops[|ops| - 1], ReadBack(ops, pool, vars).value;
      && |prog| > 0
      && ReadBack(ops[..|ops| - 1], pool, VarsBefore(op, vars)) == Some(prog[..|prog| - 1])
      && InstrOf(op, pool, vars) == Some(prog[|prog| - 1])
  {
  }

  /** The operation carries instruction k of the program, a capture as the position of its name. */
  predicate CarriesAt(op: Op, pool: seq<Str>, vars: seq<Str>, prog: seq<Instr>, k: nat)
    requires k < |prog|
  {
    if op.code == OP_CAPTURE
    then 0 <= op.operand < |vars| && op.operand == Captures(prog[..k]) && prog[k] == Capture(vars[op.operand])
    else Disassemble1(op.code, op.operand, pool) == Some(prog[k]) && !prog[k].Capture?
  }

  lemma CarriesInLonger(op: Op, pool: seq<Str>, vars: seq<Str>, prog: seq<Instr>, vars': seq<Str>, prog': seq<Instr>, k: nat)
    requires k < |prog| <= |prog'| && prog'[..|prog|] == prog
    requires |vars| <= |vars'| && vars'[..|vars|] == vars
    requires CarriesAt(op, pool, vars, prog, k)
    ensures CarriesAt(op, pool, vars', prog', k)
  {
    assert prog'[k] == prog'[..|prog|][k];
    assert prog'[..k] == prog[..k];
    if op.code == OP_CAPTURE {
      assert vars'[op.operand] == vars'[..|vars|][op.operand];
    }
  }

  /** The last typed operation carries the last instruction. */
  lemma {:induction false} LastCarries(ops: seq<Op>, pool: seq<Str>, vars: seq<Str>)
    requires ops != [] && ReadBack(ops, pool, vars).Some?
    ensures |ReadBack(ops, pool, vars).value| == |ops|
    ensures CarriesAt(ops[|ops| - 1], pool, vars, ReadBack(ops, pool, vars).value, |ops| - 1)
  {
    ReadBackLast(ops, pool, vars);
    ReadBackShape(ops[..|ops| - 1], pool, VarsBefore(ops[|ops| - 1], vars));
  }

  /** What a typed operation carries about its instruction. */
  lemma {:induction false} ReadBackAt(ops: seq<Op>, pool: seq<Str>, vars: seq<Str>, k: nat)
    requires ReadBack(ops, pool, vars).Some? && k < |ops|
    ensures |ReadBack(ops, pool, vars).value| == |ops|
    ensures CarriesAt(ops[k], pool, vars, ReadBack(ops, pool, vars).value, k)
  {
    LastCarries(ops, pool, vars);
    if k < |ops| - 1 {
      var init, vars' := ops[..|ops| - 1], VarsBefore(ops[|ops| - 1], vars);
      var prog := ReadBack(ops, pool, vars).value;
      ReadBackLast(ops, pool, vars);
      ReadBackAt(init, pool, vars', k);
      CarriesInLonger(ops[k], pool, vars', prog[..|prog| - 1], vars, prog, k);
    }
  }

  lemma {:induction false} ReadBackShape(ops: seq<Op>, pool: seq<Str>, vars: seq<Str>)
    requires ReadBack(ops, pool, vars).Some?
    ensures |ReadBack(ops, pool, vars).value| == |ops|
    ensures CaptureNames(ReadBack(ops, pool, vars).value) == vars
  {
    if ops != [] {
      ReadBackLast(ops, pool, vars);
      ReadBackShape(ops[..|ops| - 1], pool, VarsBefore(ops[|ops| - 1], vars));
    }
  }

  /** The slice of captured values holds, in its first places, what the machine captured. */
  ghost predicate Holds(captured: seq<Str>, vm: VM, p: Pattern) {
    && |captured| == |p.vars|
    && |vm.captured| <= |p.vars|
    && forall j :: 0 <= j < |vm.captured| ==> vm.captured[j] == (p.vars[j], captured[j])
  }

  /** The operation carries the instruction, and its operand is in range. */
  ghost predicate Carries(op: Op, i: Instr, p: Pattern, vm: VM) {
    if op.code == OP_CAPTURE
    then op.operand == |vm.captured| < |p.vars| && i == Capture(p.vars[op.operand])
    else Disassemble1(op.code, op.operand, p.pool) == Some(i) && !i.Capture?
  }

  /** Everything the static check promises about operation k when it is reached. */
  lemma {:induction false} OpReached(p: Pattern, k: nat, cs: seq<Str>, mode: Mode, vm: VM)
    requires Valid(p) && k < |p.ops| && |Listing(p)| == |p.ops|
    requires Exec(Listing(p)[..k], p.tailLen, cs, mode, START) == Running(vm)
    ensures Need(Listing(p)[k]) <= |vm.stack|
    ensures forall next :: Step(Listing(p)[k], p.tailLen, cs, mode, vm) == Running(next) ==> |next.stack| <= p.stacksize
    ensures Carries(p.ops[k], Listing(p)[k], p, vm)
  {
    var prog := Listing(p);
    ReadBackAt(p.ops, p.pool, p.vars, k);
    SafeAt(prog, k);
    StackIsPredicted(prog, k, p.tailLen, cs, mode);
    StackIsPredicted(prog, k + 1, p.tailLen, cs, mode);
    ExecNext(prog, k, p.tailLen, cs, mode, START);
    CapturesRan(prog, k, p.tailLen, cs, mode, vm);
    NamesOfAt(vm.captured);
  }

  /** One operation, against the instruction it carries. */
  method RunOp(p: Pattern, op: Op, cs: seq<Str>, mode: Mode, pos: nat, stack: seq<Str>, captured: seq<Str>,
               ghost i: Instr, ghost vm: VM)
    returns (stop: Option<Match>, pos': nat, stack': seq<Str>, captured': seq<Str>)
    requires Carries(op, i, p, vm) && Need(i) <= |vm.stack| && p.tailLen >= 0
    requires pos == vm.pos && stack == vm.stack && Holds(captured, vm, p)
    ensures match Step(i, p.tailLen, cs, mode, vm)
            case Running(next) => stop == None && pos' == next.pos && stack' == next.stack && Holds(captured', next, p)
            case NoMatch => stop == Some(NotMatch)
            case BadEscape(e) => stop == Some(MalformedPath(e))
            case Crash => false
  {
    stop, pos', stack', captured' := None, pos, stack, captured;
    if op.code == OP_NOP {
      return;
    } else if op.code == OP_PUSH || op.code == OP_LIT_PUSH {
      if pos >= |cs| {
        stop := Some(NotMatch);
        return;
      }
      var c := cs[pos];
      if op.code == OP_LIT_PUSH {
        if c != p.pool[op.operand] {
          stop := Some(NotMatch);
          return;
        }
      } else {
        var d := Unescape(c, mode, false);
        match d {
          case Text(text) => c := text;
          case Malformed(e) =>
            stop := Some(MalformedPath(e));
            return;
        }
      }
      stack' := stack + [c];
      pos' := pos + 1;
    } else if op.code == OP_PUSH_M {
      var end := |cs|;
      if end < pos + p.tailLen {
        stop := Some(NotMatch);
        return;
      }
      end := end - p.tailLen;
      var d := Unescape(Join(cs[pos..end], [SLASH]), mode, true);
      match d {
        case Text(text) =>
          stack' := stack + [text];
          pos' := end;
        case Malformed(e) =>
          stop := Some(MalformedPath(e));
          return;
      }
    } else if op.code == OP_CONCAT_N {
      var l := |stack| - op.operand;
      stack' := stack[..l] + [Join(stack[l..], [SLASH])];
    } else if op.code == OP_CAPTURE {
      var n := |stack| - 1;
      captured' := captured[op.operand := stack[n]];
      stack' := stack[..n];
    }
  }

  /** One round of the matching loop, against the instruction it stands for. */
  method MatchOp(p: Pattern, k: nat, cs: seq<Str>, mode: Mode, pos: nat, stack: seq<Str>, captured: seq<Str>, ghost vm: VM)
    returns (stop: Option<Match>, pos': nat, stack': seq<Str>, captured': seq<Str>)
    requires Valid(p) && k < |p.ops| && |Listing(p)| == |p.ops|
    requires Exec(Listing(p)[..k], p.tailLen, cs, mode, START) == Running(vm)
    requires pos == vm.pos && stack == vm.stack && Holds(captured, vm, p)
    ensures match Step(Listing(p)[k], p.tailLen, cs, mode, vm)
            case Running(next) =>
              stop == None && pos' == next.pos && stack' == next.stack && Holds(captured', next, p) &&
              |stack'| <= p.stacksize
            case NoMatch => stop == Some(NotMatch)
            case BadEscape(e) => stop == Some(MalformedPath(e))
            case Crash => false
  {
    OpReached(p, k, cs, mode, vm);
    stop, pos', stack', captured' := RunOp(p, p.ops[k], cs, mode, pos, stack, captured, Listing(p)[k], vm);
  }

  /** What a finished run means to the caller. */
  function Outcome(run: Run, l: nat): Match {
    match run
    case Running(vm) => if vm.pos < l then NotMatch else Bound(Bindings(vm.captured))
    case NoMatch => NotMatch
    case BadEscape(e) => MalformedPath(e)
    case Crash => Crashed
  }

  /** A round that goes on extends the run of the prefix; one that stops is where the program stops. */
  lemma {:induction false} RoundDecides(prog: seq<Instr>, k: nat, tail: nat, cs: seq<Str>, mode: Mode, vm: VM)
    requires k < |prog| && Exec(prog[..k], tail, cs, mode, START) == Running(vm)
    ensures Exec(prog[..k + 1], tail, cs, mode, START) == Step(prog[k], tail, cs, mode, vm)
    ensures !Step(prog[k], tail, cs, mode, vm).Running? ==>
      Exec(prog, tail, cs, mode, START) == Step(prog[k], tail, cs, mode, vm)
  {
    ExecNext(prog, k, tail, cs, mode, START);
    ExecStops(prog, k, tail, cs, mode, START);
  }

  /** The loop that binds each variable to what was captured for it. */
  method Collect(p: Pattern, captured: seq<Str>, ghost vm: VM) returns (bindings: map<Str, Str>)
    requires Holds(captured, vm, p) && |vm.captured| == |captured|
    ensures bindings == Bindings(vm.captured)
  {
    bindings := map[];
    var k := 0;
    while k < |captured|
      invariant 0 <= k <= |captured|
      invariant bindings == Bindings(vm.captured[..k])
    {
      assert vm.captured[..k + 1][..k] == vm.captured[..k];
      bindings := bindings[p.vars[k] := captured[k]];
      k := k + 1;
    }
    assert vm.captured[..k] == vm.captured;
  }

  /** The matching loop: it stops early with an answer, or ends where the machine ends. */
  method RunOps(p: Pattern, cs: seq<Str>, mode: Mode)
    returns (stop: Option<Match>, pos: nat, captured: seq<Str>, ghost vm: VM)
    requires Valid(p)
    ensures
      var run := Exec(Listing(p), p.tailLen, cs, mode, START);
      match stop
      case Some(r) => !run.Running? && r == Outcome(run, |cs|) && !r.Crashed?
      case None => run == Running(vm) && pos == vm.pos && Holds(captured, vm, p)
  {
    ghost var prog := Listing(p);
    ReadBackShape(p.ops, p.pool, p.vars);
    var stack: seq<Str>;
    pos, stack, captured := 0, [], seq(|p.vars|, _ => []);
    vm := START;
    stop := None;
    var k := 0;
    while k < |p.ops|
      invariant 0 <= k <= |p.ops|
      invariant Exec(prog[..k], p.tailLen, cs, mode, START) == Running(vm)
      invariant pos == vm.pos && stack == vm.stack && Holds(captured, vm, p)
    {
      RoundDecides(prog, k, p.tailLen, cs, mode, vm);
      ghost var was := vm;
      stop, pos, stack, captured := MatchOp(p, k, cs, mode, pos, stack, captured, vm);
      if stop.Some? {
        return;
      }
      vm := Step(prog[k], p.tailLen, cs, mode, was).vm;
      k := k + 1;
    }
    stop := None;
    assert prog[..k] == prog;
  }

  /** The matching loop and the collection of its captures. */
  method MatchOps(p: Pattern, cs: seq<Str>, mode: Mode) returns (r: Match)
    requires Valid(p)
    ensures r == Outcome(Exec(Listing(p), p.tailLen, cs, mode, START), |cs|) && !r.Crashed?
  {
    var stop, pos, captured;
    ghost var vm;
    stop, pos, captured, vm := RunOps(p, cs, mode);
    if stop.Some? {
      return stop.value;
    }
    if pos < |cs| {
      return NotMatch;
    }
    ghost var prog := Listing(p);
    assert prog[..|prog|] == prog;
    CapturesRan(prog, |prog|, p.tailLen, cs, mode, vm);
    NamesOfAt(vm.captured);
    ReadBackShape(p.ops, p.pool, p.vars);
    var bindings := Collect(p, captured, vm);
    return Bound(bindings);
  }

  /** `Pattern.MatchAndEscape`: on a pattern the checker built, no index leaves the stack, the
      pool, the captures or the path, the stack stays within the preallocated size, and the
      answer is the program's. */
  method MatchAndEscape(p: Pattern, components: seq<Str>, verb: Str, mode: Mode) returns (r: Match)
    requires Valid(p)
    ensures r == MatchSpec(p, components, verb, mode)
    ensures !r.Crashed?
  {
    var cs := components;
    if p.verb != verb {
      if p.verb != [] {
        return NotMatch;
      }
      if |cs| == 0 {
        cs := [[COLON] + verb];
      } else {
        cs := cs[..|cs| - 1] + [cs[|cs| - 1] + [COLON] + verb];
      }
    }
    r := MatchOps(p, cs, mode);
  }

  // ---- Printing ----

  function StringSpec(p: Pattern): Option<Str>
    requires Valid(p)
  {
    match DrawAll(Listing(p), [])
    case None => None
    case Some(stack) =>
      var segs := Join(stack, [SLASH]);
      Some(if p.verb != [] then [SLASH] + segs + [COLON] + p.verb else [SLASH] + segs)
  }

  /** One operation drawn. */
  method DrawOp(p: Pattern, op: Op, stack: seq<Str>, ghost prog: seq<Instr>, ghost k: nat) returns (stack': seq<Str>)
    requires k < |prog| && CarriesAt(op, p.pool, p.vars, prog, k) && Need(prog[k]) <= |stack|
    ensures Draw(prog[k], stack) == Some(stack')
  {
    stack' := stack;
    if op.code == OP_NOP {
      return;
    } else if op.code == OP_PUSH {
      stack' := stack + [STAR];
    } else if op.code == OP_LIT_PUSH {
      stack' := stack + [p.pool[op.operand]];
    } else if op.code == OP_PUSH_M {
      stack' := stack + [STARS];
    } else if op.code == OP_CONCAT_N {
      var l := |stack| - op.operand;
      stack' := stack[..l] + [Join(stack[l..], [SLASH])];
    } else if op.code == OP_CAPTURE {
      var n := |stack| - 1;
      stack' := stack[..n] + [Braced(p.vars[op.operand], stack[n])];
    }
  }

  /** One round of the printing loop: the static check promises that the stack is high enough and
      that the operand is in range. */
  method StringOp(p: Pattern, k: nat, stack: seq<Str>) returns (stack': seq<Str>)
    requires Valid(p) && k < |p.ops| && |Listing(p)| == |p.ops|
    requires DrawAll(Listing(p)[..k], []) == Some(stack)
    ensures Draw(Listing(p)[k], stack) == Some(stack')
  {
    ReadBackAt(p.ops, p.pool, p.vars, k);
    SafeAt(Listing(p), k);
    PrinterNeverShorter(Listing(p), k);
    stack' := DrawOp(p, p.ops[k], stack, Listing(p), k);
  }

  /** `Pattern.String`: the same program drawn instead of run; its stack cannot run out either. */
  method String(p: Pattern) returns (r: Str)
    requires Valid(p)
    ensures StringSpec(p) == Some(r)
  {
    ghost var prog := Listing(p);
    ReadBackShape(p.ops, p.pool, p.vars);
    var stack: seq<Str> := [];
    var k := 0;
    while k < |p.ops|
      invariant 0 <= k <= |p.ops|
      invariant DrawAll(prog[..k], []) == Some(stack)
    {
      stack := StringOp(p, k, stack);
      DrawNext(prog, k, []);
      k := k + 1;
    }
    assert prog[..k] == prog;
    var segs := Join(stack, [SLASH]);
    if p.verb != [] {
      return [SLASH] + segs + [COLON] + p.verb;
    }
    return [SLASH] + segs;
  }
}
