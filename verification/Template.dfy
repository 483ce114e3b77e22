/** Path templates (literals, one-component and deep wildcards, `{name=segments}` variables and
    a verb), the operation layout the generated
    pattern tables use for them, and the theorems that the layout means the template. */
module Template {
  import opened Text
  import opened Escape
  import opened Program
  import opened Pattern

  datatype Seg = Literal(text: Str) | Star | DeepStar

  datatype Part = Plain(seg: Seg) | Variable(name: Str, segs: seq<Seg>)

  /** Parts in order; variables do not nest, by construction. */
  datatype Template = Template(parts: seq<Part>, verb: Str)

  // ---- Layout: one push per segment, then ConcatN k and Capture for a variable ----

  function SegCode(s: Seg): Instr {
    match s
    case Literal(text) => Lit(text)
    case Star => Push
    case DeepStar => Deep
  }

  function SegsCode(segs: seq<Seg>): seq<Instr> {
    if segs == [] then [] else [SegCode(segs[0])] + SegsCode(segs[1..])
  }

  function PartSegs(part: Part): seq<Seg> {
    match part case Plain(s) => [s] case Variable(_, segs) => segs
  }

  function PartCode(part: Part): seq<Instr> {
    match part
    case Plain(s) => [SegCode(s)]
    case Variable(name, segs) => SegsCode(segs) + [Concat(|segs|), Capture(name)]
  }

  function Code(parts: seq<Part>): seq<Instr> {
    if parts == [] then [] else PartCode(parts[0]) + Code(parts[1..])
  }

  function AllSegs(parts: seq<Part>): seq<Seg> {
    if parts == [] then [] else PartSegs(parts[0]) + AllSegs(parts[1..])
  }

  /** Every variable binds at least one segment. */
  predicate Proper(parts: seq<Part>) {
    forall k :: 0 <= k < |parts| && parts[k].Variable? ==> parts[k].segs != []
  }

  /** The operation list and pool spell the template, wherever the pool keeps its strings. */
  predicate LaysOut(ops: seq<int>, pool: seq<Str>, t: Template) {
    |ops| % 2 == 0 && Disassemble(ops, pool, |ops| / 2) == Some(Code(t.parts))
  }

  // ---- Meaning: how a path splits over segments ----

  /** What one segment may match. */
  predicate Fits(s: Seg, slice: seq<Str>) {
    match s
    case Literal(text) => slice == [text]
    case Star => |slice| == 1
    case DeepStar => true
  }

  /** The path is the slices end to end, one slice per segment. */
  predicate Splits(segs: seq<Seg>, path: seq<Str>, slices: seq<seq<Str>>) {
    && |slices| == |segs|
    && Flatten(slices) == path
    && forall k :: 0 <= k < |segs| ==> Fits(segs[k], slices[k])
  }

  /** What a component is read as: in legacy mode itself, elsewhere its escapes opened. */
  function Read(c: Str, mode: Mode): Str {
    if mode == Legacy || !WellFormed(c) then c else Decode(c, mode)
  }

  function ReadAll(cs: seq<Str>, mode: Mode): (r: seq<Str>)
    ensures |r| == |cs| && forall k :: 0 <= k < |cs| ==> r[k] == Read(cs[k], mode)
  {
    seq(|cs|, k requires 0 <= k < |cs| => Read(cs[k], mode))
  }

  /** The text a segment gives for the components it matched: a literal itself, the component of a
      `*` with all its escapes opened, those of a `**` with the escapes opened that the mode opens. */
  function SegText(s: Seg, slice: seq<Str>, mode: Mode): Str {
    match s
    case Literal(text) => text
    case Star => Join(ReadAll(slice, if mode == Legacy then Legacy else AllCharacters), [SLASH])
    case DeepStar => Join(ReadAll(slice, mode), [SLASH])
  }

  function Texts(segs: seq<Seg>, slices: seq<seq<Str>>, mode: Mode): (r: seq<Str>)
    requires |slices| == |segs|
    ensures |r| == |segs|
  {
    if segs == [] then [] else [SegText(segs[0], slices[0], mode)] + Texts(segs[1..], slices[1..], mode)
  }

  /** Each variable with the "/"-join of its segments' texts. */
  function Captured(parts: seq<Part>, slices: seq<seq<Str>>, mode: Mode): seq<(Str, Str)>
    requires |slices| == |AllSegs(parts)|
  {
    if parts == [] then []
    else
      var n := |PartSegs(parts[0])|;
      PartCaptured(parts[0], slices[..n], mode) + Captured(parts[1..], slices[n..], mode)
  }

  function PartCaptured(part: Part, slices: seq<seq<Str>>, mode: Mode): seq<(Str, Str)>
    requires |slices| == |PartSegs(part)|
  {
    match part
    case Plain(_) => []
    case Variable(name, segs) => [(name, Join(Texts(segs, slices, mode), [SLASH]))]
  }

  // ---- The same splitting as the machine does it, left to right ----

  predicate Follows(segs: seq<Seg>, slices: seq<seq<Str>>, tail: nat, path: seq<Str>, pos: nat) {
    && |slices| == |segs|
    && pos <= |path|
    && (segs == [] ||
        (FitsAt(segs[0], slices[0], tail, path, pos) && Follows(segs[1..], slices[1..], tail, path, pos + |slices[0]|)))
  }

  /** The segment may match the slice, and the slice is what the path holds there. */
  predicate FitsAt(s: Seg, slice: seq<Str>, tail: nat, path: seq<Str>, pos: nat) {
    var end := pos + |slice|;
    && end <= |path| && path[pos..end] == slice
    && Fits(s, slice)
    && (s.DeepStar? ==> end + tail == |path|)
  }

  lemma FollowsNext(segs: seq<Seg>, slices: seq<seq<Str>>, tail: nat, path: seq<Str>, pos: nat)
    requires segs != [] && |slices| == |segs|
    ensures Follows(segs, slices, tail, path, pos) <==>
      FitsAt(segs[0], slices[0], tail, path, pos) && Follows(segs[1..], slices[1..], tail, path, pos + |slices[0]|)
  {
  }

  function Width(slices: seq<seq<Str>>): nat {
    if slices == [] then 0 else |slices[0]| + Width(slices[1..])
  }

  lemma {:induction false} FollowsAppend(a: seq<Seg>, b: seq<Seg>, sa: seq<seq<Str>>, sb: seq<seq<Str>>, tail: nat,
                                         path: seq<Str>, pos: nat)
    requires |sa| == |a|
    ensures Follows(a + b, sa + sb, tail, path, pos) <==>
      Follows(a, sa, tail, path, pos) && Follows(b, sb, tail, path, pos + Width(sa))
  {
    if a == [] {
      assert a + b == b && sa + sb == sb;
    } else {
      assert (a + b)[1..] == a[1..] + b && (sa + sb)[1..] == sa[1..] + sb;
      FollowsAppend(a[1..], b, sa[1..], sb, tail, path, pos + |sa[0]|);
      FollowsNext(a, sa, tail, path, pos);
      if |sb| == |b| {
        FollowsNext(a + b, sa + sb, tail, path, pos);
      }
    }
  }

  /** The machine runs the segments exactly along such a splitting, pushing each segment's text. */
  lemma {:induction false} RunSegs(segs: seq<Seg>, slices: seq<seq<Str>>, tail: nat, path: seq<Str>, mode: Mode, vm: VM)
    requires Follows(segs, slices, tail, path, vm.pos) && Calm(mode, path)
    ensures Exec(SegsCode(segs), tail, path, mode, vm)
      == Running(VM(vm.pos + Width(slices), vm.stack + Texts(segs, slices, mode), vm.captured))
  {
    if segs != [] {
      var text := SegText(segs[0], slices[0], mode);
      RunSeg(segs[0], slices[0], tail, path, mode, vm);
      RunSegs(segs[1..], slices[1..], tail, path, mode, VM(vm.pos + |slices[0]|, vm.stack + [text], vm.captured));
      assert SegsCode(segs)[1..] == SegsCode(segs[1..]);
      Assoc(vm.stack, [text], Texts(segs[1..], slices[1..], mode));
    } else {
      assert vm.stack + [] == vm.stack;
    }
  }

  lemma RunSeg(s: Seg, slice: seq<Str>, tail: nat, path: seq<Str>, mode: Mode, vm: VM)
    requires FitsAt(s, slice, tail, path, vm.pos) && Calm(mode, path)
    ensures Step(SegCode(s), tail, path, mode, vm)
      == Running(VM(vm.pos + |slice|, vm.stack + [SegText(s, slice, mode)], vm.captured))
  {
    CalmWithin(mode, path, vm.pos, vm.pos + |slice|);
    match s
    case Literal(text) =>
      assert path[vm.pos] == slice[0];
    case Star =>
      assert path[vm.pos] == slice[0];
      StarReads(slice[0], mode);
    case DeepStar =>
      assert path[vm.pos..|path| - tail] == slice;
      DeepReads(slice, mode);
  }

  lemma CalmWithin(mode: Mode, path: seq<Str>, a: nat, b: nat)
    requires a <= b <= |path| && Calm(mode, path)
    ensures Calm(mode, path[a..b])
  {
    assert forall c :: c in path[a..b] ==> c in path;
  }

  lemma StarReads(c: Str, mode: Mode)
    requires Calm(mode, [c])
    ensures UnescapeSpec(c, mode, false) == Text(SegText(Star, [c], mode))
  {
    assert c in [c];
  }

  lemma DeepReads(slice: seq<Str>, mode: Mode)
    requires Calm(mode, slice)
    ensures UnescapeSpec(Join(slice, [SLASH]), mode, true) == Text(SegText(DeepStar, slice, mode))
  {
    if mode == Legacy {
      assert ReadAll(slice, mode) == slice;
    } else {
      DecodeOfJoin(slice, mode);
      assert forall k :: 0 <= k < |slice| ==> slice[k] in slice;
      assert ReadAll(slice, mode) == DecodeAll(slice, mode);
    }
  }

  /** And whenever the machine gets through the segments, it has split the path that way. */
  lemma {:induction false} SegsRan(segs: seq<Seg>, tail: nat, path: seq<Str>, mode: Mode, vm: VM) returns (slices: seq<seq<Str>>)
    requires vm.pos <= |path| && Exec(SegsCode(segs), tail, path, mode, vm).Running?
    ensures Follows(segs, slices, tail, path, vm.pos)
  {
    if segs == [] {
      slices := [];
    } else {
      var code := SegsCode(segs);
      assert code[1..] == SegsCode(segs[1..]);
      var next := Step(code[0], tail, path, mode, vm).vm;
      SegRan(segs[0], tail, path, mode, vm);
      var rest := SegsRan(segs[1..], tail, path, mode, next);
      slices := [path[vm.pos..next.pos]] + rest;
      assert slices[1..] == rest && vm.pos + |slices[0]| == next.pos;
    }
  }

  /** One segment the machine got through fits what it moved over. */
  lemma SegRan(s: Seg, tail: nat, path: seq<Str>, mode: Mode, vm: VM)
    requires vm.pos <= |path| && Step(SegCode(s), tail, path, mode, vm).Running?
    ensures
      var end := Step(SegCode(s), tail, path, mode, vm).vm.pos;
      vm.pos <= end <= |path| && Fits(s, path[vm.pos..end]) && (s.DeepStar? ==> end + tail == |path|)
  {
    StepMoves(SegCode(s), tail, path, mode, vm);
  }

  /** Concatenation and capture leave the stack as it was before the variable. */
  lemma CloseVariable(name: Str, texts: seq<Str>, tail: nat, path: seq<Str>, mode: Mode, vm: VM, stack: seq<Str>)
    requires vm.stack == stack + texts
    ensures Exec([Concat(|texts|), Capture(name)], tail, path, mode, vm)
      == Running(VM(vm.pos, stack, vm.captured + [(name, Join(texts, [SLASH]))]))
  {
    var joined := VM(vm.pos, stack + [Join(texts, [SLASH])], vm.captured);
    assert vm.stack[..|stack|] == stack && vm.stack[|stack|..] == texts;
    assert Step(Concat(|texts|), tail, path, mode, vm) == Running(joined);
    var done := VM(vm.pos, stack, vm.captured + [(name, Join(texts, [SLASH]))]);
    assert joined.stack[..|stack|] == stack;
    assert Step(Capture(name), tail, path, mode, joined) == Running(done);
    var code := [Concat(|texts|), Capture(name)];
    assert code[1..] == [Capture(name)];
    ExecOne(Capture(name), tail, path, mode, joined);
  }

  lemma ExecOne(i: Instr, tail: nat, path: seq<Str>, mode: Mode, vm: VM)
    ensures Exec([i], tail, path, mode, vm) == Step(i, tail, path, mode, vm)
  {
    assert [i][1..] == [];
  }

  /** What a part leaves on the stack. */
  function PartLeftover(part: Part, slices: seq<seq<Str>>, mode: Mode): seq<Str>
    requires |slices| == |PartSegs(part)|
  {
    if part.Plain? then Texts(PartSegs(part), slices, mode) else []
  }

  /** The machine after a part. */
  function AfterPart(part: Part, slices: seq<seq<Str>>, mode: Mode, vm: VM): VM
    requires |slices| == |PartSegs(part)|
  {
    VM(vm.pos + Width(slices), vm.stack + PartLeftover(part, slices, mode), vm.captured + PartCaptured(part, slices, mode))
  }

  function AfterParts(parts: seq<Part>, slices: seq<seq<Str>>, mode: Mode, vm: VM): VM
    requires |slices| == |AllSegs(parts)|
  {
    if parts == [] then vm
    else
      var n := |PartSegs(parts[0])|;
      AfterParts(parts[1..], slices[n..], mode, AfterPart(parts[0], slices[..n], mode, vm))
  }

  lemma AfterFirst(parts: seq<Part>, slices: seq<seq<Str>>, mode: Mode, vm: VM)
    requires parts != [] && |slices| == |AllSegs(parts)|
    ensures
      var n := |PartSegs(parts[0])|;
      && n <= |slices| && |slices[n..]| == |AllSegs(parts[1..])|
      && AfterParts(parts, slices, mode, vm) == AfterParts(parts[1..], slices[n..], mode, AfterPart(parts[0], slices[..n], mode, vm))
  {
  }

  lemma {:induction false} AfterPartsMeans(parts: seq<Part>, slices: seq<seq<Str>>, mode: Mode, vm: VM)
    requires |slices| == |AllSegs(parts)|
    ensures AfterParts(parts, slices, mode, vm).pos == vm.pos + Width(slices)
    ensures AfterParts(parts, slices, mode, vm).captured == vm.captured + Captured(parts, slices, mode)
  {
    if parts == [] {
      assert vm.captured + [] == vm.captured;
    } else {
      var n := |PartSegs(parts[0])|;
      AfterPartsMeans(parts[1..], slices[n..], mode, AfterPart(parts[0], slices[..n], mode, vm));
      WidthAppend(slices[..n], slices[n..]);
      assert slices == slices[..n] + slices[n..];
      Assoc(vm.captured, PartCaptured(parts[0], slices[..n], mode), Captured(parts[1..], slices[n..], mode));
    }
  }

  lemma {:induction false} WidthAppend(sa: seq<seq<Str>>, sb: seq<seq<Str>>)
    ensures Width(sa + sb) == Width(sa) + Width(sb)
  {
    if sa == [] {
      assert sa + sb == sb;
    } else {
      assert (sa + sb)[1..] == sa[1..] + sb;
      WidthAppend(sa[1..], sb);
    }
  }

  lemma FollowsHead(parts: seq<Part>, slices: seq<seq<Str>>, tail: nat, path: seq<Str>, pos: nat)
    requires parts != [] && Follows(AllSegs(parts), slices, tail, path, pos)
    ensures
      var n := |PartSegs(parts[0])|;
      && n <= |slices|
      && Follows(PartSegs(parts[0]), slices[..n], tail, path, pos)
      && Follows(AllSegs(parts[1..]), slices[n..], tail, path, pos + Width(slices[..n]))
  {
    var n := |PartSegs(parts[0])|;
    assert slices == slices[..n] + slices[n..];
    FollowsAppend(PartSegs(parts[0]), AllSegs(parts[1..]), slices[..n], slices[n..], tail, path, pos);
  }

  /** Running the first part, and then the others from where it leaves the machine. */
  lemma {:induction false} RunFirst(parts: seq<Part>, head: seq<seq<Str>>, tail: nat, path: seq<Str>, mode: Mode, vm: VM)
    requires parts != [] && Follows(PartSegs(parts[0]), head, tail, path, vm.pos) && Calm(mode, path)
    ensures Exec(Code(parts), tail, path, mode, vm)
      == Exec(Code(parts[1..]), tail, path, mode, AfterPart(parts[0], head, mode, vm))
  {
    RunPart(parts[0], head, tail, path, mode, vm);
    ExecThen(PartCode(parts[0]), Code(parts[1..]), tail, path, mode, vm, AfterPart(parts[0], head, mode, vm));
  }

  lemma {:induction false} RunParts(parts: seq<Part>, slices: seq<seq<Str>>, tail: nat, path: seq<Str>, mode: Mode, vm: VM)
    requires Follows(AllSegs(parts), slices, tail, path, vm.pos) && Calm(mode, path)
    ensures Exec(Code(parts), tail, path, mode, vm) == Running(AfterParts(parts, slices, mode, vm))
  {
    if parts != [] {
      var n := |PartSegs(parts[0])|;
      FollowsHead(parts, slices, tail, path, vm.pos);
      RunParts(parts[1..], slices[n..], tail, path, mode, AfterPart(parts[0], slices[..n], mode, vm));
      RunOnward(parts, slices[..n], slices[n..], tail, path, mode, vm);
      assert slices == slices[..n] + slices[n..];
    }
  }

  lemma RunOnward(parts: seq<Part>, head: seq<seq<Str>>, rest: seq<seq<Str>>, tail: nat, path: seq<Str>, mode: Mode, vm: VM)
    requires parts != [] && |head| == |PartSegs(parts[0])| && |rest| == |AllSegs(parts[1..])|
    requires Follows(PartSegs(parts[0]), head, tail, path, vm.pos) && Calm(mode, path)
    requires Exec(Code(parts[1..]), tail, path, mode, AfterPart(parts[0], head, mode, vm))
      == Running(AfterParts(parts[1..], rest, mode, AfterPart(parts[0], head, mode, vm)))
    ensures Exec(Code(parts), tail, path, mode, vm) == Running(AfterParts(parts, head + rest, mode, vm))
  {
    RunFirst(parts, head, tail, path, mode, vm);
    AfterFirst(parts, head + rest, mode, vm);
    assert (head + rest)[..|head|] == head && (head + rest)[|head|..] == rest;
  }

  lemma RunPart(part: Part, slices: seq<seq<Str>>, tail: nat, path: seq<Str>, mode: Mode, vm: VM)
    requires Follows(PartSegs(part), slices, tail, path, vm.pos) && Calm(mode, path)
    ensures Exec(PartCode(part), tail, path, mode, vm) == Running(AfterPart(part, slices, mode, vm))
  {
    RunSegs(PartSegs(part), slices, tail, path, mode, vm);
    match part
    case Plain(s) =>
      assert SegsCode([s]) == [SegCode(s)];
      assert vm.captured + [] == vm.captured;
    case Variable(name, segs) =>
      RunVariable(name, segs, slices, tail, path, mode, vm);
  }

  lemma RunVariable(name: Str, segs: seq<Seg>, slices: seq<seq<Str>>, tail: nat, path: seq<Str>, mode: Mode, vm: VM)
    requires |segs| == |slices|
    requires Exec(SegsCode(segs), tail, path, mode, vm)
      == Running(VM(vm.pos + Width(slices), vm.stack + Texts(segs, slices, mode), vm.captured))
    ensures Exec(PartCode(Variable(name, segs)), tail, path, mode, vm)
      == Running(AfterPart(Variable(name, segs), slices, mode, vm))
  {
    var pushed := VM(vm.pos + Width(slices), vm.stack + Texts(segs, slices, mode), vm.captured);
    ExecThen(SegsCode(segs), [Concat(|segs|), Capture(name)], tail, path, mode, vm, pushed);
    CloseVariable(name, Texts(segs, slices, mode), tail, path, mode, pushed, vm.stack);
    assert vm.stack + [] == vm.stack;
  }

  lemma PartRan(part: Part, tail: nat, path: seq<Str>, mode: Mode, vm: VM) returns (slices: seq<seq<Str>>)
    requires vm.pos <= |path| && Exec(PartCode(part), tail, path, mode, vm).Running?
    ensures Follows(PartSegs(part), slices, tail, path, vm.pos)
    ensures AfterPart(part, slices, mode, vm).pos <= |path|
  {
    var segs := PartSegs(part);
    match part {
      case Plain(s) =>
        assert SegsCode([s]) == [SegCode(s)];
      case Variable(name, _) =>
        ExecAppend(SegsCode(segs), [Concat(|segs|), Capture(name)], tail, path, mode, vm);
    }
    slices := SegsRan(segs, tail, path, mode, vm);
    FollowsEnd(segs, slices, tail, path, vm.pos);
  }

  lemma {:induction false} PartsRan(parts: seq<Part>, tail: nat, path: seq<Str>, mode: Mode, vm: VM) returns (slices: seq<seq<Str>>)
    requires vm.pos <= |path| && Exec(Code(parts), tail, path, mode, vm).Running?
    requires Calm(mode, path)
    ensures Follows(AllSegs(parts), slices, tail, path, vm.pos)
  {
    if parts == [] {
      slices := [];
    } else {
      var head, next := FirstRan(parts, tail, path, mode, vm);
      var rest := PartsRan(parts[1..], tail, path, mode, next);
      slices := head + rest;
      FollowsJoin(parts, head, rest, tail, path, vm.pos);
    }
  }

  /** The machine gets through the first part, and from there through the others. */
  lemma {:induction false} FirstRan(parts: seq<Part>, tail: nat, path: seq<Str>, mode: Mode, vm: VM)
    returns (head: seq<seq<Str>>, next: VM)
    requires parts != [] && vm.pos <= |path| && Exec(Code(parts), tail, path, mode, vm).Running?
    requires Calm(mode, path)
    ensures Follows(PartSegs(parts[0]), head, tail, path, vm.pos)
    ensures next.pos == vm.pos + Width(head) <= |path|
    ensures Exec(Code(parts[1..]), tail, path, mode, next).Running?
  {
    ExecAppend(PartCode(parts[0]), Code(parts[1..]), tail, path, mode, vm);
    head := PartRan(parts[0], tail, path, mode, vm);
    RunFirst(parts, head, tail, path, mode, vm);
    next := AfterPart(parts[0], head, mode, vm);
  }

  lemma FollowsJoin(parts: seq<Part>, head: seq<seq<Str>>, rest: seq<seq<Str>>, tail: nat, path: seq<Str>, pos: nat)
    requires parts != [] && Follows(PartSegs(parts[0]), head, tail, path, pos)
    requires Follows(AllSegs(parts[1..]), rest, tail, path, pos + Width(head))
    ensures Follows(AllSegs(parts), head + rest, tail, path, pos)
  {
    FollowsAppend(PartSegs(parts[0]), AllSegs(parts[1..]), head, rest, tail, path, pos);
  }

  lemma SlicesMeet(path: seq<Str>, a: nat, b: nat, c: nat)
    requires a <= b <= c <= |path|
    ensures path[a..b] + path[b..c] == path[a..c]
  {
  }

  lemma {:induction false} FollowsEnd(segs: seq<Seg>, slices: seq<seq<Str>>, tail: nat, path: seq<Str>, pos: nat)
    requires Follows(segs, slices, tail, path, pos)
    ensures pos + Width(slices) <= |path|
    ensures Flatten(slices) == path[pos..pos + Width(slices)]
  {
    if segs != [] {
      var end := pos + |slices[0]|;
      FollowsEnd(segs[1..], slices[1..], tail, path, end);
      SlicesMeet(path, pos, end, end + Width(slices[1..]));
    }
  }

  // ---- The machine's splitting is the template's ----

  function Singles(segs: seq<Seg>): nat {
    if segs == [] then 0 else (if segs[0].DeepStar? then 0 else 1) + Singles(segs[1..])
  }

  function DeepStars(segs: seq<Seg>): nat {
    if segs == [] then 0 else (if segs[0].DeepStar? then 1 else 0) + DeepStars(segs[1..])
  }

  /** How many components must remain after the deep wildcard. */
  function TailSegs(segs: seq<Seg>): nat {
    if segs == [] then 0
    else if segs[0].DeepStar? then Singles(segs[1..])
    else TailSegs(segs[1..])
  }

  lemma {:induction false} WidthOfSingles(segs: seq<Seg>, slices: seq<seq<Str>>)
    requires |slices| == |segs| && DeepStars(segs) == 0
    requires forall k :: 0 <= k < |segs| ==> Fits(segs[k], slices[k])
    ensures Width(slices) == Singles(segs)
  {
    if segs != [] {
      assert Fits(segs[0], slices[0]);
      forall k | 0 <= k < |segs[1..]| ensures Fits(segs[1..][k], slices[1..][k]) {
        assert Fits(segs[k + 1], slices[k + 1]);
      }
      WidthOfSingles(segs[1..], slices[1..]);
    }
  }

  lemma {:induction false} FlattenWidth(slices: seq<seq<Str>>)
    ensures |Flatten(slices)| == Width(slices)
  {
    if slices != [] {
      FlattenWidth(slices[1..]);
    }
  }

  /** With one deep wildcard at most, fixing the tail after it changes nothing: what the machine
      can follow to the end of the path is what the template splits. */
  lemma {:induction false} SplitsFollow(segs: seq<Seg>, path: seq<Str>, pos: nat, slices: seq<seq<Str>>, tail: nat)
    requires DeepStars(segs) <= 1 && pos <= |path|
    requires DeepStars(segs) == 1 ==> tail == TailSegs(segs)
    requires Splits(segs, path[pos..], slices)
    ensures Follows(segs, slices, tail, path, pos) && pos + Width(slices) == |path|
  {
    FlattenWidth(slices);
    if segs != [] {
      var end := pos + |slices[0]|;
      assert Flatten(slices) == slices[0] + Flatten(slices[1..]);
      assert path[pos..end] == path[pos..][..|slices[0]|] == slices[0];
      assert path[end..] == path[pos..][|slices[0]|..] == Flatten(slices[1..]);
      assert Fits(segs[0], slices[0]);
      forall k | 0 <= k < |segs[1..]| ensures Fits(segs[1..][k], slices[1..][k]) {
        assert Fits(segs[k + 1], slices[k + 1]);
      }
      SplitsFollow(segs[1..], path, end, slices[1..], tail);
      if segs[0].DeepStar? {
        WidthOfSingles(segs[1..], slices[1..]);
      }
    }
  }

  lemma {:induction false} FollowsFit(segs: seq<Seg>, slices: seq<seq<Str>>, tail: nat, path: seq<Str>, pos: nat)
    requires Follows(segs, slices, tail, path, pos)
    ensures forall k :: 0 <= k < |segs| ==> Fits(segs[k], slices[k])
  {
    if segs != [] {
      FollowsFit(segs[1..], slices[1..], tail, path, pos + |slices[0]|);
      forall k | 0 <= k < |segs| ensures Fits(segs[k], slices[k]) {
        if k > 0 {
          assert Fits(segs[1..][k - 1], slices[1..][k - 1]);
        }
      }
    }
  }

  // ---- Static properties of the layout ----

  lemma {:induction false} CodeAppendDepth(a: seq<Instr>, b: seq<Instr>)
    ensures Depth(a + b) == Depth(a) + Depth(b)
  {
    if b == [] {
      assert a + b == a;
    } else {
      assert (a + b)[..|a + b| - 1] == a + b[..|b| - 1];
      CodeAppendDepth(a, b[..|b| - 1]);
    }
  }

  /** Safety of a program run on top of a stack that is already `base` high. */
  predicate SafeOn(base: int, prog: seq<Instr>) {
    if prog == [] then true
    else
      var init, last := prog[..|prog| - 1], prog[|prog| - 1];
      SafeOn(base, init) && Need(last) <= base + Depth(init) && (last.Concat? ==> last.n > 0)
  }

  lemma {:induction false} SafeAppend(a: seq<Instr>, b: seq<Instr>)
    requires StackSafe(a) && SafeOn(Depth(a), b)
    ensures StackSafe(a + b)
  {
    if b == [] {
      assert a + b == a;
    } else {
      var init, last := b[..|b| - 1], b[|b| - 1];
      SafeAppend(a, init);
      CodeAppendDepth(a, init);
      assert (a + b)[..|a + b| - 1] == a + init && (a + b)[|a + b| - 1] == last;
    }
  }

  /** What is safe alone is safe higher up. */
  lemma {:induction false} SafeHigher(base: int, prog: seq<Instr>)
    requires base >= 0 && StackSafe(prog)
    ensures SafeOn(base, prog)
  {
    if prog != [] {
      SafeHigher(base, prog[..|prog| - 1]);
    }
  }

  lemma {:induction false} SegsCodeSafe(segs: seq<Seg>)
    ensures |SegsCode(segs)| == |segs|
    ensures forall k :: 0 <= k < |segs| ==> SegsCode(segs)[k] == SegCode(segs[k])
    ensures Depth(SegsCode(segs)) == |segs|
    ensures StackSafe(SegsCode(segs))
  {
    if segs != [] {
      var first, rest := [SegCode(segs[0])], SegsCode(segs[1..]);
      SegsCodeSafe(segs[1..]);
      OneInstr(SegCode(segs[0]), 0);
      SafeHigher(1, rest);
      SafeAppend(first, rest);
      CodeAppendDepth(first, rest);
    }
  }

  /** Closing a variable takes its segments' texts off the stack. */
  lemma ClosingIsSafe(n: nat, name: Str)
    requires n > 0
    ensures SafeOn(n, [Concat(n), Capture(name)]) && Depth([Concat(n), Capture(name)]) + n == 0
  {
    OneInstr(Concat(n), n);
    assert [Concat(n), Capture(name)][..1] == [Concat(n)];
  }

  lemma OneInstr(i: Instr, base: int)
    ensures Depth([i]) == Effect(i)
    ensures SafeOn(base, [i]) <==> Need(i) <= base && (i.Concat? ==> i.n > 0)
    ensures StackSafe([i]) <==> Need(i) <= 0 && (i.Concat? ==> i.n > 0)
  {
    assert [i][..0] == [];
    assert Depth([]) == 0 && SafeOn(base, []) && StackSafe([]);
  }

  lemma PartCodeSafe(part: Part)
    requires part.Variable? ==> part.segs != []
    ensures StackSafe(PartCode(part)) && Depth(PartCode(part)) >= 0
  {
    match part
    case Plain(s) =>
      SegsCodeSafe([s]);
      assert SegsCode([s]) == [SegCode(s)];
    case Variable(name, segs) =>
      SegsCodeSafe(segs);
      ClosingIsSafe(|segs|, name);
      SafeAppend(SegsCode(segs), [Concat(|segs|), Capture(name)]);
      CodeAppendDepth(SegsCode(segs), [Concat(|segs|), Capture(name)]);
  }

  /** The layout of a template never runs off its stack. */
  lemma {:induction false} CodeSafe(parts: seq<Part>)
    requires Proper(parts)
    ensures StackSafe(Code(parts)) && Depth(Code(parts)) >= 0
  {
    if parts != [] {
      var a, b := PartCode(parts[0]), Code(parts[1..]);
      PartCodeSafe(parts[0]);
      CodeSafe(parts[1..]);
      SafeHigher(Depth(a), b);
      SafeAppend(a, b);
      CodeAppendDepth(a, b);
    }
  }

  function Deeps(prog: seq<Instr>): nat {
    if prog == [] then 0 else (if prog[0] == Deep then 1 else 0) + Deeps(prog[1..])
  }

  /** Single-component instructions after the first deep wildcard. */
  function TailFront(prog: seq<Instr>): nat {
    if prog == [] then 0
    else if prog[0] == Deep then Ones(prog[1..])
    else TailFront(prog[1..])
  }

  lemma {:induction false} CountsAppend(a: seq<Instr>, b: seq<Instr>)
    ensures Deeps(a + b) == Deeps(a) + Deeps(b)
    ensures TailFront(a + b) == if Deeps(a) > 0 then TailFront(a) + Ones(b) else TailFront(b)
  {
    if a == [] {
      assert a + b == b;
    } else {
      assert (a + b)[1..] == a[1..] + b;
      CountsAppend(a[1..], b);
      OnesAppend(a[1..], b);
    }
  }

  lemma {:induction false} OneDeepCounts(prog: seq<Instr>)
    ensures OneDeep(prog) <==> Deeps(prog) <= 1
    ensures HasDeep(prog) <==> Deeps(prog) > 0
  {
    if prog != [] {
      var init, last := prog[..|prog| - 1], prog[|prog| - 1];
      assert prog == init + [last];
      OneDeepCounts(init);
      CountsAppend(init, [last]);
      assert [last][1..] == [];
    }
  }

  lemma {:induction false} SegsCodeCounts(segs: seq<Seg>)
    ensures Deeps(SegsCode(segs)) == DeepStars(segs)
    ensures Ones(SegsCode(segs)) == Singles(segs)
    ensures TailFront(SegsCode(segs)) == TailSegs(segs)
  {
    if segs != [] {
      assert SegsCode(segs)[1..] == SegsCode(segs[1..]);
      SegsCodeCounts(segs[1..]);
    }
  }

  lemma ClosingCounts(n: int, name: Str)
    ensures Deeps([Concat(n), Capture(name)]) == 0 && Ones([Concat(n), Capture(name)]) == 0
    ensures TailFront([Concat(n), Capture(name)]) == 0
  {
    var close := [Concat(n), Capture(name)];
    assert close[1..] == [Capture(name)] && close[1..][1..] == [];
    assert Deeps(close[1..]) == 0 && Ones(close[1..]) == 0 && TailFront(close[1..]) == 0;
  }

  lemma PartCodeCounts(part: Part)
    ensures Deeps(PartCode(part)) == DeepStars(PartSegs(part))
    ensures Ones(PartCode(part)) == Singles(PartSegs(part))
    ensures Deeps(PartCode(part)) > 0 ==> TailFront(PartCode(part)) == TailSegs(PartSegs(part))
  {
    SegsCodeCounts(PartSegs(part));
    match part
    case Plain(s) =>
      assert SegsCode([s]) == [SegCode(s)];
    case Variable(name, segs) =>
      var close := [Concat(|segs|), Capture(name)];
      ClosingCounts(|segs|, name);
      CountsAppend(SegsCode(segs), close);
      OnesAppend(SegsCode(segs), close);
  }

  lemma {:induction false} SegsAppendCounts(a: seq<Seg>, b: seq<Seg>)
    ensures DeepStars(a + b) == DeepStars(a) + DeepStars(b)
    ensures Singles(a + b) == Singles(a) + Singles(b)
    ensures TailSegs(a + b) == if DeepStars(a) > 0 then TailSegs(a) + Singles(b) else TailSegs(b)
  {
    if a == [] {
      assert a + b == b;
    } else {
      assert (a + b)[1..] == a[1..] + b;
      SegsAppendCounts(a[1..], b);
    }
  }

  lemma {:induction false} CodeCounts(parts: seq<Part>)
    ensures Deeps(Code(parts)) == DeepStars(AllSegs(parts))
    ensures Ones(Code(parts)) == Singles(AllSegs(parts))
    ensures Deeps(Code(parts)) > 0 ==> TailFront(Code(parts)) == TailSegs(AllSegs(parts))
  {
    if parts != [] {
      PartCodeCounts(parts[0]);
      CodeCounts(parts[1..]);
      CountsAppend(PartCode(parts[0]), Code(parts[1..]));
      OnesAppend(PartCode(parts[0]), Code(parts[1..]));
      SegsAppendCounts(PartSegs(parts[0]), AllSegs(parts[1..]));
    }
  }

  lemma {:induction false} TailFrontAt(prog: seq<Instr>) returns (k: nat)
    requires Deeps(prog) > 0
    ensures k < |prog| && prog[k] == Deep && Ones(prog[k + 1..]) == TailFront(prog)
  {
    if prog[0] == Deep {
      k := 0;
    } else {
      var j := TailFrontAt(prog[1..]);
      k := j + 1;
      assert prog[1..][j + 1..] == prog[k + 1..];
    }
  }

  /** The tail length the checker computes is the number of components the template still needs
      after its deep wildcard. */
  lemma TailOfCode(parts: seq<Part>)
    requires DeepStars(AllSegs(parts)) == 1
    ensures TailOf(Code(parts)) == TailSegs(AllSegs(parts))
  {
    CodeCounts(parts);
    var k := TailFrontAt(Code(parts));
    OneDeepCounts(Code(parts));
    TailAfterDeep(Code(parts), k);
  }

  lemma {:induction false} CodeHasNoNops(parts: seq<Part>)
    ensures Nop !in Code(parts)
  {
    if parts != [] {
      CodeHasNoNops(parts[1..]);
      SegsCodeSafe(PartSegs(parts[0]));
      assert Nop !in SegsCode(PartSegs(parts[0]));
      assert Nop !in PartCode(parts[0]);
    }
  }

  lemma {:induction false} NothingToDrop(prog: seq<Instr>)
    requires Nop !in prog
    ensures DropNops(prog) == prog
  {
    if prog != [] {
      NothingToDrop(prog[1..]);
      assert prog == [prog[0]] + prog[1..];
    }
  }

  // ---- The theorems ----

  /** The layout of a template is accepted exactly when it has one deep wildcard at most, and the
      pattern built from it lists the template's code. */
  lemma LayoutAccepted(t: Template, ops: seq<int>, pool: seq<Str>, version: int)
    requires Proper(t.parts) && LaysOut(ops, pool, t)
    ensures Acceptable(version, ops, pool) <==> version == 1 && DeepStars(AllSegs(t.parts)) <= 1
    ensures DropNops(Disassemble(ops, pool, |ops| / 2).value) == Code(t.parts)
  {
    CodeSafe(t.parts);
    CodeCounts(t.parts);
    OneDeepCounts(Code(t.parts));
    CodeHasNoNops(t.parts);
    NothingToDrop(Code(t.parts));
  }

  /** The pattern p was built from the template t. */
  predicate BuiltFrom(p: Pattern, t: Template) {
    Valid(p) && Listing(p) == Code(t.parts) && p.verb == t.verb
  }

  /** The slices split the path over the template. */
  predicate SplitsOver(t: Template, path: seq<Str>, slices: seq<seq<Str>>) {
    Splits(AllSegs(t.parts), path, slices)
  }

  /** The bindings a split gives. */
  function BindingsOf(t: Template, path: seq<Str>, slices: seq<seq<Str>>, mode: Mode): map<Str, Str>
    requires SplitsOver(t, path, slices)
  {
    Bindings(Captured(t.parts, slices, mode))
  }

  /** Every split of the path is what the machine finds. */
  lemma {:induction false} SplitMatches(t: Template, p: Pattern, path: seq<Str>, mode: Mode, slices: seq<seq<Str>>)
    requires BuiltFrom(p, t) && Calm(mode, path) && SplitsOver(t, path, slices)
    ensures Outcome(Exec(Listing(p), p.tailLen, path, mode, START), |path|) == Bound(BindingsOf(t, path, slices, mode))
  {
    DeepOnce(t, p);
    assert path[0..] == path;
    SplitsFollow(AllSegs(t.parts), path, 0, slices, p.tailLen);
    RunParts(t.parts, slices, p.tailLen, path, mode, START);
    AfterPartsMeans(t.parts, slices, mode, START);
    assert [] + Captured(t.parts, slices, mode) == Captured(t.parts, slices, mode);
  }

  /** Whatever the machine matches, it has split. */
  lemma {:induction false} MatchSplits(t: Template, p: Pattern, path: seq<Str>, mode: Mode) returns (slices: seq<seq<Str>>)
    requires BuiltFrom(p, t) && Calm(mode, path)
    requires Outcome(Exec(Listing(p), p.tailLen, path, mode, START), |path|).Bound?
    ensures SplitsOver(t, path, slices)
  {
    slices := PartsRan(t.parts, p.tailLen, path, mode, START);
    RunParts(t.parts, slices, p.tailLen, path, mode, START);
    AfterPartsMeans(t.parts, slices, mode, START);
    FollowedIsSplit(AllSegs(t.parts), slices, p.tailLen, path);
  }

  lemma FollowedIsSplit(segs: seq<Seg>, slices: seq<seq<Str>>, tail: nat, path: seq<Str>)
    requires Follows(segs, slices, tail, path, 0) && Width(slices) >= |path|
    ensures Splits(segs, path, slices)
  {
    FollowsFit(segs, slices, tail, path, 0);
    FollowsEnd(segs, slices, tail, path, 0);
  }

  lemma DeepOnce(t: Template, p: Pattern)
    requires BuiltFrom(p, t)
    ensures DeepStars(AllSegs(t.parts)) <= 1
    ensures DeepStars(AllSegs(t.parts)) == 1 ==> p.tailLen == TailSegs(AllSegs(t.parts))
  {
    CodeCounts(t.parts);
    OneDeepCounts(Code(t.parts));
    if DeepStars(AllSegs(t.parts)) == 1 {
      TailOfCode(t.parts);
    }
  }

  /** Matching is splitting, in every mode: on a path whose components decode (in legacy mode, on
      every path) a pattern built from a template binds exactly when the path, with the request's
      verb put back if need be, splits over the template's segments; every such split gives the
      same bindings, those of its captures. Literals are compared as they came in. */
  lemma {:induction false} MatchIsSplit(t: Template, p: Pattern, cs: seq<Str>, verb: Str, path: seq<Str>, mode: Mode)
    requires BuiltFrom(p, t) && Attach(cs, t.verb, verb) == Some(path) && Calm(mode, path)
    ensures MatchSpec(p, cs, verb, mode).Bound? || MatchSpec(p, cs, verb, mode).NotMatch?
    ensures MatchSpec(p, cs, verb, mode).Bound? <==> exists slices :: SplitsOver(t, path, slices)
    ensures forall slices :: SplitsOver(t, path, slices) ==>
      MatchSpec(p, cs, verb, mode) == Bound(BindingsOf(t, path, slices, mode))
  {
    NoStrayOutcome(t, p, path, mode);
    var r := Outcome(Exec(Listing(p), p.tailLen, path, mode, START), |path|);
    assert MatchSpec(p, cs, verb, mode) == r;
    forall slices | SplitsOver(t, path, slices)
      ensures r == Bound(BindingsOf(t, path, slices, mode))
    {
      SplitMatches(t, p, path, mode, slices);
    }
    if r.Bound? {
      var slices := MatchSplits(t, p, path, mode);
    }
  }

  /** On such a path there is no malformed escape, and a checked program does not crash. */
  lemma {:induction false} NoStrayOutcome(t: Template, p: Pattern, path: seq<Str>, mode: Mode)
    requires BuiltFrom(p, t) && Calm(mode, path)
    ensures !Exec(Listing(p), p.tailLen, path, mode, START).BadEscape?
    ensures !Exec(Listing(p), p.tailLen, path, mode, START).Crash?
  {
    StackIsPredicted(Listing(p), |Listing(p)|, p.tailLen, path, mode);
    assert Listing(p)[..|Listing(p)|] == Listing(p);
    NeverMalformed(Listing(p), p.tailLen, path, mode, START);
  }

  /** No later pair has the name of this one. */
  predicate LastOfName(captured: seq<(Str, Str)>, k: nat)
    requires k < |captured|
  {
    forall j :: k < j < |captured| ==> captured[j].0 != captured[k].0
  }

  /** Each name is bound to the last text captured for it. */
  lemma {:induction false} LastWins(captured: seq<(Str, Str)>, k: nat)
    requires k < |captured| && LastOfName(captured, k)
    ensures captured[k].0 in Bindings(captured) && Bindings(captured)[captured[k].0] == captured[k].1
  {
    var n := |captured| - 1;
    if k < n {
      assert captured[n].0 != captured[k].0;
      assert LastOfName(captured[..n], k);
      LastWins(captured[..n], k);
    }
  }

  /** Nothing else is bound. */
  lemma {:induction false} BoundAreCaptured(captured: seq<(Str, Str)>, name: Str)
    ensures name in Bindings(captured) <==> name in NamesOf(captured)
  {
    if captured != [] {
      BoundAreCaptured(captured[..|captured| - 1], name);
    }
  }

  /** The template's variables, in order. */
  function VarNames(parts: seq<Part>): seq<Str> {
    if parts == [] then []
    else (match parts[0] case Plain(_) => [] case Variable(name, _) => [name]) + VarNames(parts[1..])
  }

  /** Part i is the last variable of its name. */
  predicate LastVariable(parts: seq<Part>, i: nat) {
    && i < |parts| && parts[i].Variable?
    && parts[i].name !in VarNames(parts[i + 1..])
  }

  /** What the segments of part i matched. */
  function OwnSlices(parts: seq<Part>, slices: seq<seq<Str>>, i: nat): (own: seq<seq<Str>>)
    requires i < |parts| && |slices| == |AllSegs(parts)|
    ensures |own| == |PartSegs(parts[i])|
  {
    var n := |PartSegs(parts[0])|;
    if i == 0 then slices[..n] else OwnSlices(parts[1..], slices[n..], i - 1)
  }

  /** The captures are named as the variables, in order. */
  lemma {:induction false} CapturedAreVars(parts: seq<Part>, slices: seq<seq<Str>>, mode: Mode)
    requires |slices| == |AllSegs(parts)|
    ensures |Captured(parts, slices, mode)| == |VarNames(parts)|
    ensures forall k :: 0 <= k < |VarNames(parts)| ==> Captured(parts, slices, mode)[k].0 == VarNames(parts)[k]
  {
    if parts != [] {
      CapturedAreVars(parts[1..], slices[|PartSegs(parts[0])|..], mode);
    }
  }

  /** How many variables stand before part i. */
  function VarIndex(parts: seq<Part>, i: nat): nat
    requires i <= |parts|
  {
    if i == 0 then 0 else (if parts[0].Variable? then 1 else 0) + VarIndex(parts[1..], i - 1)
  }

  lemma {:induction false} NamesAfter(parts: seq<Part>, i: nat)
    requires i < |parts| && parts[i].Variable?
    ensures VarIndex(parts, i) < |VarNames(parts)|
    ensures VarNames(parts)[VarIndex(parts, i) + 1..] == VarNames(parts[i + 1..])
  {
    if i > 0 {
      NamesAfter(parts[1..], i - 1);
      assert parts[1..][i..] == parts[i + 1..];
    }
  }

  lemma Behind<T>(a: seq<T>, b: seq<T>, k: nat)
    requires k < |b|
    ensures (a + b)[|a| + k] == b[k]
  {
  }

  lemma CapturedFirst(parts: seq<Part>, slices: seq<seq<Str>>, mode: Mode)
    requires parts != [] && |slices| == |AllSegs(parts)|
    ensures
      var n := |PartSegs(parts[0])|;
      var first, rest := PartCaptured(parts[0], slices[..n], mode), Captured(parts[1..], slices[n..], mode);
      Captured(parts, slices, mode) == first + rest && |first| == if parts[0].Variable? then 1 else 0
  {
  }

  /** A variable's capture is the join of its own segments' texts. */
  lemma {:induction false} CapturedAt(parts: seq<Part>, slices: seq<seq<Str>>, mode: Mode, i: nat)
    requires |slices| == |AllSegs(parts)| && i < |parts| && parts[i].Variable?
    ensures VarIndex(parts, i) < |Captured(parts, slices, mode)|
    ensures Captured(parts, slices, mode)[VarIndex(parts, i)]
      == (parts[i].name, Join(Texts(parts[i].segs, OwnSlices(parts, slices, i), mode), [SLASH]))
  {
    CapturedFirst(parts, slices, mode);
    if i > 0 {
      var n := |PartSegs(parts[0])|;
      CapturedAt(parts[1..], slices[n..], mode, i - 1);
      Behind(PartCaptured(parts[0], slices[..n], mode), Captured(parts[1..], slices[n..], mode), VarIndex(parts[1..], i - 1));
    }
  }

  /** What the template binds a variable to: the "/"-join of its own segments' texts. */
  function OwnText(t: Template, slices: seq<seq<Str>>, mode: Mode, i: nat): Str
    requires |slices| == |AllSegs(t.parts)| && i < |t.parts| && t.parts[i].Variable?
  {
    Join(Texts(t.parts[i].segs, OwnSlices(t.parts, slices, i), mode), [SLASH])
  }

  /** A match binds the template's variables and nothing else, each to the join of what the
      segments of its last occurrence give; a lone `**` that matched nothing gives the empty text. */
  lemma {:induction false} VariableBound(t: Template, p: Pattern, cs: seq<Str>, verb: Str, path: seq<Str>, mode: Mode,
                                         slices: seq<seq<Str>>, i: nat)
    requires BuiltFrom(p, t) && Attach(cs, t.verb, verb) == Some(path) && Calm(mode, path)
    requires SplitsOver(t, path, slices) && LastVariable(t.parts, i)
    ensures
      var r := MatchSpec(p, cs, verb, mode);
      && r.Bound?
      && (forall name :: name in r.bindings <==> name in VarNames(t.parts))
      && t.parts[i].name in r.bindings && r.bindings[t.parts[i].name] == OwnText(t, slices, mode, i)
      && (t.parts[i].segs == [DeepStar] && OwnSlices(t.parts, slices, i) == [[]] ==> r.bindings[t.parts[i].name] == [])
  {
    MatchIsSplit(t, p, cs, verb, path, mode);
    CapturedAreVars(t.parts, slices, mode);
    var captured := Captured(t.parts, slices, mode);
    var k := VarIndex(t.parts, i);
    CapturedAt(t.parts, slices, mode, i);
    NamesAfter(t.parts, i);
    forall j | k < j < |captured| ensures captured[j].0 != captured[k].0 {
      assert captured[j].0 == VarNames(t.parts)[k + 1..][j - k - 1];
    }
    LastWins(captured, k);
    EmptyDeepIsEmpty(mode);
    NamesOfAt(captured);
    assert NamesOf(captured) == VarNames(t.parts);
    forall name ensures name in Bindings(captured) <==> name in VarNames(t.parts) {
      BoundAreCaptured(captured, name);
    }
  }

  lemma EmptyDeepIsEmpty(mode: Mode)
    ensures Join(Texts([DeepStar], [[]], mode), [SLASH]) == []
  {
    var none: seq<seq<Str>> := [[]];
    assert [DeepStar][1..] == [] && none[1..] == [];
    assert SegText(DeepStar, [], mode) == [];
    assert Texts([DeepStar], none, mode) == [[]];
  }

  // ---- Printing back ----

  function PrintSeg(s: Seg): Str {
    match s
    case Literal(text) => text
    case Star => Bytes("*")
    case DeepStar => Bytes("**")
  }

  function PrintSegs(segs: seq<Seg>): seq<Str> {
    if segs == [] then [] else [PrintSeg(segs[0])] + PrintSegs(segs[1..])
  }

  function PrintPart(part: Part): Str {
    match part
    case Plain(s) => PrintSeg(s)
    case Variable(name, segs) => Bytes("{") + name + Bytes("=") + Join(PrintSegs(segs), Bytes("/")) + Bytes("}")
  }

  function PrintParts(parts: seq<Part>): seq<Str> {
    if parts == [] then [] else [PrintPart(parts[0])] + PrintParts(parts[1..])
  }

  /** The template in the notation it is written in. */
  function Print(t: Template): Str {
    Bytes("/") + Join(PrintParts(t.parts), Bytes("/")) + if t.verb != [] then Bytes(":") + t.verb else []
  }

  lemma Signs()
    ensures STAR == Bytes("*") && STARS == Bytes("**") && [SLASH] == Bytes("/") && [COLON] == Bytes(":")
    ensures LBRACE == Bytes("{") && EQUALS == Bytes("=") && RBRACE == Bytes("}")
  {
  }

  lemma {:induction false} DrawSegs(segs: seq<Seg>, stack: seq<Str>)
    ensures DrawAll(SegsCode(segs), stack) == Some(stack + PrintSegs(segs))
    ensures |PrintSegs(segs)| == |segs|
  {
    if segs == [] {
      assert stack + [] == stack;
    } else {
      assert SegsCode(segs)[1..] == SegsCode(segs[1..]);
      Signs();
      DrawSegs(segs[1..], stack + [PrintSeg(segs[0])]);
      Assoc(stack, [PrintSeg(segs[0])], PrintSegs(segs[1..]));
    }
  }

  lemma DrawPart(part: Part, stack: seq<Str>)
    ensures DrawAll(PartCode(part), stack) == Some(stack + [PrintPart(part)])
  {
    var segs := PartSegs(part);
    DrawSegs(segs, stack);
    match part
    case Plain(s) =>
      assert SegsCode([s]) == [SegCode(s)];
      assert PrintSegs([s]) == [PrintSeg(s)];
    case Variable(name, _) =>
      Signs();
      var texts := PrintSegs(segs);
      DrawAppend(SegsCode(segs), [Concat(|segs|), Capture(name)], stack);
      DrawClosing(name, texts, stack);
  }

  lemma DrawClosing(name: Str, texts: seq<Str>, stack: seq<Str>)
    ensures DrawAll([Concat(|texts|), Capture(name)], stack + texts) == Some(stack + [Braced(name, Join(texts, [SLASH]))])
  {
    var drawn, joined := stack + texts, stack + [Join(texts, [SLASH])];
    var done := stack + [Braced(name, Join(texts, [SLASH]))];
    assert drawn[..|stack|] == stack && drawn[|stack|..] == texts;
    assert Draw(Concat(|texts|), drawn) == Some(joined);
    assert joined[..|stack|] == stack;
    assert Draw(Capture(name), joined) == Some(done);
    var close := [Concat(|texts|), Capture(name)];
    assert close[1..] == [Capture(name)];
    DrawNext([Capture(name)], 0, joined);
    assert [Capture(name)][..1] == [Capture(name)] && [Capture(name)][..0] == [];
  }

  lemma {:induction false} DrawParts(parts: seq<Part>, stack: seq<Str>)
    ensures DrawAll(Code(parts), stack) == Some(stack + PrintParts(parts))
  {
    if parts == [] {
      assert stack + [] == stack;
    } else {
      DrawPart(parts[0], stack);
      DrawAppend(PartCode(parts[0]), Code(parts[1..]), stack);
      DrawParts(parts[1..], stack + [PrintPart(parts[0])]);
      Assoc(stack, [PrintPart(parts[0])], PrintParts(parts[1..]));
    }
  }

  /** `String` prints the template back. */
  lemma PrintsBack(t: Template, p: Pattern)
    requires BuiltFrom(p, t)
    ensures StringSpec(p) == Some(Print(t))
  {
    Signs();
    DrawParts(t.parts, []);
    assert [] + PrintParts(t.parts) == PrintParts(t.parts);
    var segs := [SLASH] + Join(PrintParts(t.parts), [SLASH]);
    assert segs + [] == segs;
    assert segs + [COLON] + t.verb == segs + ([COLON] + t.verb);
  }

  // ---- The tables the generator writes ----

  /** A table read pair by pair. */
  lemma {:induction false} ReadsPairwise(ops: seq<int>, pool: seq<Str>, prog: seq<Instr>, n: nat)
    requires |ops| == 2 * |prog| && n <= |prog|
    requires forall k: nat :: k < |prog| ==> Disassemble1(ops[2 * k], ops[2 * k + 1], pool) == Some(prog[k])
    ensures Disassemble(ops, pool, n) == Some(prog[..n])
  {
    if n > 0 {
      ReadsPairwise(ops, pool, prog, n - 1);
      assert prog[..n] == prog[..n - 1] + [prog[n - 1]];
    }
  }

  lemma CodeNext(part: Part, parts: seq<Part>)
    ensures Code([part] + parts) == PartCode(part) + Code(parts)
  {
    assert ([part] + parts)[1..] == parts;
  }

  lemma OneSegment(s: Seg)
    ensures SegsCode([s]) == [SegCode(s)]
  {
    assert [s][1..] == [];
  }

  /** The table of `/v1/example/echo/{id}`, number by number. */
  lemma EchoTable()
    ensures LaysOut([2, 0, 2, 1, 2, 2, 1, 0, 4, 1, 5, 3],
      [Bytes("v1"), Bytes("example"), Bytes("echo"), Bytes("id")],
      Template([Plain(Literal(Bytes("v1"))), Plain(Literal(Bytes("example"))), Plain(Literal(Bytes("echo"))),
                Variable(Bytes("id"), [Star])], []))
  {
    var v1, example, echo, id := Bytes("v1"), Bytes("example"), Bytes("echo"), Bytes("id");
    var parts := [Plain(Literal(v1))] + ([Plain(Literal(example))] + ([Plain(Literal(echo))] + ([Variable(id, [Star])] + [])));
    CodeNext(Plain(Literal(v1)), [Plain(Literal(example))] + ([Plain(Literal(echo))] + ([Variable(id, [Star])] + [])));
    CodeNext(Plain(Literal(example)), [Plain(Literal(echo))] + ([Variable(id, [Star])] + []));
    CodeNext(Plain(Literal(echo)), [Variable(id, [Star])] + []);
    CodeNext(Variable(id, [Star]), []);
    OneSegment(Star);
    var prog := [Lit(v1), Lit(example), Lit(echo), Push, Concat(1), Capture(id)];
    assert Code(parts) == prog;
    var ops, pool := [2, 0, 2, 1, 2, 2, 1, 0, 4, 1, 5, 3], [v1, example, echo, id];
    ReadsPairwise(ops, pool, prog, 6);
    assert prog[..6] == prog;
  }

  /** A table with a deep wildcard: `/foo/{id=**}`. */
  lemma DeepTable()
    ensures LaysOut([2, 0, 3, 0, 4, 1, 5, 1], [Bytes("foo"), Bytes("id"), Bytes("bar")],
      Template([Plain(Literal(Bytes("foo"))), Variable(Bytes("id"), [DeepStar])], []))
  {
    var foo, id := Bytes("foo"), Bytes("id");
    CodeNext(Plain(Literal(foo)), [Variable(id, [DeepStar])] + []);
    CodeNext(Variable(id, [DeepStar]), []);
    OneSegment(DeepStar);
    var parts := [Plain(Literal(foo))] + ([Variable(id, [DeepStar])] + []);
    var prog := [Lit(foo), Deep, Concat(1), Capture(id)];
    assert Code(parts) == prog;
    var ops, pool := [2, 0, 3, 0, 4, 1, 5, 1], [foo, id, Bytes("bar")];
    ReadsPairwise(ops, pool, prog, 4);
    assert prog[..4] == prog;
  }

  // ---- Layouts exist ----

  function CodeOf(i: Instr): int {
    match i
    case Nop => OP_NOP
    case Push => OP_PUSH
    case Deep => OP_PUSH_M
    case Lit(_) => OP_LIT_PUSH
    case Concat(_) => OP_CONCAT_N
    case Capture(_) => OP_CAPTURE
  }

  /** Operation codes for a program whose k-th instruction keeps its string at pool index k. */
  function OpsOf(prog: seq<Instr>, n: nat): (ops: seq<int>)
    requires n <= |prog|
    ensures |ops| == 2 * n
  {
    if n == 0 then []
    else
      OpsOf(prog, n - 1) + [CodeOf(prog[n - 1]), OperandOf(prog, n - 1)]
  }

  function OperandOf(prog: seq<Instr>, k: nat): int
    requires k < |prog|
  {
    if prog[k].Concat? then prog[k].n else k
  }

  function PoolOf(prog: seq<Instr>): seq<Str> {
    seq(|prog|, k requires 0 <= k < |prog| =>
      if prog[k].Lit? then prog[k].text else if prog[k].Capture? then prog[k].name else [])
  }

  lemma {:induction false} DisassembleAppend(ops: seq<int>, more: seq<int>, pool: seq<Str>, n: nat)
    requires 2 * n <= |ops|
    ensures Disassemble(ops + more, pool, n) == Disassemble(ops, pool, n)
  {
    if n > 0 {
      DisassembleAppend(ops, more, pool, n - 1);
    }
  }

  lemma DisassembleNext(ops: seq<int>, code: int, operand: int, pool: seq<Str>, n: nat, before: seq<Instr>, i: Instr)
    requires |ops| == 2 * n && Disassemble(ops, pool, n) == Some(before)
    requires Disassemble1(code, operand, pool) == Some(i)
    ensures Disassemble(ops + [code, operand], pool, n + 1) == Some(before + [i])
  {
    DisassembleAppend(ops, [code, operand], pool, n);
  }

  /** Instruction k is spelled by its own pair. */
  predicate ReadsAt(prog: seq<Instr>, pool: seq<Str>, k: nat)
    requires k < |prog|
  {
    Disassemble1(CodeOf(prog[k]), OperandOf(prog, k), pool) == Some(prog[k])
  }

  lemma CodeReads(prog: seq<Instr>)
    requires StackSafe(prog)
    ensures forall k: nat :: k < |prog| ==> ReadsAt(prog, PoolOf(prog), k)
  {
    forall k: nat | k < |prog| ensures ReadsAt(prog, PoolOf(prog), k) {
      SafeAt(prog, k);
    }
  }

  lemma {:induction false} OpsOfPrefix(prog: seq<Instr>, pool: seq<Str>, n: nat)
    requires n <= |prog| && forall k: nat :: k < |prog| ==> ReadsAt(prog, pool, k)
    ensures Disassemble(OpsOf(prog, n), pool, n) == Some(prog[..n])
  {
    if n > 0 {
      OpsOfPrefix(prog, pool, n - 1);
      assert ReadsAt(prog, pool, n - 1);
      DisassembleNext(OpsOf(prog, n - 1), CodeOf(prog[n - 1]), OperandOf(prog, n - 1), pool, n - 1, prog[..n - 1], prog[n - 1]);
      assert prog[..n] == prog[..n - 1] + [prog[n - 1]];
    }
  }

  /** Every template has a layout, so the theorems above speak of every template. */
  lemma LayoutExists(t: Template) returns (ops: seq<int>, pool: seq<Str>)
    requires Proper(t.parts)
    ensures LaysOut(ops, pool, t)
  {
    var prog := Code(t.parts);
    var n := |prog|;
    CodeSafe(t.parts);
    ops, pool := OpsOf(prog, n), PoolOf(prog);
    CodeReads(prog);
    OpsOfPrefix(prog, pool, n);
    assert prog[..n] == prog;
    assert |ops| % 2 == 0 && |ops| / 2 == n;
  }
}
