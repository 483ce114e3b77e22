/** The first-match loop of the request multiplexer: verb splitting that overwrites the path
    components as it goes, against a stateless reading of the path as it came in. */
module Dispatch {
  import opened Text
  import opened Escape
  import opened Program
  import opened Pattern

  datatype Handler = Handler(pat: Pattern, id: nat)

  /** What reaches the client: one handler call, or one call of an error handler. */
  datatype Event =
    | Invoke(id: nat, params: map<Str, Str>)
    | Routing(status: int)
    | BadEscapeError(escape: Str)
    | FormError
    | HookError

  predicate AllValid(hs: seq<Handler>) {
    forall k :: 0 <= k < |hs| ==> Valid(hs[k].pat)
  }

  function Lookup(handlers: map<Str, seq<Handler>>, meth: Str): seq<Handler> {
    if meth in handlers then handlers[meth] else []
  }

  function Last(cs: seq<Str>): Str
    requires |cs| > 0
  {
    cs[|cs| - 1]
  }

  function WithLast(cs: seq<Str>, last: Str): (r: seq<Str>)
    requires |cs| > 0
    ensures |r| == |cs| && r[|cs| - 1] == last
  {
    cs[..|cs| - 1] + [last]
  }

  /** Where the pattern's verb starts in the last component: the index of its colon, or -1. */
  function VerbAt(patVerb: Str, last: Str): int {
    if patVerb != [] && HasSuffix(last, [COLON] + patVerb) then |last| - |patVerb| - 1 else -1
  }

  /** The components and verb after one handler's verb has been looked for. */
  function CutComponents(p: Pattern, cs: seq<Str>): (r: seq<Str>)
    requires |cs| > 0
    ensures |r| == |cs|
  {
    var idx := VerbAt(p.verb, Last(cs));
    if idx > 0 then WithLast(cs, Last(cs)[..idx]) else cs
  }

  function CutVerb(p: Pattern, cs: seq<Str>, verb: Str): Str
    requires |cs| > 0
  {
    var idx := VerbAt(p.verb, Last(cs));
    if idx > 0 then Last(cs)[idx + 1..] else verb
  }

  // ---- The first-match loop as a function of the remaining handlers ----

  /** What the loop leaves behind: the events so far, whether it answered, and the components and
      verb as they were last overwritten. */
  datatype Trial = Trial(events: seq<Event>, done: bool, cs: seq<Str>, verb: Str)

  function Try(hs: seq<Handler>, cs: seq<Str>, verb: Str, mode: Mode): (t: Trial)
    requires AllValid(hs) && |cs| > 0
    ensures |t.cs| > 0
  {
    if hs == [] then Trial([], false, cs, verb)
    else
      var p := hs[0].pat;
      if VerbAt(p.verb, Last(cs)) == 0 then Trial([Routing(404)], true, cs, verb)
      else
        var cs', verb' := CutComponents(p, cs), CutVerb(p, cs, verb);
        match MatchSpec(p, cs', verb', mode)
        case Bound(params) => Trial([Invoke(hs[0].id, params)], true, cs', verb')
        case MalformedPath(e) =>
          var rest := Try(hs[1..], cs', verb', mode);
          rest.(events := [BadEscapeError(e)] + rest.events)
        case _ => Try(hs[1..], cs', verb', mode)
  }

  // ---- The stateless reading ----

  /** Does this pattern match the path as it came in? A pattern with a verb wants it after the
      last component's text; one without takes the component as it is. */
  function Stateless(p: Pattern, cs: seq<Str>, mode: Mode): Match
    requires Valid(p) && |cs| > 0
  {
    if p.verb == [] then MatchSpec(p, cs, [], mode)
    else if VerbAt(p.verb, Last(cs)) > 0 then
      MatchSpec(p, WithLast(cs, Last(cs)[..VerbAt(p.verb, Last(cs))]), p.verb, mode)
    else NotMatch
  }

  /** What a handler's match comes to, given what the handlers after it would do. */
  function Answer(h: Handler, m: Match, rest: seq<Event>): seq<Event> {
    match m
    case Bound(params) => [Invoke(h.id, params)]
    case MalformedPath(e) => [BadEscapeError(e)] + rest
    case _ => rest
  }

  /** The first handler that matches is called; malformed escapes met on the way are reported. */
  function FirstMatch(hs: seq<Handler>, cs: seq<Str>, mode: Mode): seq<Event>
    requires AllValid(hs) && |cs| > 0
  {
    if hs == [] then [] else Answer(hs[0], Stateless(hs[0].pat, cs, mode), FirstMatch(hs[1..], cs, mode))
  }

  // ---- When the loop's overwriting is harmless ----

  /** The index of the last colon, or -1. */
  function LastColon(s: Str): (k: int)
    ensures -1 <= k < |s|
    ensures k >= 0 ==> s[k] == COLON
    ensures forall i :: k < i < |s| ==> s[i] != COLON
  {
    if s == [] then -1
    else if s[|s| - 1] == COLON then |s| - 1
    else LastColon(s[..|s| - 1])
  }

  /** A last component that cannot be split twice, nor into an empty name and a verb: the text
      after its last colon is empty, or what precedes that colon is not empty and has no colon
      of its own except perhaps at its very end. */
  predicate SafeLast(last: Str) {
    var k := LastColon(last);
    k == -1 || k == |last| - 1 ||
    (k > 0 && (LastColon(last[..k]) == -1 || LastColon(last[..k]) == k - 1))
  }

  predicate ColonFreeVerbs(hs: seq<Handler>) {
    forall k :: 0 <= k < |hs| ==> COLON !in hs[k].pat.verb
  }

  lemma SuffixAfter(y: Str, w: Str, v: Str)
    requires COLON !in v && COLON !in w
    ensures HasSuffix(y + [COLON] + w, [COLON] + v) <==> v == w
  {
    var s, t := y + [COLON] + w, [COLON] + v;
    if v == w {
      assert s == y + t;
      SuffixOfAppend(y, t);
    } else if HasSuffix(s, t) {
      SuffixIndexed(s, t);
      SuffixElsewhere(y, w, v);
    }
  }

  lemma SuffixElsewhere(y: Str, w: Str, v: Str)
    requires COLON !in v && COLON !in w && |v| <= |y| + |w|
    requires forall i :: 0 <= i < |v| + 1 ==> (y + [COLON] + w)[|y| + |w| - |v| + i] == ([COLON] + v)[i]
    ensures v == w
  {
    var s, t := y + [COLON] + w, [COLON] + v;
    var d := if |v| > |w| then |v| - |w| else 0;
    assert s[|y| + |w| - |v| + d] == t[d];
    assert s[|y|] == COLON;
    if |v| == |w| {
      forall j | 0 <= j < |v| ensures v[j] == w[j] {
        assert s[|y| + |w| - |v| + (j + 1)] == t[j + 1];
      }
    }
  }

  lemma SplitAtLastColon(s: Str)
    requires LastColon(s) >= 0
    ensures s == s[..LastColon(s)] + [COLON] + s[LastColon(s) + 1..]
    ensures COLON !in s[LastColon(s) + 1..]
  {
  }

  lemma NoColon(s: Str)
    ensures LastColon(s) == -1 <==> COLON !in s
  {
  }

  /** A colon-free verb is found exactly when it is the text after the last colon. */
  lemma {:induction false} VerbAtLastColon(v: Str, before: Str, after: Str)
    requires COLON !in v && COLON !in after
    ensures VerbAt(v, before + [COLON] + after) == if v != [] && v == after then |before| else -1
  {
    SuffixAfter(before, after, v);
  }

  /** Without a colon no verb is found. */
  lemma {:induction false} NoVerbWithoutColon(v: Str, last: Str)
    requires COLON !in last
    ensures VerbAt(v, last) == -1
  {
    if |v| < |last| {
      SuffixIndexed(last, [COLON] + v);
      assert ([COLON] + v)[0] == COLON;
    }
  }

  /** The loop's state against the path as it came in: nothing split yet, or split once at a
      place where no colon-free verb can be found again. */
  predicate Remembers(cs: seq<Str>, verb: Str, path: seq<Str>) {
    && |cs| > 0
    && if verb == [] then cs == path && SafeLast(Last(path))
       else
         && COLON !in verb && Last(cs) != []
         && path == WithLast(cs, Last(cs) + [COLON] + verb)
         && (LastColon(Last(cs)) == -1 || LastColon(Last(cs)) == |Last(cs)| - 1)
  }

  /** What is found is the text after the last colon. */
  lemma FoundAtLastColon(v: Str, last: Str)
    requires COLON !in v && VerbAt(v, last) >= 0
    ensures VerbAt(v, last) == LastColon(last) && v != []
    ensures last == last[..LastColon(last)] + [COLON] + v
  {
    NoColon(last);
    if LastColon(last) < 0 {
      NoVerbWithoutColon(v, last);
    } else {
      SplitAtLastColon(last);
      VerbAtLastColon(v, last[..LastColon(last)], last[LastColon(last) + 1..]);
    }
  }

  /** First cut: the last component and the verb rebuild the original. */
  lemma FirstCut(p: Pattern, path: seq<Str>)
    requires COLON !in p.verb && |path| > 0 && SafeLast(Last(path))
    ensures VerbAt(p.verb, Last(path)) != 0
    ensures Remembers(CutComponents(p, path), CutVerb(p, path, []), path)
    ensures VerbAt(p.verb, Last(path)) > 0 ==> CutVerb(p, path, []) == p.verb
  {
    if VerbAt(p.verb, Last(path)) >= 0 {
      FoundAtLastColon(p.verb, Last(path));
      assert path == WithLast(path, Last(path));
    }
  }

  /** A text whose only colon, if any, is at its end, holds no verb. */
  lemma {:induction false} NoVerbInFront(v: Str, last: Str)
    requires COLON !in v && last != [] && (LastColon(last) == -1 || LastColon(last) == |last| - 1)
    ensures VerbAt(v, last) == -1
  {
    if LastColon(last) == -1 {
      NoColon(last);
      NoVerbWithoutColon(v, last);
    } else {
      SplitAtLastColon(last);
      assert last[|last|..] == [];
      VerbAtLastColon(v, last[..|last| - 1], []);
    }
  }

  /** After a cut, no colon-free verb is found again; only the verb cut off belongs to the path. */
  lemma NoSecondCut(p: Pattern, cs: seq<Str>, verb: Str, path: seq<Str>)
    requires COLON !in p.verb && verb != [] && Remembers(cs, verb, path)
    ensures VerbAt(p.verb, Last(cs)) < 0
    ensures Last(path) == Last(cs) + [COLON] + verb
    ensures VerbAt(p.verb, Last(path)) > 0 <==> p.verb == verb
    ensures p.verb == verb ==> WithLast(path, Last(path)[..VerbAt(p.verb, Last(path))]) == cs
  {
    NoVerbInFront(p.verb, Last(cs));
    SuffixAfter(Last(cs), verb, p.verb);
    if p.verb == verb {
      assert VerbAt(p.verb, Last(path)) == |Last(cs)|;
      assert Last(path)[..|Last(cs)|] == Last(cs);
    }
  }

  /** One round of the loop keeps the memory of the path, and its match is the stateless match. */
  lemma {:induction false} RoundAgrees(p: Pattern, cs: seq<Str>, verb: Str, path: seq<Str>, mode: Mode)
    requires Valid(p) && COLON !in p.verb && Remembers(cs, verb, path)
    ensures VerbAt(p.verb, Last(cs)) != 0
    ensures Remembers(CutComponents(p, cs), CutVerb(p, cs, verb), path)
    ensures MatchSpec(p, CutComponents(p, cs), CutVerb(p, cs, verb), mode) == Stateless(p, path, mode)
  {
    if verb == [] {
      FirstCut(p, path);
    } else {
      NoSecondCut(p, cs, verb, path);
      assert path == cs[..|cs| - 1] + [Last(cs) + [COLON] + verb];
    }
  }

  /** A verb that was found starts with its colon and is what follows. */
  lemma SuffixStarts(last: Str, verb: Str)
    requires VerbAt(verb, last) >= 0
    ensures last[VerbAt(verb, last)] == COLON && last[VerbAt(verb, last) + 1..] == verb
  {
    var t := [COLON] + verb;
    assert last[|last| - |t|..][0] == COLON && last[|last| - |t|..][1..] == t[1..];
  }

  /** Neither the components nor the verb can fail to decode. */
  predicate CalmState(mode: Mode, cs: seq<Str>, verb: Str) {
    Calm(mode, cs) && (mode != Legacy ==> WellFormed(verb))
  }

  /** Then a checked pattern either binds or does not match. */
  lemma CalmOutcome(p: Pattern, cs: seq<Str>, verb: Str, mode: Mode)
    requires Valid(p) && CalmState(mode, cs, verb)
    ensures MatchSpec(p, cs, verb, mode).Bound? || MatchSpec(p, cs, verb, mode).NotMatch?
  {
    var path := Attach(cs, p.verb, verb);
    if path.Some? {
      AttachIsCalm(cs, p.verb, verb, mode);
      StackIsPredicted(Listing(p), |Listing(p)|, p.tailLen, path.value, mode);
      assert Listing(p)[..|Listing(p)|] == Listing(p);
      NeverMalformed(Listing(p), p.tailLen, path.value, mode, START);
    }
  }

  /** Putting the verb back joins well-formed texts at a colon. */
  lemma AttachIsCalm(cs: seq<Str>, patVerb: Str, verb: Str, mode: Mode)
    requires CalmState(mode, cs, verb) && Attach(cs, patVerb, verb).Some?
    ensures Calm(mode, Attach(cs, patVerb, verb).value)
  {
    if mode != Legacy {
      var last := if |cs| == 0 then [] else cs[|cs| - 1];
      assert |cs| > 0 ==> last in cs;
      WellFormedAround(last, COLON, verb);
      assert [] + [COLON] == [COLON];
      forall c | c in Attach(cs, patVerb, verb).value ensures WellFormed(c) {
      }
    }
  }

  /** So does cutting a verb off. */
  lemma CutIsCalm(p: Pattern, cs: seq<Str>, verb: Str, mode: Mode)
    requires |cs| > 0 && CalmState(mode, cs, verb)
    ensures CalmState(mode, CutComponents(p, cs), CutVerb(p, cs, verb))
  {
    var idx := VerbAt(p.verb, Last(cs));
    if mode != Legacy && idx > 0 {
      SuffixStarts(Last(cs), p.verb);
      assert Last(cs) in cs;
      assert Last(cs) == Last(cs)[..idx] + [COLON] + Last(cs)[idx + 1..];
      WellFormedAround(Last(cs)[..idx], COLON, Last(cs)[idx + 1..]);
    }
  }

  /** So does the stateless reading. */
  lemma {:induction false} StatelessOutcome(p: Pattern, path: seq<Str>, mode: Mode)
    requires Valid(p) && |path| > 0 && Calm(mode, path)
    ensures Stateless(p, path, mode).Bound? || Stateless(p, path, mode).NotMatch?
  {
    if p.verb == [] {
      CalmOutcome(p, path, [], mode);
    } else if VerbAt(p.verb, Last(path)) > 0 {
      CutIsCalm(p, path, [], mode);
      SuffixStarts(Last(path), p.verb);
      CalmOutcome(p, CutComponents(p, path), p.verb, mode);
    }
  }

  /** One round of the loop, the handler's verb not standing at the start of the last component. */
  lemma {:induction false} TryStep(hs: seq<Handler>, cs: seq<Str>, verb: Str, mode: Mode, m: Match)
    requires hs != [] && AllValid(hs) && |cs| > 0 && VerbAt(hs[0].pat.verb, Last(cs)) != 0
    requires m == MatchSpec(hs[0].pat, CutComponents(hs[0].pat, cs), CutVerb(hs[0].pat, cs, verb), mode)
    ensures
      var t := Try(hs, cs, verb, mode);
      var cs', verb' := CutComponents(hs[0].pat, cs), CutVerb(hs[0].pat, cs, verb);
      var rest := Try(hs[1..], cs', verb', mode);
      && t.events == Answer(hs[0], m, rest.events)
      && if m.Bound? then t.cs == cs' && t.verb == verb' else t.cs == rest.cs && t.verb == rest.verb
  {
  }

  lemma {:induction false} TryAgrees(hs: seq<Handler>, cs: seq<Str>, verb: Str, path: seq<Str>, mode: Mode)
    requires AllValid(hs) && ColonFreeVerbs(hs) && Remembers(cs, verb, path)
    ensures Try(hs, cs, verb, mode).events == FirstMatch(hs, path, mode)
    ensures Remembers(Try(hs, cs, verb, mode).cs, Try(hs, cs, verb, mode).verb, path)
  {
    if hs != [] {
      RoundAgrees(hs[0].pat, cs, verb, path, mode);
      TryStep(hs, cs, verb, mode, Stateless(hs[0].pat, path, mode));
      TryAgrees(hs[1..], CutComponents(hs[0].pat, cs), CutVerb(hs[0].pat, cs, verb), path, mode);
    }
  }

  // ---- Handler lists that expose an unsafe last component ----

  function Literals(cs: seq<Str>): seq<Instr> {
    if cs == [] then [] else Literals(cs[..|cs| - 1]) + [Lit(cs[|cs| - 1])]
  }

  function LiteralOps(n: nat): seq<Op> {
    if n == 0 then [] else LiteralOps(n - 1) + [Op(OP_LIT_PUSH, n - 1)]
  }

  /** A pattern with this verb that matches these components and nothing else. */
  function Exactly(cs: seq<Str>, verb: Str): Pattern {
    Pattern(LiteralOps(|cs|), cs, [], |cs|, 0, verb)
  }

  lemma {:induction false} LiteralsAreSafe(cs: seq<Str>)
    ensures StackSafe(Literals(cs)) && OneDeep(Literals(cs)) && !HasDeep(Literals(cs))
    ensures Depth(Literals(cs)) == MaxDepth(Literals(cs)) == |cs| && TailOf(Literals(cs)) == 0
  {
    if cs != [] {
      LiteralsAreSafe(cs[..|cs| - 1]);
      Snoc(Literals(cs[..|cs| - 1]), Lit(cs[|cs| - 1]));
    }
  }

  lemma LiteralsNext(cs: seq<Str>, n: nat)
    requires n < |cs|
    ensures Literals(cs[..n + 1]) == Literals(cs[..n]) + [Lit(cs[n])]
  {
    assert cs[..n + 1][..n] == cs[..n];
  }

  lemma {:induction false} LiteralsRead(cs: seq<Str>, n: nat)
    requires n <= |cs|
    ensures ReadBack(LiteralOps(n), cs, []) == Some(Literals(cs[..n]))
  {
    if n > 0 {
      LiteralsRead(cs, n - 1);
      LiteralsNext(cs, n - 1);
      ReadBackNext(LiteralOps(n - 1), cs, [], Op(OP_LIT_PUSH, n - 1), Lit(cs[n - 1]));
    }
  }

  lemma ExactlyIsValid(cs: seq<Str>, verb: Str)
    ensures Valid(Exactly(cs, verb)) && Listing(Exactly(cs, verb)) == Literals(cs)
  {
    LiteralsRead(cs, |cs|);
    assert cs[..|cs|] == cs;
    LiteralsAreSafe(cs);
  }

  /** Literals run along a path that starts with them, in every mode. */
  lemma {:induction false} LiteralsRun(cs: seq<Str>, n: nat, path: seq<Str>, mode: Mode)
    requires n <= |cs| && n <= |path| && path[..n] == cs[..n]
    ensures Exec(Literals(cs[..n]), 0, path, mode, START) == Running(VM(n, cs[..n], []))
  {
    if n > 0 {
      assert path[n - 1] == path[..n][n - 1] == cs[n - 1];
      assert path[..n - 1] == path[..n][..n - 1] == cs[..n - 1];
      LiteralsRun(cs, n - 1, path, mode);
      LiteralsNext(cs, n - 1);
      OneMore(Literals(cs[..n - 1]), Lit(cs[n - 1]), path, mode);
      assert cs[..n - 1] + [cs[n - 1]] == cs[..n];
    }
  }

  lemma {:induction false} OneMore(prog: seq<Instr>, i: Instr, path: seq<Str>, mode: Mode)
    ensures Exec(prog + [i], 0, path, mode, START) ==
      match Exec(prog, 0, path, mode, START) case Running(vm) => Step(i, 0, path, mode, vm) case stop => stop
  {
    assert (prog + [i])[..|prog|] == prog && (prog + [i])[..|prog| + 1] == prog + [i];
    ExecNext(prog + [i], |prog|, 0, path, mode, START);
  }

  /** The pattern matches its own components, and not those with another last one. */
  lemma {:induction false} ExactlyMatches(cs: seq<Str>, verb: Str, path: seq<Str>, mode: Mode)
    requires |path| > 0 && |cs| == |path| && cs[..|cs| - 1] == path[..|path| - 1]
    requires Valid(Exactly(cs, verb)) && Listing(Exactly(cs, verb)) == Literals(cs)
    ensures MatchSpec(Exactly(cs, verb), path, verb, mode) == if Last(path) == Last(cs) then Bound(map[]) else NotMatch
  {
    var n := |cs| - 1;
    LiteralsRun(cs, n, path, mode);
    OneMore(Literals(cs[..n]), Lit(cs[n]), path, mode);
    assert Literals(cs) == Literals(cs[..n]) + [Lit(cs[n])];
  }

  /** A pattern without components matches no path. */
  lemma NeverMatches(verb: Str, cs: seq<Str>, requested: Str, mode: Mode)
    requires |cs| > 0 && Valid(Exactly([], verb)) && Listing(Exactly([], verb)) == []
    ensures MatchSpec(Exactly([], verb), cs, requested, mode) == NotMatch
  {
  }

  // The loop and the stateless reading, one handler at a time.

  lemma TryAborts(h: Handler, rest: seq<Handler>, cs: seq<Str>, verb: Str, mode: Mode)
    requires Valid(h.pat) && AllValid([h] + rest) && |cs| > 0 && VerbAt(h.pat.verb, Last(cs)) == 0
    ensures Try([h] + rest, cs, verb, mode).events == [Routing(404)]
  {
  }

  lemma {:induction false} TryDecides(h: Handler, rest: seq<Handler>, cs: seq<Str>, verb: Str, mode: Mode)
    requires Valid(h.pat) && AllValid([h] + rest) && AllValid(rest) && |cs| > 0 && VerbAt(h.pat.verb, Last(cs)) != 0
    ensures
      match MatchSpec(h.pat, CutComponents(h.pat, cs), CutVerb(h.pat, cs, verb), mode)
      case Bound(params) => Try([h] + rest, cs, verb, mode).events == [Invoke(h.id, params)]
      case NotMatch =>
        Try([h] + rest, cs, verb, mode) == Try(rest, CutComponents(h.pat, cs), CutVerb(h.pat, cs, verb), mode)
      case _ => true
  {
    assert ([h] + rest)[1..] == rest;
  }

  lemma {:induction false} FirstDecides(h: Handler, rest: seq<Handler>, path: seq<Str>, mode: Mode)
    requires Valid(h.pat) && AllValid([h] + rest) && AllValid(rest) && |path| > 0
    ensures FirstMatch([h] + rest, path, mode) == Answer(h, Stateless(h.pat, path, mode), FirstMatch(rest, path, mode))
  {
    assert ([h] + rest)[1..] == rest;
  }

  /** What a handler with verb w does to a last component that ends with it. */
  lemma {:induction false} CutHere(path: seq<Str>, verb: Str, front: Str, w: Str, p: Pattern)
    requires |path| > 0 && Last(path) == front + [COLON] + w && w != [] && p.verb == w
    ensures VerbAt(w, Last(path)) == |front|
    ensures front != [] ==> CutComponents(p, path) == WithLast(path, front) && CutVerb(p, path, verb) == w
  {
    var last := Last(path);
    assert last == front + ([COLON] + w);
    SuffixOfAppend(front, [COLON] + w);
    assert last[|front| + 1..] == w;
  }

  /** A handler that finds its verb in what the first cut left over, though the path as it came
      in does not end with that verb, or not after the same text. */
  lemma {:induction false} SecondProbe(path: seq<Str>, front: Str, w: Str, mode: Mode) returns (q: Pattern)
    requires |path| > 0 && Last(path) == front + [COLON] + w && COLON !in w && w != []
    requires 0 <= LastColon(front) < |front| - 1
    ensures Valid(q) && COLON !in q.verb
    ensures
      var cs := WithLast(path, front);
      match Stateless(q, path, mode)
      case Bound(_) => VerbAt(q.verb, front) == 0 || MatchSpec(q, CutComponents(q, cs), CutVerb(q, cs, w), mode) == NotMatch
      case NotMatch => VerbAt(q.verb, front) == 0 || MatchSpec(q, CutComponents(q, cs), CutVerb(q, cs, w), mode).Bound?
      case _ => false
  {
    var a, u := front[..LastColon(front)], front[LastColon(front) + 1..];
    SplitAtLastColon(front);
    if u == w {
      q := Exactly(WithLast(path, front), w);
      SameVerbProbe(path, front, a, w, mode);
    } else {
      q := Exactly(WithLast(path, a), u);
      OtherVerbProbe(path, front, a, u, w, mode);
    }
  }

  /** The same verb twice: the path ends in it, but what the second cut leaves does not match. */
  lemma {:induction false} SameVerbProbe(path: seq<Str>, front: Str, a: Str, w: Str, mode: Mode)
    requires |path| > 0 && Last(path) == front + [COLON] + w && front == a + [COLON] + w && w != []
    ensures
      var cs := WithLast(path, front);
      var q := Exactly(cs, w);
      && Valid(q) && Stateless(q, path, mode).Bound?
      && (VerbAt(w, front) == 0 || MatchSpec(q, CutComponents(q, cs), CutVerb(q, cs, w), mode) == NotMatch)
  {
    var cs := WithLast(path, front);
    var q := Exactly(cs, w);
    ExactlyIsValid(cs, w);
    EndsAsCut(path, front, w, q, mode);
    ExactlyMatches(cs, w, cs, mode);
    CutHere(cs, w, a, w, q);
    if a != [] {
      ExactlyMatches(cs, w, WithLast(cs, a), mode);
      assert |a| < |front|;
    }
  }

  /** The stateless reading of a path that ends in the verb. */
  lemma EndsAsCut(path: seq<Str>, front: Str, w: Str, q: Pattern, mode: Mode)
    requires |path| > 0 && Last(path) == front + [COLON] + w && front != [] && w != [] && q.verb == w && Valid(q)
    ensures Stateless(q, path, mode) == MatchSpec(q, WithLast(path, front), w, mode)
  {
    CutHere(path, [], front, w, q);
    assert Last(path)[..|front|] == front;
  }

  /** Another verb: the path does not end in it, but what the first cut leaves does. */
  lemma {:induction false} OtherVerbProbe(path: seq<Str>, front: Str, a: Str, u: Str, w: Str, mode: Mode)
    requires |path| > 0 && Last(path) == front + [COLON] + w && front == a + [COLON] + u
    requires COLON !in u && COLON !in w && u != [] && u != w
    ensures
      var q, cs := Exactly(WithLast(path, a), u), WithLast(path, front);
      && Valid(q) && Stateless(q, path, mode) == NotMatch
      && (VerbAt(u, front) == 0 || MatchSpec(q, CutComponents(q, cs), CutVerb(q, cs, w), mode).Bound?)
  {
    var q, cs := Exactly(WithLast(path, a), u), WithLast(path, front);
    ExactlyIsValid(WithLast(path, a), u);
    EndsOtherwise(path, front, w, q, mode);
    CutHere(cs, w, a, u, q);
    ExactlyMatches(WithLast(path, a), u, WithLast(path, a), mode);
    assert WithLast(cs, a) == WithLast(path, a);
  }

  lemma EndsOtherwise(path: seq<Str>, front: Str, w: Str, q: Pattern, mode: Mode)
    requires |path| > 0 && Last(path) == front + [COLON] + w && COLON !in w
    requires COLON !in q.verb && q.verb != [] && q.verb != w && Valid(q)
    ensures Stateless(q, path, mode) == NotMatch
  {
    SuffixAfter(front, w, q.verb);
  }

  /** The pair: a handler that only cuts its verb off, then the one under test. */
  function Pair(w: Str, q: Pattern): seq<Handler> {
    [Handler(Exactly([], w), 0)] + [Handler(q, 1)]
  }

  lemma {:induction false} PairReads(w: Str, q: Pattern, path: seq<Str>, mode: Mode)
    requires |path| > 0 && Valid(q) && w != []
    ensures AllValid([Handler(q, 1)]) && AllValid(Pair(w, q))
    ensures FirstMatch(Pair(w, q), path, mode) == FirstMatch([Handler(q, 1)], path, mode)
  {
    ExactlyIsValid([], w);
    var h := Handler(q, 1);
    FirstDecides(Handler(Exactly([], w), 0), [h], path, mode);
    if VerbAt(w, Last(path)) > 0 {
      NeverMatches(w, WithLast(path, Last(path)[..VerbAt(w, Last(path))]), w, mode);
    }
  }

  lemma {:induction false} OneReads(q: Pattern, path: seq<Str>, mode: Mode)
    requires |path| > 0 && Valid(q) && AllValid([Handler(q, 1)])
    ensures match Stateless(q, path, mode)
            case Bound(params) => FirstMatch([Handler(q, 1)], path, mode) == [Invoke(1, params)]
            case NotMatch => FirstMatch([Handler(q, 1)], path, mode) == []
            case _ => true
  {
    var h := Handler(q, 1);
    assert [h] + [] == [h];
    FirstDecides(h, [], path, mode);
  }

  lemma {:induction false} LeadingColonExposed(path: seq<Str>, w: Str, mode: Mode) returns (q: Pattern)
    requires |path| > 0 && Last(path) == [] + [COLON] + w && COLON !in w && w != []
    ensures Valid(q) && q.verb == [] && AllValid(Pair(w, q))
    ensures Try(Pair(w, q), path, [], mode).events != FirstMatch(Pair(w, q), path, mode)
  {
    q := Exactly(path, []);
    ExactlyIsValid([], w);
    ExactlyIsValid(path, []);
    ExactlyMatches(path, [], path, mode);
    PairReads(w, q, path, mode);
    OneReads(q, path, mode);
    CutHere(path, [], [], w, Exactly([], w));
    TryAborts(Handler(Exactly([], w), 0), [Handler(q, 1)], path, [], mode);
  }

  lemma {:induction false} DoubleCutExposed(path: seq<Str>, front: Str, w: Str, mode: Mode) returns (q: Pattern)
    requires |path| > 0 && Last(path) == front + [COLON] + w && COLON !in w && w != []
    requires 0 <= LastColon(front) < |front| - 1
    ensures Valid(q) && COLON !in q.verb && AllValid(Pair(w, q))
    ensures Try(Pair(w, q), path, [], mode).events != FirstMatch(Pair(w, q), path, mode)
  {
    q := SecondProbe(path, front, w, mode);
    var cs, h := WithLast(path, front), Handler(q, 1);
    ExactlyIsValid([], w);
    PairReads(w, q, path, mode);
    OneReads(q, path, mode);
    CutHere(path, [], front, w, Exactly([], w));
    NeverMatches(w, cs, w, mode);
    TryDecides(Handler(Exactly([], w), 0), [h], path, [], mode);
    SecondRound(h, cs, w, mode);
  }

  lemma {:induction false} SecondRound(h: Handler, cs: seq<Str>, verb: Str, mode: Mode)
    requires Valid(h.pat) && AllValid([h]) && |cs| > 0
    ensures VerbAt(h.pat.verb, Last(cs)) == 0 ==> Try([h], cs, verb, mode).events == [Routing(404)]
    ensures VerbAt(h.pat.verb, Last(cs)) != 0 ==>
      match MatchSpec(h.pat, CutComponents(h.pat, cs), CutVerb(h.pat, cs, verb), mode)
      case Bound(params) => Try([h], cs, verb, mode).events == [Invoke(h.id, params)]
      case NotMatch => Try([h], cs, verb, mode).events == []
      case _ => true
  {
    assert [h] + [] == [h];
    if VerbAt(h.pat.verb, Last(cs)) == 0 {
      TryAborts(h, [], cs, verb, mode);
    } else {
      TryDecides(h, [], cs, verb, mode);
    }
  }

  /** An unsafe last component has a pair of handlers the loop gets wrong. */
  lemma {:induction false} UnsafeExposed(path: seq<Str>, mode: Mode) returns (hs: seq<Handler>)
    requires |path| > 0 && !SafeLast(Last(path))
    ensures AllValid(hs) && ColonFreeVerbs(hs)
    ensures Try(hs, path, [], mode).events != FirstMatch(hs, path, mode)
  {
    var last := Last(path);
    var k := LastColon(last);
    var w := last[k + 1..];
    SplitAtLastColon(last);
    if k == 0 {
      assert last[..0] == [];
      var q := LeadingColonExposed(path, w, mode);
      hs := Pair(w, q);
    } else {
      var q := DoubleCutExposed(path, last[..k], w, mode);
      hs := Pair(w, q);
    }
  }

  /** A list of handlers that registration could have produced, with colon-free verbs. */
  predicate Registered(hs: seq<Handler>) {
    AllValid(hs) && ColonFreeVerbs(hs)
  }

  /** The loop handles the path as the stateless first match does. */
  predicate Agrees(hs: seq<Handler>, path: seq<Str>, mode: Mode)
    requires |path| > 0 && Registered(hs)
  {
    Try(hs, path, [], mode).events == FirstMatch(hs, path, mode)
  }

  /** In every mode dispatch is the stateless first match, malformed escapes reported on the way
      included, for every list of handlers with colon-free verbs, exactly on the paths whose last
      component is safe. */
  lemma {:induction false} DispatchRefines(path: seq<Str>, mode: Mode)
    requires |path| > 0
    ensures SafeLast(Last(path)) <==> forall hs :: Registered(hs) ==> Agrees(hs, path, mode)
  {
    if SafeLast(Last(path)) {
      forall hs | Registered(hs) ensures Agrees(hs, path, mode) {
        TryAgrees(hs, path, [], path, mode);
      }
    } else {
      var hs := UnsafeExposed(path, mode);
      assert Registered(hs) && !Agrees(hs, path, mode);
    }
  }

  /** In particular on every last component with one colon at most, not at its start. */
  lemma OneColonIsSafe(last: Str)
    requires Count(last, COLON) <= 1 && (last == [] || last[0] != COLON)
    ensures SafeLast(last)
  {
    var k := LastColon(last);
    if k > 0 {
      SplitAtLastColon(last);
      CountAppend(last[..k] + [COLON], last[k + 1..], COLON);
      CountAppend(last[..k], [COLON], COLON);
      assert Count([COLON], COLON) == 1;
      CountZero(last[..k], COLON);
      NoColon(last[..k]);
    }
  }
}
