/** The request multiplexer: registration, and serving one request from splitting its path to
    the single answer it gets. */
module Mux {
  import opened Text
  import opened Escape
  import opened Program
  import opened Pattern
  import opened Dispatch
  import opened Orders
  import opened Template

  const POST := Bytes("POST")

  /** A request as it arrives. `formEncoded` says whether its content type is the URL-encoded
      form, `formOk` whether that form parses, `hookOk` whether the request hook lets it in. */
  datatype Incoming = Incoming(
    meth: Str, path: Str, rawPath: Str, override: Str, formEncoded: bool, formOk: bool, hookOk: bool)

  /** `strings.ToUpper` on ASCII text. */
  function ToUpper(s: Str): (r: Str) {
    if s == [] then []
    else [if 97 <= s[0] <= 122 then s[0] - 32 else s[0]] + ToUpper(s[1..])
  }

  lemma {:induction false} UpperAt(s: Str, k: nat)
    requires k < |s|
    ensures |ToUpper(s)| == |s| && ToUpper(s)[k] == if 97 <= s[k] <= 122 then s[k] - 32 else s[k]
  {
    if k > 0 {
      UpperAt(s[1..], k - 1);
    } else if |s| > 1 {
      UpperAt(s[1..], 0);
    }
  }

  /** Letter by letter: a lower-case letter becomes the upper-case one in its place, and anything
      else stays. */
  lemma ToUpperMeans(s: Str, k: nat)
    requires k < |s|
    ensures |ToUpper(s)| == |s|
    ensures (exists n: nat :: n < 26 && s[k] as int == LOWER_LETTERS[n] as int && ToUpper(s)[k] as int == UPPER_LETTERS[n] as int) ||
      ((forall n: nat :: n < 26 ==> s[k] as int != LOWER_LETTERS[n] as int) && ToUpper(s)[k] == s[k])
  {
    UpperAt(s, k);
    if 97 <= s[k] <= 122 {
      LetterAt(s[k] as int - 97);
    } else {
      forall n: nat | n < 26 ensures s[k] as int != LOWER_LETTERS[n] as int {
        LetterAt(n);
      }
    }
  }

  /** Splitting at `/` and at its escape `%2F`. */
  function SplitEncoded(s: Str): (parts: seq<Str>)
    ensures |parts| >= 1
  {
    if s == [] then [[]]
    else if s[0] == SLASH then [[]] + SplitEncoded(s[1..])
    else if |s| >= 3 && s[..3] == [37, 50, 70] then [[]] + SplitEncoded(s[3..])
    else
      var rest := SplitEncoded(s[1..]);
      [[s[0]] + rest[0]] + rest[1..]
  }

  /** No slash stands anywhere in the text, nor an encoded one. */
  predicate SlashFree(s: Str) {
    s == [] || (s[0] != SLASH && !(|s| >= 3 && s[..3] == Bytes("%2F")) && SlashFree(s[1..]))
  }

  /** The components one after another, with a joint between each two. */
  function Weave(cs: seq<Str>, joints: seq<Str>): Str
    requires |cs| == |joints| + 1
  {
    if joints == [] then cs[0] else cs[0] + joints[0] + Weave(cs[1..], joints[1..])
  }

  predicate Slashes(joints: seq<Str>) {
    forall j :: j in joints ==> j == Bytes("/") || j == Bytes("%2F")
  }

  /** The text is these components with slashes between them; when all characters are unescaped, a
      slash may also be written as its escape. No component holds a slash. */
  ghost predicate Written(cs: seq<Str>, mode: Mode, text: Str) {
    && cs != []
    && if mode == AllCharacters
       then (forall c :: c in cs ==> SlashFree(c)) &&
            exists joints :: |cs| == |joints| + 1 && Slashes(joints) && text == Weave(cs, joints)
       else (forall c :: c in cs ==> SLASH !in c) && text == Join(cs, [SLASH])
  }

  lemma EncodedSlash()
    ensures Bytes("%2F") == [37, 50, 70] && Bytes("/") == [SLASH]
  {
  }

  lemma {:induction false} SplitEncodedAppend(a: Str, joint: Str, t: Str)
    requires SlashFree(a) && (joint == Bytes("/") || joint == Bytes("%2F"))
    ensures SplitEncoded(a + joint + t) == [a] + SplitEncoded(t)
  {
    EncodedSlash();
    var s := a + joint + t;
    if a == [] {
      assert s[|joint|..] == t;
      if |joint| == 3 {
        assert s[..3] == joint;
      }
    } else {
      assert s[1..] == a[1..] + joint + t;
      SplitEncodedAppend(a[1..], joint, t);
      NoEncodedSlashAcross(a, joint, t);
      assert [s[0]] + a[1..] == a;
    }
  }

  /** No encoded slash stands across the end of a component. */
  lemma NoEncodedSlashAcross(a: Str, joint: Str, t: Str)
    requires a != [] && SlashFree(a) && (joint == Bytes("/") || joint == Bytes("%2F"))
    ensures var s := a + joint + t; !(|s| >= 3 && s[..3] == [37, 50, 70])
  {
    EncodedSlash();
    var s := a + joint + t;
    if |a| >= 3 {
      assert s[..3] == a[..3];
    } else {
      assert s[|a|] == joint[0];
    }
  }

  lemma {:induction false} SplitEncodedFree(a: Str)
    requires SlashFree(a)
    ensures SplitEncoded(a) == [a]
  {
    EncodedSlash();
    if a != [] {
      SplitEncodedFree(a[1..]);
      assert [a[0]] + a[1..] == a;
    }
  }

  lemma {:induction false} SplitOfWeave(cs: seq<Str>, joints: seq<Str>)
    requires |cs| == |joints| + 1 && Slashes(joints) && forall c :: c in cs ==> SlashFree(c)
    ensures SplitEncoded(Weave(cs, joints)) == cs
  {
    assert cs[0] in cs;
    if joints == [] {
      SplitEncodedFree(cs[0]);
    } else {
      assert forall j :: j in joints[1..] ==> j in joints;
      assert forall c :: c in cs[1..] ==> c in cs;
      assert joints[0] in joints;
      SplitOfWeave(cs[1..], joints[1..]);
      SplitEncodedAppend(cs[0], joints[0], Weave(cs[1..], joints[1..]));
    }
  }

  lemma JointFirst(joint: Str, cs: seq<Str>, joints: seq<Str>)
    requires |cs| == |joints| + 1 && Slashes(joints) && (joint == Bytes("/") || joint == Bytes("%2F"))
    ensures Slashes([joint] + joints) && Weave([[]] + cs, [joint] + joints) == joint + Weave(cs, joints)
  {
    var all, more := [[]] + cs, [joint] + joints;
    assert all[1..] == cs && more[1..] == joints;
    assert forall j :: j in more ==> j == joint || j in joints;
    assert Weave(all, more) == [] + joint + Weave(cs, joints);
    assert [] + joint == joint;
  }

  lemma {:induction false} ByteFirst(b: byte, cs: seq<Str>, joints: seq<Str>)
    requires |cs| == |joints| + 1
    ensures cs[0] <= Weave(cs, joints)
    ensures Weave([[b] + cs[0]] + cs[1..], joints) == [b] + Weave(cs, joints)
  {
    if joints != [] {
      assert ([[b] + cs[0]] + cs[1..])[1..] == cs[1..];
      Assoc([b], cs[0] + joints[0], Weave(cs[1..], joints[1..]));
      Assoc([b], cs[0], joints[0]);
    }
  }

  lemma ByteStaysFree(b: byte, c: Str, text: Str)
    requires SlashFree(c) && c <= text && b != SLASH && !(|text| >= 2 && [b] + text[..2] == [37, 50, 70])
    ensures SlashFree([b] + c)
  {
    EncodedSlash();
    var bc := [b] + c;
    assert bc[1..] == c;
    if |c| >= 2 {
      assert text[..2] == c[..2];
      assert bc[..3] == [b] + c[..2];
    }
  }

  lemma {:induction false} WeaveOfSplit(s: Str) returns (joints: seq<Str>)
    ensures |SplitEncoded(s)| == |joints| + 1 && Slashes(joints) && s == Weave(SplitEncoded(s), joints)
    ensures forall c :: c in SplitEncoded(s) ==> SlashFree(c)
  {
    EncodedSlash();
    if s == [] {
      joints := [];
    } else if s[0] == SLASH {
      joints := WeaveOfSplit(s[1..]);
      JointFirst(Bytes("/"), SplitEncoded(s[1..]), joints);
      joints := [Bytes("/")] + joints;
    } else if |s| >= 3 && s[..3] == [37, 50, 70] {
      joints := WeaveOfSplit(s[3..]);
      JointFirst(Bytes("%2F"), SplitEncoded(s[3..]), joints);
      joints := [Bytes("%2F")] + joints;
    } else {
      joints := WeaveOfSplit(s[1..]);
      var rest := SplitEncoded(s[1..]);
      ByteFirst(s[0], rest, joints);
      assert rest[0] in rest;
      assert |s| >= 3 ==> [s[0]] + s[1..][..2] == s[..3];
      ByteStaysFree(s[0], rest[0], s[1..]);
    }
  }

  /** The path components the loop starts from. */
  function Components(r: Incoming, mode: Mode): (cs: seq<Str>)
    requires r.path != []
    ensures |cs| >= 1
  {
    var path := if mode != Legacy && r.rawPath != [] then r.rawPath else r.path;
    if mode == AllCharacters then SplitEncoded(path[1..]) else Split(path[1..], SLASH)
  }

  /** The loop starts from the path as it was written, without its first byte: the raw path when
      escapes count and there is one, else the decoded path. Its components are those between
      slashes, and no others put together give that path. */
  lemma {:induction false} ComponentsExactly(r: Incoming, mode: Mode, cs: seq<Str>)
    requires r.path != []
    ensures Components(r, mode) == cs <==>
      Written(cs, mode, if mode == Legacy || r.rawPath == [] then r.path[1..] else r.rawPath[1..])
  {
    var text := if mode == Legacy || r.rawPath == [] then r.path[1..] else r.rawPath[1..];
    if mode == AllCharacters {
      SplitEncodedExactly(text, cs);
    } else {
      JoinOfSplit(text, SLASH);
      SplitPartsFree(text, SLASH);
      if Written(cs, mode, text) {
        SplitOfJoin(cs, SLASH);
      }
    }
  }

  lemma {:induction false} SplitEncodedExactly(text: Str, cs: seq<Str>)
    ensures SplitEncoded(text) == cs <==> Written(cs, AllCharacters, text)
  {
    var joints := WeaveOfSplit(text);
    if Written(cs, AllCharacters, text) {
      var other :| |cs| == |other| + 1 && Slashes(other) && text == Weave(cs, other);
      SplitOfWeave(cs, other);
    }
  }

  predicate IsPathLengthFallback(disabled: bool, meth: Str, formEncoded: bool) {
    !disabled && meth == POST && formEncoded
  }

  /** What a match under another method leads to. */
  function OtherMethod(h: Handler, params: map<Str, Str>, fallback: bool, formOk: bool): Event {
    if !fallback then Routing(405) else if formOk then Invoke(h.id, params) else FormError
  }

  /** One other method's handlers, tried against the components and verb the loop left. */
  function Scan(hs: seq<Handler>, t: Trial, mode: Mode, fallback: bool, formOk: bool): (seq<Event>, bool)
    requires AllValid(hs)
  {
    if hs == [] then ([], false)
    else
      match MatchSpec(hs[0].pat, t.cs, t.verb, mode)
      case Bound(params) => ([OtherMethod(hs[0], params, fallback, formOk)], true)
      case MalformedPath(e) =>
        var rest := Scan(hs[1..], t, mode, fallback, formOk);
        ([BadEscapeError(e)] + rest.0, rest.1)
      case _ => Scan(hs[1..], t, mode, fallback, formOk)
  }

  predicate TableValid(handlers: map<Str, seq<Handler>>) {
    forall m :: m in handlers ==> AllValid(handlers[m])
  }

  /** The other methods up to some point of an iteration order of the table: the events so far,
      and whether one of them answered. */
  function ScanSome(order: seq<Str>, handlers: map<Str, seq<Handler>>, meth: Str, t: Trial, mode: Mode,
                    fallback: bool, formOk: bool): (seq<Event>, bool)
    requires TableValid(handlers) && forall m :: m in order ==> m in handlers
  {
    if order == [] then ([], false)
    else
      var init, m := order[..|order| - 1], order[|order| - 1];
      var before := ScanSome(init, handlers, meth, t, mode, fallback, formOk);
      if before.1 || m == meth then before
      else
        var here := Scan(handlers[m], t, mode, fallback, formOk);
        (before.0 + here.0, here.1)
  }

  function ScanAll(order: seq<Str>, handlers: map<Str, seq<Handler>>, meth: Str, t: Trial, mode: Mode,
                   fallback: bool, formOk: bool): seq<Event>
    requires TableValid(handlers) && forall m :: m in order ==> m in handlers
  {
    var all := ScanSome(order, handlers, meth, t, mode, fallback, formOk);
    if all.1 then all.0 else all.0 + [Routing(404)]
  }

  /** Once a method has answered, the rest of the order is not looked at. */
  lemma {:induction false} AnsweredStays(a: seq<Str>, b: seq<Str>, handlers: map<Str, seq<Handler>>, meth: Str,
                                         t: Trial, mode: Mode,
                      fallback: bool, formOk: bool)
    requires TableValid(handlers) && forall m :: m in a + b ==> m in handlers
    requires forall m :: m in a ==> m in handlers
    requires ScanSome(a, handlers, meth, t, mode, fallback, formOk).1
    ensures ScanSome(a + b, handlers, meth, t, mode, fallback, formOk) == ScanSome(a, handlers, meth, t, mode, fallback, formOk)
  {
    if b == [] {
      assert a + b == a;
    } else {
      assert (a + b)[..|a + b| - 1] == a + b[..|b| - 1];
      AnsweredStays(a, b[..|b| - 1], handlers, meth, t, mode, fallback, formOk);
    }
  }

  datatype Config = Config(handlers: map<Str, seq<Handler>>, disabled: bool, mode: Mode)

  function EffectiveMethod(c: Config, r: Incoming): Str {
    if r.override != [] && IsPathLengthFallback(c.disabled, r.meth, r.formEncoded) then ToUpper(r.override) else r.meth
  }

  /** Serving as a function of the table, the request and the order in which a range over the
      table visits its methods. */
  function ServeSpec(c: Config, r: Incoming, order: seq<Str>): seq<Event>
    requires TableValid(c.handlers) && forall m :: m in order ==> m in c.handlers
  {
    if !r.hookOk then [HookError]
    else if r.path == [] || r.path[0] != SLASH then [Routing(400)]
    else if r.override != [] && IsPathLengthFallback(c.disabled, r.meth, r.formEncoded) && !r.formOk then [FormError]
    else
      RouteSpec(c, r, EffectiveMethod(c, r), Components(r, c.mode), order)
  }

  /** From the components on: the handlers of the method, then the other methods. */
  function RouteSpec(c: Config, r: Incoming, meth: Str, components: seq<Str>, order: seq<Str>): seq<Event>
    requires TableValid(c.handlers) && |components| > 0 && forall m :: m in order ==> m in c.handlers
  {
    var t := Try(Lookup(c.handlers, meth), components, [], c.mode);
    if t.done then t.events
    else t.events + ScanAll(order, c.handlers, meth, t, c.mode, IsPathLengthFallback(c.disabled, meth, r.formEncoded), r.formOk)
  }

  /** An iteration order: every method of the table, once. */
  ghost predicate IsOrder(order: seq<Str>, handlers: map<Str, seq<Handler>>) {
    Enumerates(order, handlers.Keys)
  }

  lemma SomeOrder(handlers: map<Str, seq<Handler>>) returns (order: seq<Str>)
    ensures IsOrder(order, handlers)
  {
    order := Complete([], {}, handlers.Keys);
    assert [] + order == order && {} + handlers.Keys == handlers.Keys;
  }

  /** A request under way: the method may be overwritten while it is served. */
  class Request {
    const incoming: Incoming
    var meth: Str

    constructor (incoming: Incoming)
      ensures this.incoming == incoming && meth == incoming.meth
    {
      this.incoming := incoming;
      meth := incoming.meth;
    }
  }

  /** The registrations for a method, newest first. */
  function Newest(registered: seq<(Str, Handler)>, meth: Str): seq<Handler> {
    if registered == [] then []
    else
      var init, last := registered[..|registered| - 1], registered[|registered| - 1];
      (if last.0 == meth then [last.1] else []) + Newest(init, meth)
  }

  lemma NewestNext(registered: seq<(Str, Handler)>, meth: Str, h: Handler, m: Str)
    ensures Newest(registered + [(meth, h)], m) == (if meth == m then [h] else []) + Newest(registered, m)
    ensures meth != m ==> Newest(registered + [(meth, h)], m) == Newest(registered, m)
  {
    assert (registered + [(meth, h)])[..|registered|] == registered;
    assert [] + Newest(registered, m) == Newest(registered, m);
  }

  predicate AllRegisteredValid(registered: seq<(Str, Handler)>) {
    forall i :: 0 <= i < |registered| ==> Valid(registered[i].1.pat)
  }

  /** The table holds the registrations, newest first. */
  ghost predicate TableOf(handlers: map<Str, seq<Handler>>, registered: seq<(Str, Handler)>) {
    && TableValid(handlers)
    && AllRegisteredValid(registered)
    && forall m :: Lookup(handlers, m) == Newest(registered, m)
  }

  lemma {:induction false} HandleKeeps(handlers: map<Str, seq<Handler>>, registered: seq<(Str, Handler)>, meth: Str, h: Handler)
    requires TableOf(handlers, registered) && Valid(h.pat)
    ensures TableOf(handlers[meth := [h] + Lookup(handlers, meth)], registered + [(meth, h)])
  {
    var now, all := handlers[meth := [h] + Lookup(handlers, meth)], registered + [(meth, h)];
    forall m ensures Lookup(now, m) == Newest(all, m) {
      LookupNext(handlers, registered, meth, h, m);
    }
    PrependValid(handlers, meth, h);
  }

  lemma {:induction false} LookupNext(handlers: map<Str, seq<Handler>>, registered: seq<(Str, Handler)>, meth: Str,
                                      h: Handler, m: Str)
    requires Lookup(handlers, m) == Newest(registered, m)
    ensures Lookup(handlers[meth := [h] + Lookup(handlers, meth)], m) == Newest(registered + [(meth, h)], m)
  {
    NewestNext(registered, meth, h, m);
  }

  lemma PrependValid(handlers: map<Str, seq<Handler>>, meth: Str, h: Handler)
    requires TableValid(handlers) && Valid(h.pat)
    ensures TableValid(handlers[meth := [h] + Lookup(handlers, meth)])
  {
    assert AllValid([h] + Lookup(handlers, meth));
  }

  /** The loop over the request's own method has come this far: trying the remaining handlers is
      all that is left of the goal. */
  predicate TriesOn(goal: Trial, events: seq<Event>, hs: seq<Handler>, cs: seq<Str>, verb: Str, mode: Mode)
    requires AllValid(hs) && |cs| > 0
  {
    var rest := Try(hs, cs, verb, mode);
    goal == rest.(events := events + rest.events)
  }

  /** One round of that loop. */
  lemma {:induction false} TryRound(goal: Trial, events: seq<Event>, hs: seq<Handler>, cs: seq<Str>, verb: Str, mode: Mode)
    requires hs != [] && AllValid(hs) && |cs| > 0 && TriesOn(goal, events, hs, cs, verb, mode)
    ensures
      var p := hs[0].pat;
      var cs', verb' := CutComponents(p, cs), CutVerb(p, cs, verb);
      if VerbAt(p.verb, Last(cs)) == 0 then goal == Trial(events + [Routing(404)], true, cs, verb)
      else
        match MatchSpec(p, cs', verb', mode)
        case Bound(params) => goal == Trial(events + [Invoke(hs[0].id, params)], true, cs', verb')
        case MalformedPath(e) => TriesOn(goal, events + [BadEscapeError(e)], hs[1..], cs', verb', mode)
        case _ => TriesOn(goal, events, hs[1..], cs', verb', mode)
  {
    var p := hs[0].pat;
    var cs', verb' := CutComponents(p, cs), CutVerb(p, cs, verb);
    match MatchSpec(p, cs', verb', mode)
    case MalformedPath(e) => Assoc(events, [BadEscapeError(e)], Try(hs[1..], cs', verb', mode).events);
    case _ =>
  }

  /** The same for the loop over another method's handlers. */
  predicate ScansOn(goal: (seq<Event>, bool), events: seq<Event>, hs: seq<Handler>, t: Trial, mode: Mode,
                    fallback: bool, formOk: bool)
    requires AllValid(hs)
  {
    var rest := Scan(hs, t, mode, fallback, formOk);
    goal == (events + rest.0, rest.1)
  }

  lemma {:induction false} ScanRound(goal: (seq<Event>, bool), events: seq<Event>, hs: seq<Handler>, t: Trial,
                                     mode: Mode, fallback: bool, formOk: bool,
                                     m: Match)
    requires hs != [] && AllValid(hs) && ScansOn(goal, events, hs, t, mode, fallback, formOk)
    requires m == MatchSpec(hs[0].pat, t.cs, t.verb, mode)
    ensures
      match m
      case Bound(params) => goal == (events + [OtherMethod(hs[0], params, fallback, formOk)], true)
      case MalformedPath(e) => ScansOn(goal, events + [BadEscapeError(e)], hs[1..], t, mode, fallback, formOk)
      case _ => ScansOn(goal, events, hs[1..], t, mode, fallback, formOk)
  {
    match MatchSpec(hs[0].pat, t.cs, t.verb, mode)
    case MalformedPath(e) => Assoc(events, [BadEscapeError(e)], Scan(hs[1..], t, mode, fallback, formOk).0);
    case _ =>
  }

  class ServeMux {
    var handlers: map<Str, seq<Handler>>
    const disabled: bool
    const mode: Mode
    ghost var registered: seq<(Str, Handler)>

    constructor (disabled: bool, mode: Mode)
      ensures Consistent() && registered == [] && this.disabled == disabled && this.mode == mode
    {
      handlers := map[];
      this.disabled, this.mode := disabled, mode;
      registered := [];
    }

    ghost predicate Consistent()
      reads this
    {
      TableOf(handlers, registered)
    }

    function Settings(): Config
      reads this
    {
      Config(handlers, disabled, mode)
    }

    /** `Handle`: the newest registration comes first for its method; the others stay as they are. */
    method Handle(meth: Str, pat: Pattern, id: nat)
      requires Consistent() && Valid(pat)
      modifies this
      ensures Consistent()
      ensures registered == old(registered) + [(meth, Handler(pat, id))]
      ensures handlers == old(handlers)[meth := [Handler(pat, id)] + Lookup(old(handlers), meth)]
    {
      var h := Handler(pat, id);
      var before := if meth in handlers then handlers[meth] else [];
      HandleKeeps(handlers, registered, meth, h);
      handlers := handlers[meth := [h] + before];
      registered := registered + [(meth, h)];
    }

    /** The start of a round of the loop: the pattern's verb is looked for at the end of the last
        component; found there, it is cut off and kept. */
    method CutOff(patVerb: Str, components: seq<Str>, verb: Str, ghost p: Pattern)
      returns (abort: bool, cs: seq<Str>, v: Str)
      requires |components| > 0 && p.verb == patVerb
      ensures abort <==> VerbAt(patVerb, Last(components)) == 0
      ensures cs == CutComponents(p, components) && v == CutVerb(p, components, verb)
    {
      cs, v := components, verb;
      var l := |components|;
      var lastComponent := components[l - 1];
      var idx := -1;
      if patVerb != [] && HasSuffix(lastComponent, [COLON] + patVerb) {
        idx := |lastComponent| - |patVerb| - 1;
      }
      abort := idx == 0;
      if idx > 0 {
        cs, v := components[..l - 1] + [lastComponent[..idx]], lastComponent[idx + 1..];
      }
    }

    /** The loop over the request's own method, overwriting components and verb as it goes. */
    method TryHandlers(hs: seq<Handler>, components: seq<Str>) returns (t: Trial)
      requires AllValid(hs) && |components| > 0
      ensures t == Try(hs, components, [], mode)
    {
      ghost var goal := Try(hs, components, [], mode);
      var cs, verb, events := components, [], [];
      var i := 0;
      assert hs[0..] == hs && [] + goal.events == goal.events;
      while i < |hs|
        invariant 0 <= i <= |hs| && |cs| > 0
        invariant TriesOn(goal, events, hs[i..], cs, verb, mode)
      {
        var h := hs[i];
        assert hs[i..][1..] == hs[i + 1..];
        TryRound(goal, events, hs[i..], cs, verb, mode);
        var abort;
        abort, cs, verb := CutOff(h.pat.verb, cs, verb, h.pat);
        if abort {
          return Trial(events + [Routing(404)], true, cs, verb);
        }
        var m := MatchAndEscape(h.pat, cs, verb, mode);
        match m {
          case Bound(params) =>
            return Trial(events + [Invoke(h.id, params)], true, cs, verb);
          case MalformedPath(e) =>
            events := events + [BadEscapeError(e)];
          case NotMatch =>
        }
        i := i + 1;
      }
      assert events + [] == events;
      return Trial(events, false, cs, verb);
    }

    /** A match under another method: in the fallback the handler is called if the form parses, else
        the method is not allowed. */
    method AnswerOther(h: Handler, params: map<Str, Str>, r: Request) returns (event: Event)
      ensures event ==
        OtherMethod(h, params, IsPathLengthFallback(disabled, r.meth, r.incoming.formEncoded), r.incoming.formOk)
    {
      if IsPathLengthFallback(disabled, r.meth, r.incoming.formEncoded) {
        if !r.incoming.formOk {
          return FormError;
        }
        return Invoke(h.id, params);
      }
      return Routing(405);
    }

    /** One round of the loop over another method's handlers. */
    method ScanHandler(h: Handler, t: Trial, r: Request, ghost hs: seq<Handler>, ghost goal: (seq<Event>, bool),
                       ghost events: seq<Event>)
      returns (more: seq<Event>, done: bool)
      requires hs != [] && AllValid(hs) && hs[0] == h
      requires ScansOn(goal, events, hs, t, mode, IsPathLengthFallback(disabled, r.meth, r.incoming.formEncoded), r.incoming.formOk)
      ensures AllValid(hs[1..])
      ensures
        var fallback := IsPathLengthFallback(disabled, r.meth, r.incoming.formEncoded);
        if done then goal == (events + more, true)
        else ScansOn(goal, events + more, hs[1..], t, mode, fallback, r.incoming.formOk)
    {
      var m := MatchAndEscape(h.pat, t.cs, t.verb, mode);
      ScanRound(goal, events, hs, t, mode, IsPathLengthFallback(disabled, r.meth, r.incoming.formEncoded), r.incoming.formOk, m);
      match m {
        case Bound(params) =>
          var answer := AnswerOther(h, params, r);
          return [answer], true;
        case MalformedPath(e) =>
          return [BadEscapeError(e)], false;
        case NotMatch =>
          assert events + [] == events;
          return [], false;
      }
    }

    /** The loop over one other method's handlers. */
    method ScanHandlers(hs: seq<Handler>, t: Trial, r: Request) returns (events: seq<Event>, done: bool)
      requires AllValid(hs)
      ensures (events, done) ==
        Scan(hs, t, mode, IsPathLengthFallback(disabled, r.meth, r.incoming.formEncoded), r.incoming.formOk)
    {
      ghost var fallback := IsPathLengthFallback(disabled, r.meth, r.incoming.formEncoded);
      ghost var goal := Scan(hs, t, mode, fallback, r.incoming.formOk);
      events, done := [], false;
      ghost var rest := hs;
      assert [] + goal.0 == goal.0;
      for i := 0 to |hs|
        invariant !done && rest == hs[i..] && AllValid(rest)
        invariant ScansOn(goal, events, rest, t, mode, fallback, r.incoming.formOk)
      {
        var more;
        more, done := ScanHandler(hs[i], t, r, rest, goal, events);
        events := events + more;
        if done {
          return;
        }
        rest := rest[1..];
      }
      assert rest == [] && events + [] == events;
    }

    /** `ServeHTTP`: the events are those of the specification for some iteration order of the
        table, and the request's method is overwritten exactly by an accepted override. */
    method ServeHTTP(r: Request) returns (events: seq<Event>, ghost order: seq<Str>)
      requires Consistent() && r.meth == r.incoming.meth
      modifies r`meth
      ensures IsOrder(order, handlers)
      ensures events == ServeSpec(Settings(), r.incoming, order)
      ensures r.meth ==
        if r.incoming.hookOk && r.incoming.path != [] && r.incoming.path[0] == SLASH
        then EffectiveMethod(Settings(), r.incoming) else r.incoming.meth
    {
      order := SomeOrder(handlers);
      if !r.incoming.hookOk {
        return [HookError], order;
      }
      var path := r.incoming.path;
      if !(|path| > 0 && path[0] == SLASH) {
        return [Routing(400)], order;
      }
      if mode != Legacy && r.incoming.rawPath != [] {
        path := r.incoming.rawPath;
      }
      var components;
      if mode == AllCharacters {
        components := SplitEncoded(path[1..]);
      } else {
        components := Split(path[1..], SLASH);
      }
      if r.incoming.override != [] && IsPathLengthFallback(disabled, r.meth, r.incoming.formEncoded) {
        r.meth := ToUpper(r.incoming.override);
        if !r.incoming.formOk {
          return [FormError], order;
        }
      }
      events, order := Route(components, r);
    }

    /** The handlers of the request's method, then the fallback over the other methods. */
    method Route(components: seq<Str>, r: Request) returns (events: seq<Event>, ghost order: seq<Str>)
      requires Consistent() && |components| > 0
      ensures IsOrder(order, handlers)
      ensures events == RouteSpec(Settings(), r.incoming, r.meth, components, order)
    {
      var t := TryHandlers(Lookup(handlers, r.meth), components);
      if t.done {
        order := SomeOrder(handlers);
        return t.events, order;
      }
      var more;
      more, order := ScanMethods(t, r);
      return t.events + more, order;
    }

    /** The range over the whole table, in whatever order it comes. */
    method ScanMethods(t: Trial, r: Request) returns (events: seq<Event>, ghost order: seq<Str>)
      requires Consistent()
      ensures IsOrder(order, handlers)
      ensures events == ScanAll(order, handlers, r.meth, t, mode,
        IsPathLengthFallback(disabled, r.meth, r.incoming.formEncoded), r.incoming.formOk)
    {
      ghost var fallback := IsPathLengthFallback(disabled, r.meth, r.incoming.formEncoded);
      events, order := [], [];
      var remaining := handlers.Keys;
      while remaining != {}
        invariant remaining <= handlers.Keys
        invariant Enumerates(order, handlers.Keys - remaining)
        invariant (events, false) == ScanSome(order, handlers, r.meth, t, mode, fallback, r.incoming.formOk)
      {
        var m :| m in remaining;
        ghost var before, seen := order, handlers.Keys - remaining;
        remaining := remaining - {m};
        EnumerateMore(order, seen, m);
        assert seen + {m} == handlers.Keys - remaining;
        order := order + [m];
        assert order[..|order| - 1] == before;
        if m == r.meth {
          continue;
        }
        var more, done := ScanHandlers(handlers[m], t, r);
        events := events + more;
        if done {
          ghost var rest := Complete(order, handlers.Keys - remaining, remaining);
          assert handlers.Keys - remaining + remaining == handlers.Keys;
          AnsweredStays(order, rest, handlers, r.meth, t, mode, fallback, r.incoming.formOk);
          order := order + rest;
          return;
        }
      }
      assert handlers.Keys - remaining == handlers.Keys;
      events := events + [Routing(404)];
    }
  }

  // ---- The other methods as one list of handlers ----

  /** The handlers of the other methods, in the order in which the range comes to them. */
  function Others(order: seq<Str>, handlers: map<Str, seq<Handler>>, meth: Str): seq<Handler>
    requires forall m :: m in order ==> m in handlers
  {
    if order == [] then []
    else
      var init, m := order[..|order| - 1], order[|order| - 1];
      Others(init, handlers, meth) + if m == meth then [] else handlers[m]
  }

  lemma {:induction false} OthersValid(order: seq<Str>, handlers: map<Str, seq<Handler>>, meth: Str)
    requires TableValid(handlers) && forall m :: m in order ==> m in handlers
    ensures AllValid(Others(order, handlers, meth))
  {
    if order != [] {
      assert order[|order| - 1] in order;
      OthersValid(order[..|order| - 1], handlers, meth);
    }
  }

  /** The malformed escape a match reports, if it does. */
  function Reported(m: Match): seq<Event> {
    if m.MalformedPath? then [BadEscapeError(m.escape)] else []
  }

  /** What handler k makes of the components and verb left. */
  function MatchAt(hs: seq<Handler>, k: nat, t: Trial, mode: Mode): Match
    requires k < |hs| && AllValid(hs)
  {
    MatchSpec(hs[k].pat, t.cs, t.verb, mode)
  }

  lemma {:induction false} ScanStep(hs: seq<Handler>, t: Trial, mode: Mode, fallback: bool, formOk: bool, m: Match)
    requires hs != [] && AllValid(hs) && m == MatchAt(hs, 0, t, mode)
    ensures
      var rest := Scan(hs[1..], t, mode, fallback, formOk);
      Scan(hs, t, mode, fallback, formOk) ==
        if m.Bound? then ([OtherMethod(hs[0], m.bindings, fallback, formOk)], true) else (Reported(m) + rest.0, rest.1)
  {
    assert [] + Scan(hs[1..], t, mode, fallback, formOk).0 == Scan(hs[1..], t, mode, fallback, formOk).0;
  }

  lemma {:induction false} ScanAppend(a: seq<Handler>, b: seq<Handler>, t: Trial, mode: Mode, fallback: bool, formOk: bool)
    requires AllValid(a) && AllValid(b) && AllValid(a + b)
    ensures
      var first, second := Scan(a, t, mode, fallback, formOk), Scan(b, t, mode, fallback, formOk);
      Scan(a + b, t, mode, fallback, formOk) == if first.1 then first else (first.0 + second.0, second.1)
  {
    if a == [] {
      assert a + b == b;
      assert [] + Scan(b, t, mode, fallback, formOk).0 == Scan(b, t, mode, fallback, formOk).0;
    } else {
      var m := MatchAt(a, 0, t, mode);
      assert (a + b)[1..] == a[1..] + b && (a + b)[0] == a[0];
      ScanStep(a, t, mode, fallback, formOk, m);
      ScanStep(a + b, t, mode, fallback, formOk, m);
      ScanAppend(a[1..], b, t, mode, fallback, formOk);
      Assoc(Reported(m), Scan(a[1..], t, mode, fallback, formOk).0, Scan(b, t, mode, fallback, formOk).0);
    }
  }

  /** The range over the other methods is one pass over all their handlers. */
  lemma {:induction false} ScanIsOnePass(order: seq<Str>, handlers: map<Str, seq<Handler>>, meth: Str, t: Trial, mode: Mode,
                                         fallback: bool, formOk: bool)
    requires TableValid(handlers) && forall m :: m in order ==> m in handlers
    ensures AllValid(Others(order, handlers, meth))
    ensures ScanSome(order, handlers, meth, t, mode, fallback, formOk) == Scan(Others(order, handlers, meth), t, mode, fallback, formOk)
  {
    OthersValid(order, handlers, meth);
    if order != [] {
      var init, m := order[..|order| - 1], order[|order| - 1];
      assert m in order;
      ScanIsOnePass(init, handlers, meth, t, mode, fallback, formOk);
      ScanAppend(Others(init, handlers, meth), if m == meth then [] else handlers[m], t, mode, fallback, formOk);
      var before := ScanSome(init, handlers, meth, t, mode, fallback, formOk);
      assert before.0 + [] == before.0;
    }
  }

  /** The malformed escapes that these handlers meet. */
  function Met(hs: seq<Handler>, t: Trial, mode: Mode): seq<Event>
    requires AllValid(hs)
  {
    if hs == [] then [] else Reported(MatchAt(hs, 0, t, mode)) + Met(hs[1..], t, mode)
  }

  /** The handler at k matches, and none before it. */
  predicate FirstBound(hs: seq<Handler>, k: nat, t: Trial, mode: Mode)
    requires AllValid(hs)
  {
    k < |hs| && MatchAt(hs, k, t, mode).Bound? && NoneBefore(hs, k, t, mode)
  }

  predicate NoneBefore(hs: seq<Handler>, k: nat, t: Trial, mode: Mode)
    requires k <= |hs| && AllValid(hs)
  {
    forall j: nat :: j < k ==> !MatchAt(hs, j, t, mode).Bound?
  }

  /** The answer of the handler at k. */
  function AnswerAt(hs: seq<Handler>, k: nat, t: Trial, mode: Mode, fallback: bool, formOk: bool): seq<Event>
    requires k < |hs| && AllValid(hs) && MatchAt(hs, k, t, mode).Bound?
  {
    [OtherMethod(hs[k], MatchAt(hs, k, t, mode).bindings, fallback, formOk)]
  }

  lemma NoneInRest(hs: seq<Handler>, k: nat, t: Trial, mode: Mode)
    requires 0 < k <= |hs| && AllValid(hs) && NoneBefore(hs, k, t, mode)
    ensures !MatchAt(hs, 0, t, mode).Bound? && NoneBefore(hs[1..], k - 1, t, mode)
  {
    forall j: nat | j < k - 1 ensures !MatchAt(hs[1..], j, t, mode).Bound? {
      assert !MatchAt(hs, j + 1, t, mode).Bound?;
    }
  }

  /** Such a pass reports the malformed escapes met before the first handler that matches, and then
      gives the answer of that one. */
  lemma {:induction false} PassAnswers(hs: seq<Handler>, k: nat, t: Trial, mode: Mode, fallback: bool, formOk: bool)
    requires AllValid(hs) && FirstBound(hs, k, t, mode)
    ensures Scan(hs, t, mode, fallback, formOk) == (Met(hs[..k], t, mode) + AnswerAt(hs, k, t, mode, fallback, formOk), true)
  {
    var m := MatchAt(hs, 0, t, mode);
    ScanStep(hs, t, mode, fallback, formOk, m);
    if k > 0 {
      NoneInRest(hs, k, t, mode);
      PassAnswers(hs[1..], k - 1, t, mode, fallback, formOk);
      assert hs[..k][1..] == hs[1..][..k - 1] && hs[..k][0] == hs[0];
      assert hs[1..][k - 1] == hs[k];
      Assoc(Reported(m), Met(hs[1..][..k - 1], t, mode), AnswerAt(hs, k, t, mode, fallback, formOk));
    } else {
      assert hs[..0] == [] && [] + AnswerAt(hs, 0, t, mode, fallback, formOk) == AnswerAt(hs, 0, t, mode, fallback, formOk);
    }
  }

  lemma {:induction false} PassFails(hs: seq<Handler>, t: Trial, mode: Mode, fallback: bool, formOk: bool)
    requires AllValid(hs) && NoneBefore(hs, |hs|, t, mode)
    ensures Scan(hs, t, mode, fallback, formOk) == (Met(hs, t, mode), false)
  {
    if hs != [] {
      ScanStep(hs, t, mode, fallback, formOk, MatchAt(hs, 0, t, mode));
      NoneInRest(hs, |hs|, t, mode);
      PassFails(hs[1..], t, mode, fallback, formOk);
    }
  }

  /** What the other methods come to, in every mode and on every path: the malformed escapes that
      their handlers meet, in the order of the range, up to the first one that matches, and its
      answer; or all of them, and then 404. */
  lemma {:induction false} OthersAnswer(order: seq<Str>, handlers: map<Str, seq<Handler>>, meth: Str, t: Trial, mode: Mode,
                                        fallback: bool, formOk: bool)
    requires TableValid(handlers) && forall m :: m in order ==> m in handlers
    requires AllValid(Others(order, handlers, meth))
    ensures
      var hs := Others(order, handlers, meth);
      var events := ScanAll(order, handlers, meth, t, mode, fallback, formOk);
      && (forall k: nat :: FirstBound(hs, k, t, mode) ==>
            events == Met(hs[..k], t, mode) + AnswerAt(hs, k, t, mode, fallback, formOk))
      && (NoneBefore(hs, |hs|, t, mode) ==> events == Met(hs, t, mode) + [Routing(404)])
  {
    var hs := Others(order, handlers, meth);
    ScanIsOnePass(order, handlers, meth, t, mode, fallback, formOk);
    forall k: nat | FirstBound(hs, k, t, mode)
      ensures Scan(hs, t, mode, fallback, formOk) == (Met(hs[..k], t, mode) + AnswerAt(hs, k, t, mode, fallback, formOk), true)
    {
      PassAnswers(hs, k, t, mode, fallback, formOk);
    }
    if NoneBefore(hs, |hs|, t, mode) {
      PassFails(hs, t, mode, fallback, formOk);
    }
  }

  // ---- What one request gets ----

  /** The answer of a request's own method: a handler call, or 404 for a component that is all verb. */
  predicate OwnAnswer(events: seq<Event>) {
    |events| == 1 && (events[0].Invoke? || events[0] == Routing(404))
  }

  lemma {:induction false} TryStaysCalm(hs: seq<Handler>, cs: seq<Str>, verb: Str, mode: Mode)
    requires AllValid(hs) && |cs| > 0 && CalmState(mode, cs, verb)
    ensures CalmState(mode, Try(hs, cs, verb, mode).cs, Try(hs, cs, verb, mode).verb)
  {
    if hs != [] && VerbAt(hs[0].pat.verb, Last(cs)) != 0 {
      CutIsCalm(hs[0].pat, cs, verb, mode);
      TryStaysCalm(hs[1..], CutComponents(hs[0].pat, cs), CutVerb(hs[0].pat, cs, verb), mode);
    }
  }

  lemma {:induction false} TryAnswers(hs: seq<Handler>, cs: seq<Str>, verb: Str, mode: Mode)
    requires AllValid(hs) && |cs| > 0 && CalmState(mode, cs, verb)
    ensures
      var t := Try(hs, cs, verb, mode);
      if t.done then OwnAnswer(t.events) else t.events == []
  {
    if hs != [] && VerbAt(hs[0].pat.verb, Last(cs)) != 0 {
      var p := hs[0].pat;
      CutIsCalm(p, cs, verb, mode);
      CalmOutcome(p, CutComponents(p, cs), CutVerb(p, cs, verb), mode);
      TryAnswers(hs[1..], CutComponents(p, cs), CutVerb(p, cs, verb), mode);
    }
  }

  /** Some pattern of the list matches what the loop left of the path. */
  predicate SomeMatch(hs: seq<Handler>, t: Trial, mode: Mode)
    requires AllValid(hs)
  {
    hs != [] && (MatchSpec(hs[0].pat, t.cs, t.verb, mode).Bound? || SomeMatch(hs[1..], t, mode))
  }

  /** The answer a match under another method gives: 405, or in the fallback a handler call or
      the complaint about its form. */
  predicate OtherAnswer(events: seq<Event>, fallback: bool, formOk: bool) {
    |events| == 1 &&
    if !fallback then events[0] == Routing(405) else if formOk then events[0].Invoke? else events[0] == FormError
  }

  lemma {:induction false} ScanAnswers(hs: seq<Handler>, t: Trial, mode: Mode, fallback: bool, formOk: bool)
    requires AllValid(hs) && CalmState(mode, t.cs, t.verb)
    ensures
      var r := Scan(hs, t, mode, fallback, formOk);
      && r.1 == SomeMatch(hs, t, mode)
      && if r.1 then OtherAnswer(r.0, fallback, formOk) else r.0 == []
  {
    if hs != [] {
      CalmOutcome(hs[0].pat, t.cs, t.verb, mode);
      ScanAnswers(hs[1..], t, mode, fallback, formOk);
    }
  }

  /** Some pattern under a method other than this one matches. */
  predicate OtherMatches(handlers: map<Str, seq<Handler>>, meth: Str, t: Trial, mode: Mode)
    requires TableValid(handlers)
  {
    exists m :: m in handlers && m != meth && SomeMatch(handlers[m], t, mode)
  }

  lemma {:induction false} ScanSomeAnswers(order: seq<Str>, handlers: map<Str, seq<Handler>>, meth: Str, t: Trial, mode: Mode,
                                           fallback: bool, formOk: bool)
    requires TableValid(handlers) && CalmState(mode, t.cs, t.verb) && forall m :: m in order ==> m in handlers
    ensures
      var r := ScanSome(order, handlers, meth, t, mode, fallback, formOk);
      && (r.1 <==> exists m :: m in order && m != meth && SomeMatch(handlers[m], t, mode))
      && if r.1 then OtherAnswer(r.0, fallback, formOk) else r.0 == []
  {
    if order != [] {
      var init, last := order[..|order| - 1], order[|order| - 1];
      assert forall m :: m in order <==> m in init || m == last;
      ScanSomeAnswers(init, handlers, meth, t, mode, fallback, formOk);
      ScanAnswers(handlers[last], t, mode, fallback, formOk);
    }
  }

  /** A POST of a form, where such a POST may stand for another method. */
  predicate FormPost(c: Config, r: Incoming, meth: Str) {
    !c.disabled && meth == Bytes("POST") && r.formEncoded
  }

  /** The method a request is for: the overriding one, in capitals, if it is such a POST and has one. */
  function MethodOf(c: Config, r: Incoming): Str {
    if r.override != [] && FormPost(c, r, r.meth) then ToUpper(r.override) else r.meth
  }

  /** The request reaches the routing loop. */
  predicate Admitted(c: Config, r: Incoming) {
    && r.hookOk && r.path != [] && r.path[0] == SLASH
    && (r.override != [] && FormPost(c, r, r.meth) ==> r.formOk)
  }

  /** What the routing loop of the request's own method leaves behind. */
  function OwnTrial(c: Config, r: Incoming): Trial
    requires TableValid(c.handlers) && Admitted(c, r)
  {
    Try(Lookup(c.handlers, MethodOf(c, r)), Components(r, c.mode), [], c.mode)
  }

  /** The request's own method leaves it open, and a pattern under another method matches. */
  predicate OnlyOtherMethods(c: Config, r: Incoming)
    requires TableValid(c.handlers) && Admitted(c, r)
  {
    !OwnTrial(c, r).done && OtherMatches(c.handlers, MethodOf(c, r), OwnTrial(c, r), c.mode)
  }

  /** A request whose path decodes is answered by its own method, or else by a match under another
      method, or else by 404. */
  lemma {:induction false} ThreeWays(c: Config, r: Incoming, order: seq<Str>)
    requires TableValid(c.handlers) && IsOrder(order, c.handlers) && Admitted(c, r) && Calm(c.mode, Components(r, c.mode))
    ensures
      var events, fallback := ServeSpec(c, r, order), FormPost(c, r, MethodOf(c, r));
      if OwnTrial(c, r).done then OwnAnswer(events)
      else if OnlyOtherMethods(c, r) then OtherAnswer(events, fallback, r.formOk)
      else events == [Routing(404)]
  {
    var meth, t := MethodOf(c, r), OwnTrial(c, r);
    TryAnswers(Lookup(c.handlers, meth), Components(r, c.mode), [], c.mode);
    if !t.done {
      LeftOpen(c, r, order, meth, t);
    }
  }

  /** What becomes of a request that its own method leaves open. */
  lemma {:induction false} LeftOpen(c: Config, r: Incoming, order: seq<Str>, meth: Str, t: Trial)
    requires TableValid(c.handlers) && IsOrder(order, c.handlers) && Admitted(c, r) && Calm(c.mode, Components(r, c.mode))
    requires meth == MethodOf(c, r) && t == OwnTrial(c, r) && !t.done && t.events == []
    ensures
      var events, fallback := ServeSpec(c, r, order), FormPost(c, r, meth);
      if OtherMatches(c.handlers, meth, t, c.mode) then OtherAnswer(events, fallback, r.formOk) else events == [Routing(404)]
  {
    var fallback := FormPost(c, r, meth);
    TryStaysCalm(Lookup(c.handlers, meth), Components(r, c.mode), [], c.mode);
    ScanSomeAnswers(order, c.handlers, meth, t, c.mode, fallback, r.formOk);
    assert forall m :: m in order <==> m in c.handlers;
    assert ServeSpec(c, r, order) == [] + ScanAll(order, c.handlers, meth, t, c.mode, fallback, r.formOk);
  }

  /** Outside the path-length fallback a request is answered 405 exactly when its own method
      leaves it open and some pattern under another method matches the components and verb left;
      inside it, never. No iteration order shows in that. */
  lemma {:induction false} NotAllowedExactly(c: Config, r: Incoming, order: seq<Str>)
    requires TableValid(c.handlers) && IsOrder(order, c.handlers) && Admitted(c, r) && Calm(c.mode, Components(r, c.mode))
    ensures ServeSpec(c, r, order) == [Routing(405)] <==>
      OnlyOtherMethods(c, r) && !FormPost(c, r, MethodOf(c, r))
    ensures !OwnTrial(c, r).done ==> (ServeSpec(c, r, order) == [Routing(404)] <==> !OnlyOtherMethods(c, r))
  {
    ThreeWays(c, r, order);
  }

  /** A request that is not admitted gets the answer of the first thing that is wrong with it, and an
      admitted one none of those. */
  lemma {:induction false} TurnedAway(c: Config, r: Incoming, order: seq<Str>)
    requires TableValid(c.handlers) && IsOrder(order, c.handlers)
    ensures !r.hookOk <==> ServeSpec(c, r, order) == [HookError]
    ensures r.hookOk && !(Bytes("/") <= r.path) <==> ServeSpec(c, r, order) == [Routing(400)]
    ensures r.hookOk && Bytes("/") <= r.path && !Admitted(c, r) ==> ServeSpec(c, r, order) == [FormError]
  {
    var slash := Bytes("/");
    assert slash == [SLASH] && (slash <= r.path <==> r.path != [] && r.path[0] == SLASH);
    if Admitted(c, r) {
      OnlyRouted(c, r, order);
      assert HookError in [HookError] && Routing(400) in [Routing(400)];
    }
  }

  /** Routing answers with neither of these. */
  predicate RoutedEvent(e: Event) {
    e != HookError && e != Routing(400)
  }

  lemma {:induction false} TryRoutes(hs: seq<Handler>, cs: seq<Str>, verb: Str, mode: Mode)
    requires AllValid(hs) && |cs| > 0
    ensures forall e :: e in Try(hs, cs, verb, mode).events ==> RoutedEvent(e)
  {
    if hs != [] && VerbAt(hs[0].pat.verb, Last(cs)) != 0 {
      TryStep(hs, cs, verb, mode, MatchSpec(hs[0].pat, CutComponents(hs[0].pat, cs), CutVerb(hs[0].pat, cs, verb), mode));
      TryRoutes(hs[1..], CutComponents(hs[0].pat, cs), CutVerb(hs[0].pat, cs, verb), mode);
    }
  }

  lemma {:induction false} ScanRoutes(hs: seq<Handler>, t: Trial, mode: Mode, fallback: bool, formOk: bool)
    requires AllValid(hs)
    ensures forall e :: e in Scan(hs, t, mode, fallback, formOk).0 ==> RoutedEvent(e)
  {
    if hs != [] {
      ScanRoutes(hs[1..], t, mode, fallback, formOk);
    }
  }

  lemma {:induction false} ScanSomeRoutes(order: seq<Str>, handlers: map<Str, seq<Handler>>, meth: Str, t: Trial, mode: Mode,
                                          fallback: bool, formOk: bool)
    requires TableValid(handlers) && forall m :: m in order ==> m in handlers
    ensures forall e :: e in ScanSome(order, handlers, meth, t, mode, fallback, formOk).0 ==> RoutedEvent(e)
  {
    if order != [] {
      var last := order[|order| - 1];
      ScanSomeRoutes(order[..|order| - 1], handlers, meth, t, mode, fallback, formOk);
      assert last in order;
      ScanRoutes(handlers[last], t, mode, fallback, formOk);
    }
  }

  lemma OnlyRouted(c: Config, r: Incoming, order: seq<Str>)
    requires TableValid(c.handlers) && IsOrder(order, c.handlers) && Admitted(c, r)
    ensures forall e :: e in ServeSpec(c, r, order) ==> RoutedEvent(e)
  {
    var t := OwnTrial(c, r);
    TryRoutes(Lookup(c.handlers, MethodOf(c, r)), Components(r, c.mode), [], c.mode);
    ScanSomeRoutes(order, c.handlers, MethodOf(c, r), t, c.mode,
      FormPost(c, r, MethodOf(c, r)), r.formOk);
  }

  /** A request whose path decodes (in legacy mode, every request) gets exactly one answer,
      whatever the table and the iteration order. */
  lemma OneAnswer(c: Config, r: Incoming, order: seq<Str>)
    requires TableValid(c.handlers) && IsOrder(order, c.handlers)
    requires r.path != [] ==> Calm(c.mode, Components(r, c.mode))
    ensures |ServeSpec(c, r, order)| == 1
  {
    if Admitted(c, r) {
      ThreeWays(c, r, order);
    }
  }

  /** A pattern that matches every path. */
  function Everything(): Pattern {
    Pattern([Op(OP_PUSH_M, 0)], [], [], 1, 0, [])
  }

  lemma {:induction false} EverythingIsValid()
    ensures Valid(Everything()) && Listing(Everything()) == [Deep]
  {
    ReadBackNext([], [], [], Op(OP_PUSH_M, 0), Deep);
    Snoc([], Deep);
    assert [] + [Deep] == [Deep] && [] + [Op(OP_PUSH_M, 0)] == [Op(OP_PUSH_M, 0)];
  }

  /** A table with one pattern that takes every path. */
  function CatchAll(meth: Str): map<Str, seq<Handler>> {
    map[meth := [Handler(Everything(), 0)]]
  }

  /** That pattern meets the malformed escape of a path that does not decode. */
  lemma {:induction false} EverythingStumbles(cs: seq<Str>, mode: Mode)
    requires !Calm(mode, cs) && Valid(Everything()) && Listing(Everything()) == [Deep]
    ensures MatchSpec(Everything(), cs, [], mode).MalformedPath?
  {
    DeepStumbles(cs, mode);
  }

  lemma {:induction false} DeepStumbles(cs: seq<Str>, mode: Mode)
    requires !Calm(mode, cs)
    ensures Exec([Deep], 0, cs, mode, START).BadEscape?
  {
    DecodeOfJoin(cs, mode);
    assert cs[0..|cs| - 0] == cs;
    assert Step(Deep, 0, cs, mode, START).BadEscape?;
  }

  /** And the request goes on to a second answer. */
  lemma TwoAnswers(c: Config, r: Incoming, order: seq<Str>)
    requires Admitted(c, r) && !Calm(c.mode, Components(r, c.mode)) && c.handlers == CatchAll(MethodOf(c, r))
    requires TableValid(c.handlers) && IsOrder(order, c.handlers)
    ensures |ServeSpec(c, r, order)| == 2
  {
    var meth, cs := MethodOf(c, r), Components(r, c.mode);
    var hs := Lookup(c.handlers, meth);
    EverythingIsValid();
    EverythingStumbles(cs, c.mode);
    assert hs == [Handler(Everything(), 0)] && hs[1..] == [];
    assert Try(hs[1..], cs, [], c.mode) == Trial([], false, cs, []);
    var t := OwnTrial(c, r);
    assert |t.events| == 1 && !t.done;
    OneMethodOrder(order, meth);
    OwnMethodOnly(c, meth, t, FormPost(c, r, meth), r.formOk);
    assert ServeSpec(c, r, order) == t.events + [Routing(404)];
  }

  /** With no other method in the table the search among the others comes to nothing. */
  lemma OwnMethodOnly(c: Config, meth: Str, t: Trial, fallback: bool, formOk: bool)
    requires TableValid(c.handlers) && meth in c.handlers
    ensures ScanAll([meth], c.handlers, meth, t, c.mode, fallback, formOk) == [Routing(404)]
  {
    assert [meth][..0] == [];
    assert ScanSome([], c.handlers, meth, t, c.mode, fallback, formOk) == ([], false);
    assert [] + [Routing(404)] == [Routing(404)];
  }

  lemma OneMethodOrder(order: seq<Str>, meth: Str)
    requires IsOrder(order, CatchAll(meth))
    ensures order == [meth]
  {
    assert CatchAll(meth).Keys == {meth};
    EnumerateOne(order, meth);
  }

  /** The request gets one answer with this table, in every iteration order. */
  ghost predicate AnsweredOnce(disabled: bool, mode: Mode, r: Incoming, handlers: map<Str, seq<Handler>>)
    requires TableValid(handlers)
  {
    forall order :: IsOrder(order, handlers) ==> |ServeSpec(Config(handlers, disabled, mode), r, order)| == 1
  }

  /** A request that reaches the routing loop gets exactly one answer from every table exactly when
      its path decodes. */
  lemma OneAnswerExactly(disabled: bool, mode: Mode, r: Incoming)
    requires Admitted(Config(map[], disabled, mode), r)
    ensures Calm(mode, Components(r, mode)) <==> forall handlers :: TableValid(handlers) ==> AnsweredOnce(disabled, mode, r, handlers)
  {
    if Calm(mode, Components(r, mode)) {
      forall handlers | TableValid(handlers) ensures AnsweredOnce(disabled, mode, r, handlers) {
        forall order | IsOrder(order, handlers) ensures |ServeSpec(Config(handlers, disabled, mode), r, order)| == 1 {
          OneAnswer(Config(handlers, disabled, mode), r, order);
        }
      }
    } else {
      var meth := MethodOf(Config(map[], disabled, mode), r);
      EverythingIsValid();
      assert IsOrder([meth], CatchAll(meth));
      TwoAnswers(Config(CatchAll(meth), disabled, mode), r, [meth]);
      assert TableValid(CatchAll(meth)) && !AnsweredOnce(disabled, mode, r, CatchAll(meth));
    }
  }

  // ---- The newest registration wins ----

  /** The i-th registration is for this method and its pattern matches the path as it came in. */
  predicate Takes(registered: seq<(Str, Handler)>, i: nat, meth: Str, path: seq<Str>, mode: Mode)
    requires i < |registered| && |path| > 0 && AllRegisteredValid(registered)
  {
    registered[i].0 == meth && Stateless(registered[i].1.pat, path, mode).Bound?
  }

  /** It does, and no later one does. */
  predicate Wins(registered: seq<(Str, Handler)>, i: nat, meth: Str, path: seq<Str>, mode: Mode)
    requires i < |registered| && |path| > 0 && AllRegisteredValid(registered)
  {
    Takes(registered, i, meth, path, mode) && forall j :: i < j < |registered| ==> !Takes(registered, j, meth, path, mode)
  }

  /** The call of the i-th registration's handler. */
  function Call(registered: seq<(Str, Handler)>, i: nat, path: seq<Str>, mode: Mode): seq<Event>
    requires i < |registered| && |path| > 0 && AllRegisteredValid(registered)
  {
    match Stateless(registered[i].1.pat, path, mode)
    case Bound(params) => [Invoke(registered[i].1.id, params)]
    case _ => []
  }

  lemma {:induction false} NewestValid(registered: seq<(Str, Handler)>, meth: Str)
    requires AllRegisteredValid(registered)
    ensures AllValid(Newest(registered, meth))
  {
    if registered != [] {
      NewestValid(registered[..|registered| - 1], meth);
    }
  }

  lemma NewestIs(registered: seq<(Str, Handler)>, meth: Str)
    requires registered != []
    ensures
      var rest, last := Newest(registered[..|registered| - 1], meth), registered[|registered| - 1];
      Newest(registered, meth) == if last.0 == meth then [last.1] + rest else rest
  {
    var rest := Newest(registered[..|registered| - 1], meth);
    assert [] + rest == rest;
  }

  /** What one more handler in front, or none, does to the first match. */
  lemma {:induction false} FirstStep(here: bool, h: Handler, rest: seq<Handler>, all: seq<Handler>, path: seq<Str>, mode: Mode)
    requires all == (if here then [h] + rest else rest) && Valid(h.pat) && AllValid(rest) && AllValid(all) && |path| > 0
    ensures FirstMatch(all, path, mode) ==
      if here then Answer(h, Stateless(h.pat, path, mode), FirstMatch(rest, path, mode)) else FirstMatch(rest, path, mode)
  {
    if here {
      FirstDecides(h, rest, path, mode);
    }
  }

  /** So the first match is that registration, or what it was before. */
  lemma {:induction false} NewestAnswers(registered: seq<(Str, Handler)>, meth: Str, path: seq<Str>, mode: Mode)
    requires registered != [] && AllRegisteredValid(registered) && |path| > 0 && AllValid(Newest(registered, meth)) && Calm(mode, path)
    ensures
      var n := |registered| - 1;
      && AllRegisteredValid(registered[..n]) && AllValid(Newest(registered[..n], meth))
      && FirstMatch(Newest(registered, meth), path, mode) ==
        if Takes(registered, n, meth, path, mode)
        then Call(registered, n, path, mode)
        else FirstMatch(Newest(registered[..n], meth), path, mode)
  {
    var n := |registered| - 1;
    var h := registered[n].1;
    NewestIs(registered, meth);
    NewestValid(registered[..n], meth);
    FirstStep(registered[n].0 == meth, h, Newest(registered[..n], meth), Newest(registered, meth), path, mode);
    StatelessOutcome(h.pat, path, mode);
  }

  /** What an earlier registration takes does not depend on later ones. */
  lemma TakesBefore(registered: seq<(Str, Handler)>, i: nat, meth: Str, path: seq<Str>, mode: Mode)
    requires i < |registered| - 1 && |path| > 0 && AllRegisteredValid(registered)
    ensures AllRegisteredValid(registered[..|registered| - 1])
    ensures Takes(registered[..|registered| - 1], i, meth, path, mode) == Takes(registered, i, meth, path, mode)
    ensures Call(registered[..|registered| - 1], i, path, mode) == Call(registered, i, path, mode)
  {
  }

  lemma WinsBefore(registered: seq<(Str, Handler)>, i: nat, meth: Str, path: seq<Str>, mode: Mode)
    requires i < |registered| - 1 && |path| > 0 && AllRegisteredValid(registered)
    requires Wins(registered, i, meth, path, mode)
    ensures AllRegisteredValid(registered[..|registered| - 1])
    ensures Wins(registered[..|registered| - 1], i, meth, path, mode)
    ensures !Takes(registered, |registered| - 1, meth, path, mode)
  {
    var n := |registered| - 1;
    forall j | i <= j < n ensures Takes(registered[..n], j, meth, path, mode) == Takes(registered, j, meth, path, mode) {
      TakesBefore(registered, j, meth, path, mode);
    }
  }

  lemma {:induction false} NewestFirst(registered: seq<(Str, Handler)>, meth: Str, path: seq<Str>, mode: Mode, i: nat)
    requires AllRegisteredValid(registered) && |path| > 0 && AllValid(Newest(registered, meth)) && Calm(mode, path)
    requires i < |registered| && Wins(registered, i, meth, path, mode)
    ensures FirstMatch(Newest(registered, meth), path, mode) == Call(registered, i, path, mode)
  {
    NewestAnswers(registered, meth, path, mode);
    if i < |registered| - 1 {
      WinsBefore(registered, i, meth, path, mode);
      TakesBefore(registered, i, meth, path, mode);
      NewestFirst(registered[..|registered| - 1], meth, path, mode, i);
    }
  }

  lemma {:induction false} NoneFirst(registered: seq<(Str, Handler)>, meth: Str, path: seq<Str>, mode: Mode)
    requires AllRegisteredValid(registered) && |path| > 0 && AllValid(Newest(registered, meth)) && Calm(mode, path)
    requires forall i :: 0 <= i < |registered| ==> !Takes(registered, i, meth, path, mode)
    ensures FirstMatch(Newest(registered, meth), path, mode) == []
  {
    if registered != [] {
      var n := |registered| - 1;
      NewestAnswers(registered, meth, path, mode);
      assert !Takes(registered, n, meth, path, mode);
      forall j | 0 <= j < n ensures !Takes(registered[..n], j, meth, path, mode) {
        TakesBefore(registered, j, meth, path, mode);
      }
      NoneFirst(registered[..n], meth, path, mode);
    }
  }

  /** The path of the request, as the mode has it, is a slash and these components. */
  ghost predicate Requests(r: Incoming, mode: Mode, cs: seq<Str>) {
    && r.path != []
    && Written(cs, mode, if mode == Legacy || r.rawPath == [] then r.path[1..] else r.rawPath[1..])
  }

  /** A request whose path decodes and whose last component is safe is handled by the most recently
      registered pattern that matches its components, in every mode, whenever the verbs are
      colon-free; the parameters are those of its match. */
  lemma {:induction false} NewestMatchServes(c: Config, registered: seq<(Str, Handler)>, r: Incoming, cs: seq<Str>,
                                             order: seq<Str>, i: nat)
    requires TableValid(c.handlers) && IsOrder(order, c.handlers) && Admitted(c, r)
    requires AllRegisteredValid(registered)
    requires forall m :: Lookup(c.handlers, m) == Newest(registered, m)
    requires ColonFreeVerbs(Lookup(c.handlers, MethodOf(c, r)))
    requires Requests(r, c.mode, cs) && SafeLast(Last(cs)) && Calm(c.mode, cs)
    requires i < |registered| && Wins(registered, i, MethodOf(c, r), cs, c.mode)
    ensures ServeSpec(c, r, order)
      == [Invoke(registered[i].1.id, Stateless(registered[i].1.pat, cs, c.mode).bindings)]
  {
    var meth := MethodOf(c, r);
    ComponentsExactly(r, c.mode, cs);
    assert Lookup(c.handlers, meth) == Newest(registered, meth);
    NewestFirst(registered, meth, cs, c.mode, i);
    TryAgrees(Newest(registered, meth), cs, [], cs, c.mode);
    TryAnswers(Newest(registered, meth), cs, [], c.mode);
  }

  /** And when none matches, no handler of its own method is invoked. */
  lemma {:induction false} NoMatchNoHandler(c: Config, registered: seq<(Str, Handler)>, r: Incoming, cs: seq<Str>)
    requires TableValid(c.handlers) && Admitted(c, r)
    requires AllRegisteredValid(registered)
    requires forall m :: Lookup(c.handlers, m) == Newest(registered, m)
    requires ColonFreeVerbs(Lookup(c.handlers, MethodOf(c, r)))
    requires Requests(r, c.mode, cs) && SafeLast(Last(cs)) && Calm(c.mode, cs)
    requires forall i :: 0 <= i < |registered| ==> !Takes(registered, i, MethodOf(c, r), cs, c.mode)
    ensures !OwnTrial(c, r).done
  {
    var meth := MethodOf(c, r);
    ComponentsExactly(r, c.mode, cs);
    assert Lookup(c.handlers, meth) == Newest(registered, meth);
    NoneFirst(registered, meth, cs, c.mode);
    TryAgrees(Newest(registered, meth), cs, [], cs, c.mode);
    TryAnswers(Newest(registered, meth), cs, [], c.mode);
  }

  // ---- From the text of a request to its parameters ----

  /** The components are the template's: these ones split over it, with its verb after a colon on
      the last of them, which is not empty then. */
  predicate Spelled(t: Template, cs: seq<Str>, front: seq<Str>, slices: seq<seq<Str>>) {
    && |cs| > 0 && |front| == |cs|
    && (if t.verb == [] then front == cs
        else Last(front) != [] && cs == WithLast(front, Last(front) + [COLON] + t.verb))
    && SplitsOver(t, front, slices)
  }

  /** The components before the verb are those the matcher sees. */
  lemma {:induction false} FrontIsCut(p: Pattern, cs: seq<Str>, front: seq<Str>)
    requires |cs| > 0 && |front| == |cs| && p.verb != []
    requires Last(front) != [] && cs == WithLast(front, Last(front) + [COLON] + p.verb)
    ensures VerbAt(p.verb, Last(cs)) > 0 && WithLast(cs, Last(cs)[..VerbAt(p.verb, Last(cs))]) == front
  {
    CutHere(cs, [], Last(front), p.verb, p);
    assert Last(cs)[..|Last(front)|] == Last(front);
    assert WithLast(cs, Last(front)) == WithLast(front, Last(front)) == front;
  }

  /** The stateless match of a pattern built from a template is a split of the components over it,
      in every mode on components that decode; all splits give the same parameters. */
  lemma {:induction false} StatelessIsSplit(t: Template, p: Pattern, cs: seq<Str>, mode: Mode)
    requires BuiltFrom(p, t) && |cs| > 0 && Calm(mode, cs)
    ensures Stateless(p, cs, mode).Bound? <==> exists front, slices :: Spelled(t, cs, front, slices)
    ensures forall front, slices :: Spelled(t, cs, front, slices) ==>
      Stateless(p, cs, mode) == Bound(BindingsOf(t, front, slices, mode))
  {
    if t.verb == [] {
      MatchIsSplit(t, p, cs, [], cs, mode);
      if Stateless(p, cs, mode).Bound? {
        var slices :| SplitsOver(t, cs, slices);
        assert Spelled(t, cs, cs, slices);
      }
    } else {
      VerbIsSplit(t, p, cs, mode);
    }
  }

  lemma {:induction false} VerbIsSplit(t: Template, p: Pattern, cs: seq<Str>, mode: Mode)
    requires BuiltFrom(p, t) && |cs| > 0 && Calm(mode, cs) && t.verb != []
    ensures Stateless(p, cs, mode).Bound? <==> exists front, slices :: Spelled(t, cs, front, slices)
    ensures forall front, slices :: Spelled(t, cs, front, slices) ==>
      Stateless(p, cs, mode) == Bound(BindingsOf(t, front, slices, mode))
  {
    if VerbAt(p.verb, Last(cs)) > 0 {
      var front := CutFront(p, cs, mode);
      MatchIsSplit(t, p, front, t.verb, front, mode);
      if Stateless(p, cs, mode).Bound? {
        var slices :| SplitsOver(t, front, slices);
        assert Spelled(t, cs, front, slices);
      }
    }
    forall front, slices | Spelled(t, cs, front, slices)
      ensures Stateless(p, cs, mode) == Bound(BindingsOf(t, front, slices, mode))
    {
      FrontIsCut(p, cs, front);
    }
  }

  /** The components before a verb that was found. */
  lemma {:induction false} CutFront(p: Pattern, cs: seq<Str>, mode: Mode) returns (front: seq<Str>)
    requires Valid(p) && |cs| > 0 && Calm(mode, cs) && VerbAt(p.verb, Last(cs)) > 0
    ensures front == WithLast(cs, Last(cs)[..VerbAt(p.verb, Last(cs))]) && Calm(mode, front) && |front| == |cs|
    ensures Last(front) != [] && cs == WithLast(front, Last(front) + [COLON] + p.verb)
    ensures Stateless(p, cs, mode) == MatchSpec(p, front, p.verb, mode)
  {
    var k := VerbAt(p.verb, Last(cs));
    front := WithLast(cs, Last(cs)[..k]);
    SuffixStarts(Last(cs), p.verb);
    assert Last(cs) == Last(cs)[..k] + [COLON] + p.verb;
    assert WithLast(front, Last(cs)) == cs;
    CutIsCalm(p, cs, [], mode);
  }
}
