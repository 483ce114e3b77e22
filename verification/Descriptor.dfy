/** Message descriptors: name lookup through enclosing scopes, and the recursive search for
    validation rules over a type graph that may be cyclic, with its per-message cache. */
module Descriptor {
  import opened Text

  datatype Field = Field(ruled: bool, isMessage: bool, typeName: string)

  /** Messages by fully qualified name. */
  type Msgs = map<string, Message>

  // ---- LookupMsg ----

  /** The scope made of the first n components, with the name in it. */
  function InScope(components: seq<string>, n: nat, name: string): string
    requires n <= |components|
  {
    Join(components[..n] + [name], ".")
  }

  function Find(msgs: Msgs, name: string): Option<Message> {
    if name in msgs then Some(msgs[name]) else None
  }

  /** Searching the scopes of n, n-1, ..., 1 components. */
  function FindOutward(msgs: Msgs, components: seq<string>, n: nat, name: string): (r: Option<Message>)
    requires n <= |components|
    ensures r.None? <==> forall k :: 0 < k <= n ==> InScope(components, k, name) !in msgs
  {
    if n == 0 then None
    else if InScope(components, n, name) in msgs then Some(msgs[InScope(components, n, name)])
    else FindOutward(msgs, components, n - 1, name)
  }

  function Scopes(location: string): seq<string> {
    Split(if |location| > 0 && location[0] == '.' then location else "." + location, '.')
  }

  /** A location is read from the root, whether or not it starts with the dot; the scope of n of its
      components is that many of them after the empty one for the root. */
  lemma {:induction false} ScopesMean(location: string)
    ensures Scopes("." + location) == [""] + Split(location, '.')
    ensures !("." <= location) ==> Scopes(location) == Scopes("." + location)
  {
    assert ("." + location)[1..] == location;
  }

  function LookupMsg(msgs: Msgs, location: string, name: string): Option<Message> {
    if |name| > 0 && name[0] == '.' then Find(msgs, name)
    else FindOutward(msgs, Scopes(location), |Scopes(location)|, name)
  }

  /** A relative name means the innermost enclosing scope that has it. */
  lemma {:induction false} InnermostWins(msgs: Msgs, components: seq<string>, n: nat, k: nat, name: string)
    requires 0 < k <= n <= |components|
    requires InScope(components, k, name) in msgs
    requires forall j :: k < j <= n ==> InScope(components, j, name) !in msgs
    ensures FindOutward(msgs, components, n, name) == Some(msgs[InScope(components, k, name)])
  {
    if n > k {
      InnermostWins(msgs, components, n - 1, k, name);
    }
  }

  /** The full name of a relative name in the scope of the first k components. */
  function Qualified(cs: seq<string>, k: nat, name: string): string
    requires k <= |cs|
  {
    "." + Join(cs[..k] + [name], ".")
  }

  lemma ScopeIsQualified(cs: seq<string>, k: nat, name: string)
    requires k <= |cs|
    ensures InScope([""] + cs, k + 1, name) == Qualified(cs, k, name)
  {
    var all := [""] + cs;
    assert all[..k + 1] + [name] == [""] + (cs[..k] + [name]);
    assert ([""] + (cs[..k] + [name]))[1..] == cs[..k] + [name];
    assert "" + "." == ".";
  }

  /** A relative name means the message in the innermost scope of the location that has one of that
      name, whether or not the location starts with a dot; a name that starts with one means
      itself. */
  lemma {:induction false} LookupMeans(msgs: Msgs, cs: seq<string>, name: string)
    requires cs != [] && (|cs| > 1 ==> cs[0] != "") && forall c :: c in cs ==> '.' !in c
    ensures LookupMsg(msgs, Join(cs, "."), name) == LookupMsg(msgs, "." + Join(cs, "."), name)
    ensures "." <= name ==> LookupMsg(msgs, Join(cs, "."), name) == Find(msgs, name)
    ensures !("." <= name) ==>
      match LookupMsg(msgs, Join(cs, "."), name)
      case None => forall k :: 0 <= k <= |cs| ==> Qualified(cs, k, name) !in msgs
      case Some(m) => exists k ::
        && 0 <= k <= |cs|
        && Find(msgs, Qualified(cs, k, name)) == Some(m)
        && forall j :: k < j <= |cs| ==> Qualified(cs, j, name) !in msgs
  {
    var location := Join(cs, ".");
    SplitOfJoin(cs, '.');
    ScopesMean(location);
    assert cs[0] in cs;
    assert cs[0] != "" ==> location[0] == cs[0][0];
    var all := [""] + cs;
    forall k | 0 <= k <= |cs| ensures InScope(all, k + 1, name) == Qualified(cs, k, name) {
      ScopeIsQualified(cs, k, name);
    }
    if !("." <= name) {
      assert LookupMsg(msgs, location, name) == FindOutward(msgs, all, |all|, name);
      if FindOutward(msgs, all, |all|, name).Some? {
        var n := FoundAt(msgs, all, |all|, name);
        assert InScope(all, n, name) == Qualified(cs, n - 1, name);
        forall j | n - 1 < j <= |cs| ensures Qualified(cs, j, name) !in msgs {
          assert InScope(all, j + 1, name) !in msgs;
        }
      } else {
        forall k | 0 <= k <= |cs| ensures Qualified(cs, k, name) !in msgs {
          assert InScope(all, k + 1, name) !in msgs;
        }
      }
    }
  }

  /** Where the search ends. */
  lemma {:induction false} FoundAt(msgs: Msgs, components: seq<string>, n: nat, name: string) returns (k: nat)
    requires n <= |components| && FindOutward(msgs, components, n, name).Some?
    ensures 0 < k <= n && FindOutward(msgs, components, n, name) == Find(msgs, InScope(components, k, name))
    ensures forall j :: k < j <= n ==> InScope(components, j, name) !in msgs
  {
    if InScope(components, n, name) in msgs {
      k := n;
    } else {
      k := FoundAt(msgs, components, n - 1, name);
    }
  }

  /** `LookupMsg`: the loop drops the last component until a scope has the name. */
  method Lookup(msgs: Msgs, location: string, name: string) returns (r: Option<Message>)
    ensures r == LookupMsg(msgs, location, name)
  {
    if |name| > 0 && name[0] == '.' {
      return if name in msgs then Some(msgs[name]) else None;
    }
    var loc := location;
    if !(|loc| > 0 && loc[0] == '.') {
      loc := "." + loc;
    }
    var components := Split(loc, '.');
    ghost var all := components;
    while |components| > 0
      invariant |components| <= |all| && components == all[..|components|]
      invariant FindOutward(msgs, all, |components|, name) == FindOutward(msgs, all, |all|, name)
    {
      var fqmn := Join(components + [name], ".");
      if fqmn in msgs {
        return Some(msgs[fqmn]);
      }
      components := components[..|components| - 1];
    }
    return None;
  }

  // ---- The type graph ----

  function Key(m: Message, f: Field): string {
    m.pkg + ":" + f.typeName
  }

  /** The message type of a field, if it is one and is known. */
  function Target(msgs: Msgs, m: Message, f: Field): Option<Message> {
    if f.isMessage then LookupMsg(msgs, m.pkg, f.typeName) else None
  }

  /** The type of a message field, by name: from the package of its message outward. */
  lemma {:induction false} TargetMeans(msgs: Msgs, m: Message, f: Field, cs: seq<string>)
    requires m.pkg == Join(cs, ".")
    requires cs != [] && (|cs| > 1 ==> cs[0] != "") && forall c :: c in cs ==> '.' !in c
    ensures !f.isMessage ==> Target(msgs, m, f) == None
    ensures f.isMessage && "." <= f.typeName ==> Target(msgs, m, f) == Find(msgs, f.typeName)
    ensures f.isMessage && !("." <= f.typeName) ==>
      match Target(msgs, m, f)
      case None => forall k :: 0 <= k <= |cs| ==> Qualified(cs, k, f.typeName) !in msgs
      case Some(t) => exists k ::
        && 0 <= k <= |cs|
        && Find(msgs, Qualified(cs, k, f.typeName)) == Some(t)
        && forall j :: k < j <= |cs| ==> Qualified(cs, j, f.typeName) !in msgs
  {
    LookupMeans(msgs, cs, f.typeName);
  }

  /** For one message, the key determines the type. */
  lemma KeyDetermines(msgs: Msgs, m: Message, f: Field, g: Field)
    requires f.isMessage && g.isMessage && Key(m, f) == Key(m, g)
    ensures Target(msgs, m, f) == Target(msgs, m, g)
  {
    assert Key(m, f)[|m.pkg| + 1..] == f.typeName;
    assert Key(m, g)[|m.pkg| + 1..] == g.typeName;
  }

  predicate Direct(m: Message) {
    exists i :: 0 <= i < |m.fields| && m.fields[i].ruled
  }

  /** A rule is found within n steps along message-typed fields. */
  predicate ReachIn(msgs: Msgs, m: Message, n: nat)
    decreases n, 1
  {
    Direct(m) ||
    (n > 0 && exists i :: 0 <= i < |m.fields| && StepReaches(msgs, m, m.fields[i], n))
  }

  predicate StepReaches(msgs: Msgs, m: Message, f: Field, n: nat)
    requires n > 0
    decreases n, 0
  {
    Target(msgs, m, f).Some? && ReachIn(msgs, Target(msgs, m, f).value, n - 1)
  }

  ghost predicate Reaches(msgs: Msgs, m: Message) {
    exists n: nat :: ReachIn(msgs, m, n)
  }

  // ---- The search as a function of the caches ----

  type Memo = map<(Message, string), bool>

  /** The messages the search can meet. */
  ghost predicate Covers(u: set<Message>, msgs: Msgs) {
    forall name :: name in msgs ==> msgs[name] in u
  }

  ghost function Edges(u: set<Message>): set<(Message, string)> {
    set m, i | m in u && 0 <= i < |m.fields| :: (m, Key(m, m.fields[i]))
  }

  lemma TargetCovered(u: set<Message>, msgs: Msgs, m: Message, f: Field)
    requires Covers(u, msgs)
    ensures Target(msgs, m, f).Some? ==> Target(msgs, m, f).value in u
  {
    if f.isMessage {
      FoundCovered(u, msgs, Scopes(m.pkg), |Scopes(m.pkg)|, f.typeName);
    }
  }

  lemma {:induction false} FoundCovered(u: set<Message>, msgs: Msgs, components: seq<string>, n: nat, name: string)
    requires Covers(u, msgs) && n <= |components|
    ensures FindOutward(msgs, components, n, name).Some? ==> FindOutward(msgs, components, n, name).value in u
  {
    if n > 0 {
      FoundCovered(u, msgs, components, n - 1, name);
    }
  }

  /** Every mark uses up one edge of the graph, so the search ends even on cycles. */
  lemma MarkShrinks(u: set<Message>, memo: Memo, m: Message, i: nat)
    requires m in u && i < |m.fields| && (m, Key(m, m.fields[i])) !in memo
    ensures forall keys: set<(Message, string)> :: memo[(m, Key(m, m.fields[i])) := false].Keys <= keys ==>
      Edges(u) - keys < Edges(u) - memo.Keys
  {
    var key := (m, Key(m, m.fields[i]));
    assert key in Edges(u);
    forall keys: set<(Message, string)> | memo[key := false].Keys <= keys
      ensures Edges(u) - keys < Edges(u) - memo.Keys
    {
      assert key in Edges(u) - memo.Keys && key in memo[key := false].Keys;
      assert memo.Keys <= memo[key := false].Keys;
    }
  }

  /** `HasRule` from field i of m on: the answer and the caches it leaves. */
  ghost function Search(u: set<Message>, msgs: Msgs, memo: Memo, m: Message, i: nat): (r: (bool, Memo))
    requires Covers(u, msgs) && m in u && i <= |m.fields|
    ensures memo.Keys <= r.1.Keys
    decreases Edges(u) - memo.Keys, |m.fields| - i
  {
    if i == |m.fields| then (false, memo)
    else
      var f := m.fields[i];
      var key := (m, Key(m, f));
      if f.ruled then (true, memo)
      else if !f.isMessage then Search(u, msgs, memo, m, i + 1)
      else if key in memo then if memo[key] then (true, memo) else Search(u, msgs, memo, m, i + 1)
      else
        var marked := memo[key := false];
        MarkShrinks(u, memo, m, i);
        TargetCovered(u, msgs, m, f);
        match Target(msgs, m, f)
        case None => Search(u, msgs, marked, m, i + 1)
        case Some(ft) =>
          if ft == m then Search(u, msgs, marked, m, i + 1)
          else
            var (found, after) := Search(u, msgs, marked, ft, 0);
            if found then (true, after[key := true]) else Search(u, msgs, after, m, i + 1)
  }

  // ---- A positive answer is always right ----

  /** Every cached true names a message type from which a rule is reachable. */
  ghost predicate TruesSound(msgs: Msgs, memo: Memo) {
    forall e :: e in memo && memo[e] ==> EdgeReaches(msgs, e)
  }

  ghost predicate EdgeReaches(msgs: Msgs, e: (Message, string)) {
    exists i :: 0 <= i < |e.0.fields| && Key(e.0, e.0.fields[i]) == e.1 && FieldReaches(msgs, e.0, e.0.fields[i])
  }

  ghost predicate FieldReaches(msgs: Msgs, m: Message, f: Field) {
    Target(msgs, m, f).Some? && Reaches(msgs, Target(msgs, m, f).value)
  }

  lemma DirectReaches(msgs: Msgs, m: Message, i: nat)
    requires i < |m.fields| && m.fields[i].ruled
    ensures Reaches(msgs, m)
  {
    assert ReachIn(msgs, m, 0);
  }

  lemma StepBack(msgs: Msgs, m: Message, i: nat)
    requires i < |m.fields| && FieldReaches(msgs, m, m.fields[i])
    ensures Reaches(msgs, m)
  {
    var n: nat :| ReachIn(msgs, Target(msgs, m, m.fields[i]).value, n);
    assert StepReaches(msgs, m, m.fields[i], n + 1);
    assert ReachIn(msgs, m, n + 1);
  }

  lemma {:induction false} TrueIsRight(u: set<Message>, msgs: Msgs, memo: Memo, m: Message, i: nat)
    requires Covers(u, msgs) && m in u && i <= |m.fields| && TruesSound(msgs, memo)
    ensures Search(u, msgs, memo, m, i).0 ==> Reaches(msgs, m)
    ensures TruesSound(msgs, Search(u, msgs, memo, m, i).1)
    decreases Edges(u) - memo.Keys, |m.fields| - i
  {
    if i < |m.fields| {
      var f := m.fields[i];
      var key := (m, Key(m, f));
      if f.ruled {
        DirectReaches(msgs, m, i);
      } else if !f.isMessage {
        TrueIsRight(u, msgs, memo, m, i + 1);
      } else if key in memo {
        if memo[key] {
          CachedTrue(msgs, m, i);
        } else {
          TrueIsRight(u, msgs, memo, m, i + 1);
        }
      } else {
        var marked := memo[key := false];
        MarkShrinks(u, memo, m, i);
        TargetCovered(u, msgs, m, f);
        var target := Target(msgs, m, f);
        if target.None? || target.value == m {
          TrueIsRight(u, msgs, marked, m, i + 1);
        } else {
          TrueIsRight(u, msgs, marked, target.value, 0);
          var (found, after) := Search(u, msgs, marked, target.value, 0);
          if found {
            assert FieldReaches(msgs, m, f);
            StepBack(msgs, m, i);
            assert EdgeReaches(msgs, key);
          } else {
            TrueIsRight(u, msgs, after, m, i + 1);
          }
        }
      }
    }
  }

  lemma CachedTrue(msgs: Msgs, m: Message, i: nat)
    requires i < |m.fields| && m.fields[i].isMessage && EdgeReaches(msgs, (m, Key(m, m.fields[i])))
    ensures Reaches(msgs, m)
  {
    var j :| 0 <= j < |m.fields| && Key(m, m.fields[j]) == Key(m, m.fields[i]) && FieldReaches(msgs, m, m.fields[j]);
    StepBack(msgs, m, j);
  }

  // ---- A negative answer: what the search has ruled out, given the caches it started from ----

  /** The message has no rule of its own and all its message fields are marked negative. */
  ghost predicate Done(m: Message, memo: Memo) {
    DoneUpTo(m, memo, |m.fields|)
  }

  ghost predicate DoneUpTo(m: Message, memo: Memo, n: nat)
    requires n <= |m.fields|
  {
    forall i :: 0 <= i < n ==> FieldDone(m, m.fields[i], memo)
  }

  ghost predicate FieldDone(m: Message, f: Field, memo: Memo) {
    !f.ruled && (f.isMessage ==> (m, Key(m, f)) in memo && !memo[(m, Key(m, f))])
  }

  /** All entries added to the base are negative. */
  ghost predicate Negates(base: Memo, memo: Memo) {
    Extends(base, memo) && forall e :: e in memo ==> e in base || !memo[e]
  }

  /** The edge of this field was marked since the base. */
  ghost predicate Added(base: Memo, memo: Memo, m: Message, f: Field) {
    f.isMessage && (m, Key(m, f)) in memo && (m, Key(m, f)) !in base
  }

  /** Wherever a mark added to the base leads, the search has finished there or is still at work
      there. */
  ghost predicate Closed(u: set<Message>, msgs: Msgs, base: Memo, memo: Memo, atWork: set<Message>) {
    && Negates(base, memo)
    && forall m, i :: m in u && 0 <= i < |m.fields| && Added(base, memo, m, m.fields[i]) ==>
         Settled(msgs, m, m.fields[i], memo, atWork)
  }

  ghost predicate Settled(msgs: Msgs, m: Message, f: Field, memo: Memo, atWork: set<Message>) {
    Target(msgs, m, f).Some? ==>
      Target(msgs, m, f).value == m || Target(msgs, m, f).value in atWork || Done(Target(msgs, m, f).value, memo)
  }

  ghost predicate Extends(memo: Memo, more: Memo) {
    forall e :: e in memo ==> e in more && more[e] == memo[e]
  }

  lemma DoneStays(m: Message, memo: Memo, more: Memo, n: nat)
    requires n <= |m.fields| && Extends(memo, more) && DoneUpTo(m, memo, n)
    ensures DoneUpTo(m, more, n)
  {
    forall i | 0 <= i < n ensures FieldDone(m, m.fields[i], more) {
      assert FieldDone(m, m.fields[i], memo);
    }
  }

  /** Marking an edge negative while the search goes on at its target. */
  lemma MarkClosed(u: set<Message>, msgs: Msgs, base: Memo, memo: Memo, atWork: set<Message>, m: Message, i: nat)
    requires m in u && i < |m.fields| && m.fields[i].isMessage && Closed(u, msgs, base, memo, atWork)
    requires (m, Key(m, m.fields[i])) !in memo
    ensures
      var target := Target(msgs, m, m.fields[i]);
      Closed(u, msgs, base, memo[(m, Key(m, m.fields[i])) := false],
        if target.Some? && target.value != m then atWork + {target.value} else atWork)
  {
    var key := (m, Key(m, m.fields[i]));
    var marked := memo[key := false];
    var target := Target(msgs, m, m.fields[i]);
    var now := if target.Some? && target.value != m then atWork + {target.value} else atWork;
    forall x, j | x in u && 0 <= j < |x.fields| && Added(base, marked, x, x.fields[j])
      ensures Settled(msgs, x, x.fields[j], marked, now)
    {
      if (x, Key(x, x.fields[j])) == key {
        KeyDetermines(msgs, m, m.fields[i], x.fields[j]);
      } else {
        assert Settled(msgs, x, x.fields[j], memo, atWork);
        var ft := Target(msgs, x, x.fields[j]);
        if ft.Some? && Done(ft.value, memo) {
          DoneStays(ft.value, memo, marked, |ft.value.fields|);
        }
      }
    }
  }

  /** A finished message need not count as being worked on. */
  lemma WorkEnds(u: set<Message>, msgs: Msgs, base: Memo, memo: Memo, atWork: set<Message>, m: Message)
    requires Closed(u, msgs, base, memo, atWork + {m}) && Done(m, memo)
    ensures Closed(u, msgs, base, memo, atWork)
  {
    forall x, j | x in u && 0 <= j < |x.fields| && Added(base, memo, x, x.fields[j])
      ensures Settled(msgs, x, x.fields[j], memo, atWork)
    {
      assert Settled(msgs, x, x.fields[j], memo, atWork + {m});
    }
  }

  /** A negative answer leaves the message finished and the marks closed. */
  lemma {:induction false} FalseCloses(u: set<Message>, msgs: Msgs, base: Memo, memo: Memo, m: Message, i: nat,
                                       atWork: set<Message>)
    requires Covers(u, msgs) && m in u && i <= |m.fields|
    requires m in atWork && Closed(u, msgs, base, memo, atWork) && DoneUpTo(m, memo, i)
    requires !Search(u, msgs, memo, m, i).0
    ensures
      var after := Search(u, msgs, memo, m, i).1;
      Extends(memo, after) && Done(m, after) && Closed(u, msgs, base, after, atWork)
    decreases Edges(u) - memo.Keys, |m.fields| - i
  {
    if i < |m.fields| {
      var f := m.fields[i];
      var key := (m, Key(m, f));
      if !f.isMessage || key in memo {
        assert FieldDone(m, f, memo);
        FalseCloses(u, msgs, base, memo, m, i + 1, atWork);
      } else {
        var marked := memo[key := false];
        MarkShrinks(u, memo, m, i);
        TargetCovered(u, msgs, m, f);
        MarkClosed(u, msgs, base, memo, atWork, m, i);
        DoneStays(m, memo, marked, i);
        assert FieldDone(m, f, marked);
        var target := Target(msgs, m, f);
        if target.None? || target.value == m {
          FalseCloses(u, msgs, base, marked, m, i + 1, atWork);
        } else {
          var ft := target.value;
          var after := Search(u, msgs, marked, ft, 0).1;
          FalseCloses(u, msgs, base, marked, ft, 0, atWork + {ft});
          WorkEnds(u, msgs, base, after, atWork, ft);
          DoneStays(m, marked, after, i + 1);
          FalseCloses(u, msgs, base, after, m, i + 1, atWork);
        }
      }
    }
  }

  // ---- What an answer means, whatever the caches hold ----

  /** A rule is found within n steps along fields that are not cached as negative; a field cached
      as positive is as good as a rule. */
  ghost predicate FreeIn(msgs: Msgs, memo: Memo, m: Message, n: nat)
    decreases n, 1
  {
    Direct(m) || exists i :: 0 <= i < |m.fields| && StepFree(msgs, memo, m, m.fields[i], n)
  }

  ghost predicate StepFree(msgs: Msgs, memo: Memo, m: Message, f: Field, n: nat)
    decreases n, 0
  {
    f.isMessage &&
    if (m, Key(m, f)) in memo then memo[(m, Key(m, f))]
    else n > 0 && Target(msgs, m, f).Some? && FreeIn(msgs, memo, Target(msgs, m, f).value, n - 1)
  }

  ghost predicate FreeReaches(msgs: Msgs, memo: Memo, m: Message) {
    exists n: nat :: FreeIn(msgs, memo, m, n)
  }

  /** Without any entries every route is free. */
  lemma {:induction false} FreeOfCaches(msgs: Msgs, m: Message, n: nat)
    ensures FreeIn(msgs, map[], m, n) <==> ReachIn(msgs, m, n)
    decreases n
  {
    if n > 0 {
      forall i | 0 <= i < |m.fields| && Target(msgs, m, m.fields[i]).Some?
        ensures StepFree(msgs, map[], m, m.fields[i], n) <==> StepReaches(msgs, m, m.fields[i], n)
      {
        FreeOfCaches(msgs, Target(msgs, m, m.fields[i]).value, n - 1);
      }
    }
  }

  /** More negative entries leave fewer free routes. */
  lemma {:induction false} FewerFree(msgs: Msgs, memo: Memo, more: Memo, m: Message, n: nat)
    requires Negates(memo, more) && FreeIn(msgs, more, m, n)
    ensures FreeIn(msgs, memo, m, n)
    decreases n
  {
    if !Direct(m) {
      var i :| 0 <= i < |m.fields| && StepFree(msgs, more, m, m.fields[i], n);
      if (m, Key(m, m.fields[i])) !in more {
        FewerFree(msgs, memo, more, Target(msgs, m, m.fields[i]).value, n - 1);
      }
      assert StepFree(msgs, memo, m, m.fields[i], n);
    }
  }

  /** A negative answer adds negative entries only. */
  lemma {:induction false} NoOnlyNegates(u: set<Message>, msgs: Msgs, memo: Memo, m: Message, i: nat)
    requires Covers(u, msgs) && m in u && i <= |m.fields| && !Search(u, msgs, memo, m, i).0
    ensures Negates(memo, Search(u, msgs, memo, m, i).1)
    decreases Edges(u) - memo.Keys, |m.fields| - i
  {
    if i < |m.fields| {
      var f := m.fields[i];
      var key := (m, Key(m, f));
      if !f.isMessage || key in memo {
        NoOnlyNegates(u, msgs, memo, m, i + 1);
      } else {
        var marked := memo[key := false];
        MarkShrinks(u, memo, m, i);
        TargetCovered(u, msgs, m, f);
        var target := Target(msgs, m, f);
        if target.None? || target.value == m {
          NoOnlyNegates(u, msgs, marked, m, i + 1);
        } else {
          NoOnlyNegates(u, msgs, marked, target.value, 0);
          NoOnlyNegates(u, msgs, Search(u, msgs, marked, target.value, 0).1, m, i + 1);
        }
      }
    }
  }

  lemma FreeStep(msgs: Msgs, memo: Memo, more: Memo, m: Message, i: nat)
    requires i < |m.fields| && m.fields[i].isMessage && (m, Key(m, m.fields[i])) !in memo
    requires Target(msgs, m, m.fields[i]).Some? && Negates(memo, more)
    requires FreeReaches(msgs, more, Target(msgs, m, m.fields[i]).value)
    ensures FreeReaches(msgs, memo, m)
  {
    var ft := Target(msgs, m, m.fields[i]).value;
    var n: nat :| FreeIn(msgs, more, ft, n);
    FewerFree(msgs, memo, more, ft, n);
    assert StepFree(msgs, memo, m, m.fields[i], n + 1);
    assert FreeIn(msgs, memo, m, n + 1);
  }

  lemma FreeBefore(msgs: Msgs, memo: Memo, more: Memo, m: Message)
    requires Negates(memo, more) && FreeReaches(msgs, more, m)
    ensures FreeReaches(msgs, memo, m)
  {
    var n: nat :| FreeIn(msgs, more, m, n);
    FewerFree(msgs, memo, more, m, n);
  }

  lemma {:induction false} YesIsFree(u: set<Message>, msgs: Msgs, memo: Memo, m: Message, i: nat)
    requires Covers(u, msgs) && m in u && i <= |m.fields| && Search(u, msgs, memo, m, i).0
    ensures FreeReaches(msgs, memo, m)
    decreases Edges(u) - memo.Keys, |m.fields| - i
  {
    var f := m.fields[i];
    var key := (m, Key(m, f));
    if f.ruled {
      assert FreeIn(msgs, memo, m, 0);
    } else if !f.isMessage {
      YesIsFree(u, msgs, memo, m, i + 1);
    } else if key in memo {
      if memo[key] {
        assert StepFree(msgs, memo, m, f, 0);
        assert FreeIn(msgs, memo, m, 0);
      } else {
        YesIsFree(u, msgs, memo, m, i + 1);
      }
    } else {
      YesThroughEdge(u, msgs, memo, m, i);
    }
  }

  /** The case of a field not in the cache. */
  lemma {:induction false} YesThroughEdge(u: set<Message>, msgs: Msgs, memo: Memo, m: Message, i: nat)
    requires Covers(u, msgs) && m in u && i < |m.fields| && Search(u, msgs, memo, m, i).0
    requires !m.fields[i].ruled && m.fields[i].isMessage && (m, Key(m, m.fields[i])) !in memo
    ensures FreeReaches(msgs, memo, m)
    decreases Edges(u) - memo.Keys, |m.fields| - i, 0
  {
    var f := m.fields[i];
    var marked := memo[(m, Key(m, f)) := false];
    MarkShrinks(u, memo, m, i);
    TargetCovered(u, msgs, m, f);
    var target := Target(msgs, m, f);
    if target.None? || target.value == m {
      YesIsFree(u, msgs, marked, m, i + 1);
      FreeBefore(msgs, memo, marked, m);
    } else {
      var (found, after) := Search(u, msgs, marked, target.value, 0);
      if found {
        YesIsFree(u, msgs, marked, target.value, 0);
        FreeStep(msgs, memo, marked, m, i);
      } else {
        NoOnlyNegates(u, msgs, marked, target.value, 0);
        YesIsFree(u, msgs, after, m, i + 1);
        FreeBefore(msgs, memo, after, m);
      }
    }
  }

  /** From a finished message no rule is reached along fields free in the base. */
  lemma {:induction false} NothingBeyond(u: set<Message>, msgs: Msgs, base: Memo, memo: Memo, m: Message, n: nat)
    requires Covers(u, msgs) && m in u && Done(m, memo) && Closed(u, msgs, base, memo, {})
    ensures !FreeIn(msgs, base, m, n)
    decreases n
  {
    forall i | 0 <= i < |m.fields| ensures !m.fields[i].ruled && !StepFree(msgs, base, m, m.fields[i], n) {
      var f := m.fields[i];
      var ft := Target(msgs, m, f);
      assert FieldDone(m, f, memo);
      if n > 0 && ft.Some? && (m, Key(m, f)) !in base {
        TargetCovered(u, msgs, m, f);
        assert Settled(msgs, m, f, memo, {});
        NothingBeyond(u, msgs, base, memo, ft.value, n - 1);
      }
    }
  }

  /** Whatever the caches hold, the answer is whether a rule can be reached along fields not
      cached as negative; and a negative answer leaves the marks it made closed. */
  lemma AnswerIsFreeReach(u: set<Message>, msgs: Msgs, base: Memo, memo: Memo, m: Message)
    requires Covers(u, msgs) && m in u && Closed(u, msgs, base, memo, {})
    ensures Search(u, msgs, memo, m, 0).0 ==> FreeReaches(msgs, base, m)
    ensures !Search(u, msgs, memo, m, 0).0 ==>
      !FreeReaches(msgs, base, m) && Closed(u, msgs, base, Search(u, msgs, memo, m, 0).1, {})
  {
    if Search(u, msgs, memo, m, 0).0 {
      YesIsFree(u, msgs, memo, m, 0);
      FreeBefore(msgs, base, memo, m);
    } else {
      var after := Search(u, msgs, memo, m, 0).1;
      assert {} + {m} == {m};
      MoreAtWork(u, msgs, base, memo, {}, {m});
      FalseCloses(u, msgs, base, memo, m, 0, {m});
      WorkEnds(u, msgs, base, after, {}, m);
      forall n: nat ensures !FreeIn(msgs, base, m, n) {
        NothingBeyond(u, msgs, base, after, m, n);
      }
    }
  }

  lemma MoreAtWork(u: set<Message>, msgs: Msgs, base: Memo, memo: Memo, atWork: set<Message>, more: set<Message>)
    requires Closed(u, msgs, base, memo, atWork)
    ensures Closed(u, msgs, base, memo, atWork + more)
  {
    forall x, j | x in u && 0 <= j < |x.fields| && Added(base, memo, x, x.fields[j])
      ensures Settled(msgs, x, x.fields[j], memo, atWork + more)
    {
      assert Settled(msgs, x, x.fields[j], memo, atWork);
    }
  }

  /** A call that starts from empty caches, or after calls that have all answered no, answers
      exactly whether a rule is reachable; and if it answers no, so will the next one. */
  lemma ExactUntilFirstYes(u: set<Message>, msgs: Msgs, memo: Memo, m: Message)
    requires Covers(u, msgs) && m in u
    requires memo == map[] || Closed(u, msgs, map[], memo, {})
    ensures Search(u, msgs, memo, m, 0).0 <==> Reaches(msgs, m)
    ensures !Search(u, msgs, memo, m, 0).0 ==> Closed(u, msgs, map[], Search(u, msgs, memo, m, 0).1, {})
  {
    AnswerIsFreeReach(u, msgs, map[], memo, m);
    forall n: nat ensures FreeIn(msgs, map[], m, n) <==> ReachIn(msgs, m, n) {
      FreeOfCaches(msgs, m, n);
    }
  }

  /** Over caches left by any earlier calls, on any graph: the answer is right exactly when no rule
      is reachable, or one is reachable without passing a field cached as negative. */
  lemma RightExactlyWhenFree(u: set<Message>, msgs: Msgs, memo: Memo, m: Message)
    requires Covers(u, msgs) && m in u && TruesSound(msgs, memo)
    ensures Search(u, msgs, memo, m, 0).0 <==> FreeReaches(msgs, memo, m)
    ensures (Search(u, msgs, memo, m, 0).0 <==> Reaches(msgs, m)) <==> (Reaches(msgs, m) ==> FreeReaches(msgs, memo, m))
  {
    AnswerIsFreeReach(u, msgs, memo, memo, m);
    TrueIsRight(u, msgs, memo, m, 0);
  }

  // ---- On graphs without cycles every call is exact ----

  /** A rule is reachable through the field without coming straight back. */
  ghost predicate Onward(msgs: Msgs, m: Message, f: Field) {
    Target(msgs, m, f).Some? && Target(msgs, m, f).value != m && Reaches(msgs, Target(msgs, m, f).value)
  }

  ghost predicate ReachesFrom(msgs: Msgs, m: Message, i: nat) {
    exists j :: i <= j < |m.fields| && (m.fields[j].ruled || Onward(msgs, m, m.fields[j]))
  }

  /** Self references add nothing to what is reachable. */
  lemma ReachesOnward(msgs: Msgs, m: Message)
    ensures Reaches(msgs, m) <==> ReachesFrom(msgs, m, 0)
  {
    if ReachesFrom(msgs, m, 0) {
      var j :| 0 <= j < |m.fields| && (m.fields[j].ruled || Onward(msgs, m, m.fields[j]));
      if m.fields[j].ruled {
        DirectReaches(msgs, m, j);
      } else {
        StepBack(msgs, m, j);
      }
    }
    if Reaches(msgs, m) {
      var n: nat :| ReachIn(msgs, m, n);
      LeavesAtOnce(msgs, m, n);
    }
  }

  lemma {:induction false} LeavesAtOnce(msgs: Msgs, m: Message, n: nat)
    requires ReachIn(msgs, m, n)
    ensures ReachesFrom(msgs, m, 0)
  {
    if !Direct(m) {
      var i :| 0 <= i < |m.fields| && StepReaches(msgs, m, m.fields[i], n);
      if Target(msgs, m, m.fields[i]).value == m {
        LeavesAtOnce(msgs, m, n - 1);
      } else {
        assert ReachIn(msgs, Target(msgs, m, m.fields[i]).value, n - 1);
        assert Onward(msgs, m, m.fields[i]);
      }
    }
  }

  /** A ranking that falls along every field which is not a self reference: no longer cycles. */
  ghost predicate Ranked(u: set<Message>, msgs: Msgs, rank: map<Message, nat>) {
    && u <= rank.Keys
    && forall m, i :: m in u && 0 <= i < |m.fields| ==> Falls(msgs, rank, m, m.fields[i])
  }

  ghost predicate Falls(msgs: Msgs, rank: map<Message, nat>, m: Message, f: Field)
    requires m in rank
  {
    var target := Target(msgs, m, f);
    target.Some? && target.value != m ==> target.value in rank && rank[target.value] < rank[m]
  }

  ghost predicate EntryExact(msgs: Msgs, memo: Memo, m: Message, f: Field) {
    f.isMessage && (m, Key(m, f)) in memo ==> memo[(m, Key(m, f))] == Onward(msgs, m, f)
  }

  /** The entries of messages ranked no higher than the bound are exact. */
  ghost predicate ExactUpTo(u: set<Message>, msgs: Msgs, memo: Memo, rank: map<Message, nat>, bound: nat)
    requires u <= rank.Keys
  {
    forall m, i :: m in u && 0 <= i < |m.fields| && rank[m] <= bound ==> EntryExact(msgs, memo, m, m.fields[i])
  }

  /** The entries of messages ranked higher than the bound are the same. */
  ghost predicate SameAbove(u: set<Message>, memo: Memo, after: Memo, rank: map<Message, nat>, bound: nat)
    requires u <= rank.Keys
  {
    forall m, i :: m in u && 0 <= i < |m.fields| && rank[m] > bound ==> SameEntry(memo, after, (m, Key(m, m.fields[i])))
  }

  ghost predicate SameEntry(memo: Memo, after: Memo, e: (Message, string)) {
    (e in memo <==> e in after) && (e in memo ==> memo[e] == after[e])
  }

  lemma SameAboveJoins(u: set<Message>, a: Memo, b: Memo, c: Memo, rank: map<Message, nat>, bound: nat)
    requires u <= rank.Keys && SameAbove(u, a, b, rank, bound) && SameAbove(u, b, c, rank, bound)
    ensures SameAbove(u, a, c, rank, bound)
  {
    forall m, i | m in u && 0 <= i < |m.fields| && rank[m] > bound
      ensures SameEntry(a, c, (m, Key(m, m.fields[i])))
    {
      assert SameEntry(a, b, (m, Key(m, m.fields[i]))) && SameEntry(b, c, (m, Key(m, m.fields[i])));
    }
  }

  /** Once the search below an edge is over and its outcome noted, everything up to the edge's own
      rank is exact again. */
  lemma NoteExact(u: set<Message>, msgs: Msgs, memo: Memo, after: Memo, rank: map<Message, nat>, m: Message, i: nat, below: nat)
    requires Ranked(u, msgs, rank) && m in u && i < |m.fields| && m.fields[i].isMessage
    requires below <= rank[m] && ExactUpTo(u, msgs, memo, rank, rank[m])
    requires (m, Key(m, m.fields[i])) in after && after[(m, Key(m, m.fields[i]))] == Onward(msgs, m, m.fields[i])
    requires forall x, j :: x in u && 0 <= j < |x.fields| && rank[x] < below ==> EntryExact(msgs, after, x, x.fields[j])
    requires forall x, j :: x in u && 0 <= j < |x.fields| && rank[x] >= below ==>
      (x, Key(x, x.fields[j])) == (m, Key(m, m.fields[i])) || SameEntry(memo, after, (x, Key(x, x.fields[j])))
    ensures ExactUpTo(u, msgs, after, rank, rank[m])
  {
    forall x, j | x in u && 0 <= j < |x.fields| && rank[x] <= rank[m]
      ensures EntryExact(msgs, after, x, x.fields[j])
    {
      assert EntryExact(msgs, memo, x, x.fields[j]);
      if (x, Key(x, x.fields[j])) == (m, Key(m, m.fields[i])) {
        if x.fields[j].isMessage {
          KeyDetermines(msgs, m, m.fields[i], x.fields[j]);
        }
      } else if rank[x] >= below {
        assert SameEntry(memo, after, (x, Key(x, x.fields[j])));
      }
    }
  }

  lemma {:induction false} AcyclicExact(u: set<Message>, msgs: Msgs, memo: Memo, m: Message, i: nat, rank: map<Message, nat>)
    requires Covers(u, msgs) && m in u && i <= |m.fields| && Ranked(u, msgs, rank)
    requires ExactUpTo(u, msgs, memo, rank, rank[m])
    ensures Search(u, msgs, memo, m, i).0 <==> ReachesFrom(msgs, m, i)
    ensures ExactUpTo(u, msgs, Search(u, msgs, memo, m, i).1, rank, rank[m])
    ensures SameAbove(u, memo, Search(u, msgs, memo, m, i).1, rank, rank[m])
    decreases Edges(u) - memo.Keys, |m.fields| - i
  {
    if i < |m.fields| {
      var f := m.fields[i];
      var key := (m, Key(m, f));
      if f.ruled {
      } else if !f.isMessage || key in memo {
        assert EntryExact(msgs, memo, m, f);
        AcyclicExact(u, msgs, memo, m, i + 1, rank);
      } else {
        var marked := memo[key := false];
        MarkShrinks(u, memo, m, i);
        TargetCovered(u, msgs, m, f);
        var target := Target(msgs, m, f);
        if target.None? || target.value == m {
          NoteExact(u, msgs, memo, marked, rank, m, i, 0);
          AcyclicExact(u, msgs, marked, m, i + 1, rank);
          SameAboveJoins(u, memo, marked, Search(u, msgs, marked, m, i + 1).1, rank, rank[m]);
        } else {
          DescendExact(u, msgs, memo, m, i, rank);
          var (found, after) := Search(u, msgs, marked, target.value, 0);
          if !found {
            AcyclicExact(u, msgs, after, m, i + 1, rank);
            SameAboveJoins(u, memo, after, Search(u, msgs, after, m, i + 1).1, rank, rank[m]);
          }
        }
      }
    }
  }

  /** The call on a field's message, and what is noted about it. */
  lemma {:induction false} DescendExact(u: set<Message>, msgs: Msgs, memo: Memo, m: Message, i: nat, rank: map<Message, nat>)
    requires Covers(u, msgs) && m in u && i < |m.fields| && Ranked(u, msgs, rank)
    requires ExactUpTo(u, msgs, memo, rank, rank[m])
    requires m.fields[i].isMessage && (m, Key(m, m.fields[i])) !in memo
    requires Target(msgs, m, m.fields[i]).Some? && Target(msgs, m, m.fields[i]).value in u - {m}
    ensures
      var key := (m, Key(m, m.fields[i]));
      var (found, after) := Search(u, msgs, memo[key := false], Target(msgs, m, m.fields[i]).value, 0);
      && (found <==> Onward(msgs, m, m.fields[i]))
      && memo[key := false].Keys <= after.Keys
      && ExactUpTo(u, msgs, after[key := found], rank, rank[m])
      && after[key := found] == (if found then after[key := true] else after)
      && SameAbove(u, memo, after[key := found], rank, rank[m])
    decreases Edges(u) - memo.Keys, |m.fields| - i, 0
  {
    var f := m.fields[i];
    var key, ft := (m, Key(m, f)), Target(msgs, m, f).value;
    var marked := memo[key := false];
    MarkShrinks(u, memo, m, i);
    assert Falls(msgs, rank, m, f);
    assert ExactUpTo(u, msgs, marked, rank, rank[ft]) by {
      forall x, j | x in u && 0 <= j < |x.fields| && rank[x] <= rank[ft]
        ensures EntryExact(msgs, marked, x, x.fields[j])
      {
        assert EntryExact(msgs, memo, x, x.fields[j]);
      }
    }
    AcyclicExact(u, msgs, marked, ft, 0, rank);
    ReachesOnward(msgs, ft);
    var (found, after) := Search(u, msgs, marked, ft, 0);
    assert SameEntry(marked, after, key);
    var noted := after[key := found];
    forall x, j | x in u && 0 <= j < |x.fields| && rank[x] > rank[ft] && (x, Key(x, x.fields[j])) != key
      ensures SameEntry(memo, noted, (x, Key(x, x.fields[j])))
    {
      assert SameEntry(marked, after, (x, Key(x, x.fields[j])));
    }
    forall x, j | x in u && 0 <= j < |x.fields| && rank[x] < rank[ft] + 1 ensures EntryExact(msgs, noted, x, x.fields[j]) {
      assert EntryExact(msgs, after, x, x.fields[j]);
    }
    NoteExact(u, msgs, memo, noted, rank, m, i, rank[ft] + 1);
  }

  /** The answers of a sequence of calls, each on the caches the previous one left. */
  ghost function Answers(u: set<Message>, msgs: Msgs, memo: Memo, calls: seq<Message>): seq<bool>
    requires Covers(u, msgs) && forall m :: m in calls ==> m in u
    decreases |calls|
  {
    if calls == [] then []
    else
      assert calls[0] in calls;
      var (found, after) := Search(u, msgs, memo, calls[0], 0);
      [found] + Answers(u, msgs, after, calls[1..])
  }

  ghost predicate Exact(u: set<Message>, msgs: Msgs, memo: Memo) {
    forall m, i :: m in u && 0 <= i < |m.fields| ==> EntryExact(msgs, memo, m, m.fields[i])
  }

  /** On a graph without cycles longer than a self reference, every call of every sequence
      answers exactly whether a rule is reachable. */
  lemma {:induction false} AcyclicCallsExact(u: set<Message>, msgs: Msgs, memo: Memo, calls: seq<Message>, rank: map<Message, nat>)
    requires Covers(u, msgs) && Ranked(u, msgs, rank) && Exact(u, msgs, memo)
    requires forall m :: m in calls ==> m in u
    ensures |Answers(u, msgs, memo, calls)| == |calls|
    ensures forall k :: 0 <= k < |calls| ==> (Answers(u, msgs, memo, calls)[k] <==> Reaches(msgs, calls[k]))
    decreases |calls|
  {
    if calls != [] {
      var m := calls[0];
      assert m in calls;
      AcyclicExact(u, msgs, memo, m, 0, rank);
      ReachesOnward(msgs, m);
      var after := Search(u, msgs, memo, m, 0).1;
      forall x, i | x in u && 0 <= i < |x.fields| ensures EntryExact(msgs, after, x, x.fields[i]) {
        assert EntryExact(msgs, memo, x, x.fields[i]);
        if rank[x] > rank[m] {
          assert SameEntry(memo, after, (x, Key(x, x.fields[i])));
        }
      }
      AcyclicCallsExact(u, msgs, after, calls[1..], rank);
    }
  }

  // ---- On longer cycles a cached negative can be stale ----

  /** The hypotheses: p refers to z; z refers to x and carries a rule after that; x refers to p. */
  ghost predicate Triangle(msgs: Msgs, p: Message, z: Message, x: Message, toZ: Field, toX: Field, rule: Field, toP: Field) {
    && p.fields == [toZ] && z.fields == [toX, rule] && x.fields == [toP]
    && p != z && z != x && x != p && rule.ruled
    && Refers(msgs, p, toZ, z) && Refers(msgs, z, toX, x) && Refers(msgs, x, toP, p)
  }

  ghost predicate Refers(msgs: Msgs, m: Message, f: Field, target: Message) {
    !f.ruled && f.isMessage && Target(msgs, m, f) == Some(target)
  }

  /** Asking p first, correctly, leaves a negative mark on x that is wrong: the search came to x
      and back to p while p was still being worked on. Asking x afterwards gets the wrong answer. */
  lemma StaleNegative(u: set<Message>, msgs: Msgs, p: Message, z: Message, x: Message, toZ: Field, toX: Field,
                      rule: Field, toP: Field)
    requires Covers(u, msgs) && p in u && z in u && x in u
    requires Triangle(msgs, p, z, x, toZ, toX, rule, toP)
    ensures
      var (found, after) := Search(u, msgs, map[], p, 0);
      found && Reaches(msgs, x) && !Search(u, msgs, after, x, 0).0
  {
    var kp, kz, kx := (p, Key(p, toZ)), (z, Key(z, toX)), (x, Key(x, toP));
    var m1: Memo := map[kp := false];
    var m2 := m1[kz := false];
    var m3 := m2[kx := false];
    assert Search(u, msgs, m3, p, 0) == (false, m3);
    assert Search(u, msgs, m3, x, 1) == (false, m3);
    assert Search(u, msgs, m2, x, 0) == (false, m3);
    assert Search(u, msgs, m3, z, 1) == (true, m3);
    assert Search(u, msgs, m1, z, 0) == (true, m3);
    var after := m3[kp := true];
    assert map[][kp := false] == m1;
    assert Search(u, msgs, map[], p, 0) == (true, after);
    assert Search(u, msgs, after, x, 1) == (false, after);
    assert Search(u, msgs, after, x, 0) == (false, after);
    DirectReaches(msgs, z, 1);
    StepBack(msgs, p, 0);
    StepBack(msgs, x, 0);
  }

  // ---- The caches in place ----

  /** The caches of all messages as one map. */
  ghost function MemoOf(u: set<Message>): Memo
    reads u
  {
    map m, k | m in u && k in m.checkedFields :: (m, k) := m.checkedFields[k]
  }

  lemma MemoAt(u: set<Message>, m: Message, k: string)
    requires m in u
    ensures (m, k) in MemoOf(u) <==> k in m.checkedFields
    ensures k in m.checkedFields ==> MemoOf(u)[(m, k)] == m.checkedFields[k]
  {
  }

  class Message {
    const pkg: string
    const fields: seq<Field>
    var checkedFields: map<string, bool>

    constructor (pkg: string, fields: seq<Field>)
      ensures this.pkg == pkg && this.fields == fields && checkedFields == map[]
    {
      this.pkg, this.fields, checkedFields := pkg, fields, map[];
    }

    /** One write to this message's cache. */
    method Note(key: string, value: bool, ghost u: set<Message>)
      requires this in u
      modifies this`checkedFields
      ensures checkedFields == old(checkedFields)[key := value]
      ensures MemoOf(u) == old(MemoOf(u))[(this, key) := value]
    {
      checkedFields := checkedFields[key := value];
    }

    /** `HasRule`: the method and the caches it writes in place do what the search does. */
    method HasRule(msgs: Msgs, ghost u: set<Message>) returns (found: bool)
      requires Covers(u, msgs) && this in u
      modifies u`checkedFields
      ensures (found, MemoOf(u)) == Search(u, msgs, old(MemoOf(u)), this, 0)
      decreases Edges(u) - MemoOf(u).Keys
    {
      ghost var before := MemoOf(u);
      var i := 0;
      while i < |fields|
        invariant 0 <= i <= |fields|
        invariant before.Keys <= MemoOf(u).Keys
        invariant Search(u, msgs, before, this, 0) == Search(u, msgs, MemoOf(u), this, i)
      {
        var f := fields[i];
        if f.ruled {
          return true;
        }
        if f.isMessage {
          var key := Key(this, f);
          ghost var memo := MemoOf(u);
          MemoAt(u, this, key);
          if key in checkedFields {
            if checkedFields[key] {
              return true;
            }
            i := i + 1;
            continue;
          }
          MarkShrinks(u, memo, this, i);
          TargetCovered(u, msgs, this, f);
          Note(key, false, u);
          var ft := Lookup(msgs, pkg, f.typeName);
          if ft.Some? && ft.value != this {
            var r := ft.value.HasRule(msgs, u);
            if r {
              Note(key, true, u);
              return true;
            }
          }
        }
        i := i + 1;
      }
      return false;
    }
  }

  /** Three messages that refer to each other in a cycle, the second with a rule after its
      reference: asking the first is answered rightly, and then asking the third wrongly. */
  method AskTwice() returns (first: bool, second: bool, ghost msgs: Msgs, ghost third: Message)
    ensures first && !second && Reaches(msgs, third)
  {
    var toZ, toX, toP := Field(false, true, ".Z"), Field(false, true, ".X"), Field(false, true, ".P");
    var rule := Field(true, false, "");
    var p := new Message("", [toZ]);
    var z := new Message("", [toX, rule]);
    var x := new Message("", [toP]);
    var known := map[".P" := p, ".Z" := z, ".X" := x];
    ghost var u := {p, z, x};
    assert MemoOf(u) == map[];
    assert Triangle(known, p, z, x, toZ, toX, rule, toP);
    StaleNegative(u, known, p, z, x, toZ, toX, rule, toP);
    first := p.HasRule(known, u);
    second := x.HasRule(known, u);
    msgs, third := known, x;
  }
}
