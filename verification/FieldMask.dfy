/** Field masks from JSON request bodies: two breadth-first work-lists over objects whose keys come
    in no particular order, against a recursive enumeration of the leaves. */
module FieldMask {
  import opened Text
  import opened Bags
  import opened Schema

  /** A decoded JSON value: what is not an object is a leaf here. */
  datatype Json = Leaf | Obj(members: map<string, Json>)

  predicate IsDynamic(msgType: Option<string>) {
    msgType == Some("google.protobuf.Struct") || msgType == Some("google.protobuf.Value")
  }

  predicate IsAny(msgType: Option<string>) {
    msgType == Some("google.protobuf.Any")
  }

  /** A queued item: the path so far, the value still to be looked into, and its message type. */
  datatype Item = Item(path: string, node: Json, msg: Option<string>)

  function Extend(path: string, name: string): string {
    if path == "" then name else path + "." + name
  }

  function Restrict<T>(f: map<string, T>, keys: set<string>): map<string, T> {
    map k | k in f && k in keys :: f[k]
  }

  // ---- The recursive enumeration ----

  /** All paths to the leaves of a value, by its own structure alone. */
  ghost function Blind(path: string, v: Json): multiset<string>
    decreases v, 1
  {
    if v.Leaf? then multiset{path} else Sum(BlindParts(path, v))
  }

  ghost function BlindParts(path: string, v: Json): (f: map<string, multiset<string>>)
    requires v.Obj?
    ensures f.Keys == v.members.Keys
    decreases v, 0
  {
    map k | k in v.members :: Blind(path + "." + k, v.members[k])
  }

  /** How many values a value holds, itself included. */
  ghost function Size(v: Json): (n: nat)
    ensures n >= 1
    decreases v, 1
  {
    if v.Leaf? then 1 else 1 + Total(Sizes(v))
  }

  ghost function Sizes(v: Json): (f: map<string, nat>)
    requires v.Obj?
    ensures f.Keys == v.members.Keys
    decreases v, 0
  {
    map k | k in v.members :: Size(v.members[k])
  }

  lemma {:induction false} BlindIsSmall(path: string, v: Json)
    ensures |Blind(path, v)| <= Size(v)
    decreases v
  {
    if v.Obj? {
      forall k | k in v.members ensures |BlindParts(path, v)[k]| <= Sizes(v)[k] {
        BlindIsSmall(path + "." + k, v.members[k]);
      }
      SumBounded(BlindParts(path, v), Sizes(v));
    }
  }

  // ---- Putting a bag of paths below a prefix ----

  /** The bag b holds the paths of a, each with the prefix, and nothing else. */
  ghost predicate Below(prefix: string, a: multiset<string>, b: multiset<string>) {
    (forall q :: b[prefix + q] == a[q]) && (forall q :: q in b ==> prefix <= q)
  }

  lemma BelowIsOne(prefix: string, a: multiset<string>, b: multiset<string>, c: multiset<string>)
    requires Below(prefix, a, b) && Below(prefix, a, c)
    ensures b == c
  {
    forall q ensures b[q] == c[q] {
      if prefix <= q {
        assert q == prefix + q[|prefix|..];
      }
    }
  }

  lemma BelowJoins(prefix: string, a: multiset<string>, b: multiset<string>, c: multiset<string>, d: multiset<string>)
    requires Below(prefix, a, b) && Below(prefix, c, d)
    ensures Below(prefix, a + c, b + d)
  {
  }

  lemma BelowSingle(prefix: string, p: string)
    ensures Below(prefix, multiset{p}, multiset{prefix + p})
  {
    forall q ensures multiset{prefix + p}[prefix + q] == multiset{p}[q] {
      assert prefix + p == prefix + q ==> (prefix + p)[|prefix|..] == (prefix + q)[|prefix|..];
    }
  }

  lemma {:induction false} BelowSum(prefix: string, f: map<string, multiset<string>>, g: map<string, multiset<string>>)
    requires f.Keys == g.Keys && forall k :: k in f ==> Below(prefix, f[k], g[k])
    ensures Below(prefix, Sum(f), Sum(g))
    decreases |f|
  {
    if f != map[] {
      var k :| k in f;
      SumTake(f, k);
      SumTake(g, k);
      BelowSum(prefix, f - {k}, g - {k});
      BelowJoins(prefix, f[k], g[k], Sum(f - {k}), Sum(g - {k}));
    } else {
      assert g == map[];
    }
  }

  /** Enumerating below a longer path is enumerating and then prefixing. */
  lemma {:induction false} BlindBelow(prefix: string, path: string, v: Json)
    ensures Below(prefix, Blind(path, v), Blind(prefix + path, v))
    decreases v
  {
    if v.Leaf? {
      BelowSingle(prefix, path);
    } else {
      forall k | k in v.members
        ensures Below(prefix, BlindParts(path, v)[k], BlindParts(prefix + path, v)[k])
      {
        BlindBelow(prefix, path + "." + k, v.members[k]);
        Assoc(prefix, path + ".", k);
        Assoc(prefix, path, ".");
      }
      BelowSum(prefix, BlindParts(path, v), BlindParts(prefix + path, v));
    }
  }

  // ---- buildPathsBlindly ----

  ghost function QueueBlind(queue: seq<(string, Json)>): multiset<string> {
    if queue == [] then multiset{} else Blind(queue[0].0, queue[0].1) + QueueBlind(queue[1..])
  }

  ghost function QueueSize(queue: seq<(string, Json)>): nat {
    if queue == [] then 0 else Size(queue[0].1) + QueueSize(queue[1..])
  }

  lemma {:induction false} QueueAppend(queue: seq<(string, Json)>, x: (string, Json))
    ensures QueueBlind(queue + [x]) == QueueBlind(queue) + Blind(x.0, x.1)
    ensures QueueSize(queue + [x]) == QueueSize(queue) + Size(x.1)
  {
    if queue == [] {
      assert queue + [x] == [x] && [x][1..] == [];
    } else {
      assert (queue + [x])[1..] == queue[1..] + [x];
      QueueAppend(queue[1..], x);
    }
  }

  lemma RestrictTake<T>(f: map<string, T>, keys: set<string>, k: string)
    requires k in keys && keys <= f.Keys
    ensures k in Restrict(f, keys) && Restrict(f, keys)[k] == f[k]
    ensures Restrict(f, keys) - {k} == Restrict(f, keys - {k})
  {
  }

  lemma RestrictAll<T>(f: map<string, T>)
    ensures Restrict(f, f.Keys) == f && Restrict(f, {}) == map[]
  {
  }

  /** What is still to come from an object some of whose members have been dealt with. */
  ghost function PartBlind(path: string, v: Json, keys: set<string>): multiset<string>
    requires v.Obj?
  {
    Sum(Restrict(BlindParts(path, v), keys))
  }

  ghost function PartSize(v: Json, keys: set<string>): nat
    requires v.Obj?
  {
    Total(Restrict(Sizes(v), keys))
  }

  lemma {:induction false} PartTake(path: string, v: Json, keys: set<string>, k: string)
    requires v.Obj? && k in keys && keys <= v.members.Keys
    ensures PartBlind(path, v, keys) == Blind(path + "." + k, v.members[k]) + PartBlind(path, v, keys - {k})
    ensures PartSize(v, keys) == Size(v.members[k]) + PartSize(v, keys - {k})
  {
    RestrictTake(BlindParts(path, v), keys, k);
    SumTake(Restrict(BlindParts(path, v), keys), k);
    RestrictTake(Sizes(v), keys, k);
    TotalTake(Restrict(Sizes(v), keys), k);
  }

  lemma PartAll(path: string, v: Json)
    requires v.Obj?
    ensures PartBlind(path, v, v.members.Keys) == Blind(path, v) && PartBlind(path, v, {}) == multiset{}
    ensures PartSize(v, v.members.Keys) == Size(v) - 1 && PartSize(v, {}) == 0
  {
    RestrictAll(BlindParts(path, v));
    RestrictAll(Sizes(v));
  }

  /** One object of the work-list, its members in whatever order they come: leaves become paths,
      objects are queued. */
  method SpreadBlindly(cur: (string, Json)) returns (paths: seq<string>, queued: seq<(string, Json)>)
    requires cur.1.Obj?
    ensures multiset(paths) + QueueBlind(queued) == Blind(cur.0, cur.1)
    ensures QueueSize(queued) < Size(cur.1)
    ensures forall x :: x in queued ==> x.1.Obj?
  {
    paths, queued := [], [];
    var remaining := cur.1.members.Keys;
    PartAll(cur.0, cur.1);
    while remaining != {}
      invariant remaining <= cur.1.members.Keys
      invariant multiset(paths) + QueueBlind(queued) + PartBlind(cur.0, cur.1, remaining) == Blind(cur.0, cur.1)
      invariant QueueSize(queued) + PartSize(cur.1, remaining) < Size(cur.1)
      invariant forall x :: x in queued ==> x.1.Obj?
    {
      var k :| k in remaining;
      PartTake(cur.0, cur.1, remaining, k);
      remaining := remaining - {k};
      var v := cur.1.members[k];
      if v.Obj? {
        QueueAppend(queued, (cur.0 + "." + k, v));
        queued := queued + [(cur.0 + "." + k, v)];
      } else {
        paths := paths + [cur.0 + "." + k];
      }
    }
  }

  lemma {:induction false} QueueJoin(a: seq<(string, Json)>, b: seq<(string, Json)>)
    ensures QueueBlind(a + b) == QueueBlind(a) + QueueBlind(b)
    ensures QueueSize(a + b) == QueueSize(a) + QueueSize(b)
  {
    if a == [] {
      assert a + b == b;
    } else {
      assert (a + b)[1..] == a[1..] + b;
      QueueJoin(a[1..], b);
    }
  }

  /** `buildPathsBlindly`: the work-list finds every leaf path once, whatever the orders. */
  method BuildPathsBlindly(name: string, v: Json) returns (paths: seq<string>)
    ensures multiset(paths) == Blind(name, v)
  {
    if v.Leaf? {
      return [name];
    }
    paths := [];
    var queue := [(name, v)];
    assert queue[1..] == [];
    while |queue| > 0
      invariant multiset(paths) + QueueBlind(queue) == Blind(name, v)
      invariant forall x :: x in queue ==> x.1.Obj?
      decreases QueueSize(queue)
    {
      var cur := queue[0];
      var more, queued := SpreadBlindly(cur);
      QueueJoin(queue[1..], queued);
      queue := queue[1..] + queued;
      paths := paths + more;
    }
  }

  // ---- The recursive mask ----

  /** What stops the work-list: an error that is returned, or a panic. */
  datatype Trouble = Error | Panic

  /** The trouble with a field that the mask cannot describe: it is unknown, below something that
      is not a message, or an Any without a type; an Any that is not an object makes a type
      assertion panic. */
  function TroubleOf(schema: Schema, item: Item, k: string): Option<Trouble>
    requires item.node.Obj? && k in item.node.members
  {
    if item.msg.None? || GetField(schema, item.msg.value, k).None? then Some(Error)
    else
      var fd := GetField(schema, item.msg.value, k).value;
      if IsDynamic(fd.msgType) || !IsAny(fd.msgType) then None
      else if item.node.members[k].Leaf? then Some(Panic)
      else if "@type" !in item.node.members[k].members then Some(Error)
      else None
  }

  /** What a known field leads to: paths that are final as far as structure goes, or an item to
      look into. */
  datatype Way = Dynamic | AnyPath | Final | Into(child: Item)

  function WayOf(schema: Schema, item: Item, k: string): Way
    requires item.node.Obj? && k in item.node.members && TroubleOf(schema, item, k).None?
  {
    var fd := GetField(schema, item.msg.value, k).value;
    if IsDynamic(fd.msgType) then Dynamic
    else if IsAny(fd.msgType) then AnyPath
    else if fd.shape != Singular then Final
    else Into(Item(Extend(item.path, fd.name), item.node.members[k], fd.msgType))
  }

  /** This trouble is somewhere in the value. */
  ghost predicate Has(schema: Schema, item: Item, t: Trouble)
    decreases item.node
  {
    item.node.Obj? &&
    exists k :: k in item.node.members &&
      (TroubleOf(schema, item, k) == Some(t) ||
       (TroubleOf(schema, item, k).None? && WayOf(schema, item, k).Into? && Has(schema, WayOf(schema, item, k).child, t)))
  }

  /** A path that is printed: the root alone has none. */
  function Printed(path: string): multiset<string> {
    if path == "" then multiset{} else multiset{path}
  }

  /** The paths of the mask below an item: leaves of known fields, repeated fields whole, dynamic
      values by their own structure. */
  ghost function Paths(schema: Schema, item: Item): multiset<string>
    decreases item.node, 1
  {
    if item.node.Leaf? then Printed(item.path) else Sum(FieldPaths(schema, item))
  }

  ghost function FieldPaths(schema: Schema, item: Item): (f: map<string, multiset<string>>)
    requires item.node.Obj?
    ensures f.Keys == item.node.members.Keys
    decreases item.node, 0
  {
    map k | k in item.node.members ::
      if TroubleOf(schema, item, k).Some? then multiset{}
      else
        match WayOf(schema, item, k)
        case Dynamic => NonEmpty(Blind(Extend(item.path, k), item.node.members[k]))
        case AnyPath => Printed(k)
        case Final => multiset{Extend(item.path, GetField(schema, item.msg.value, k).value.name)}
        case Into(child) => Paths(schema, child)
  }

  ghost function NonEmpty(bag: multiset<string>): multiset<string> {
    bag["" := 0]
  }

  // ---- The queue of items ----

  ghost function QueuePaths(schema: Schema, queue: seq<Item>): multiset<string> {
    if queue == [] then multiset{} else Paths(schema, queue[0]) + QueuePaths(schema, queue[1..])
  }

  ghost function ItemsSize(queue: seq<Item>): nat {
    if queue == [] then 0 else Size(queue[0].node) + ItemsSize(queue[1..])
  }

  ghost predicate QueueHas(schema: Schema, queue: seq<Item>, t: Trouble) {
    if queue == [] then false else Has(schema, queue[0], t) || QueueHas(schema, queue[1..], t)
  }

  lemma {:induction false} ItemsJoin(schema: Schema, a: seq<Item>, b: seq<Item>)
    ensures QueuePaths(schema, a + b) == QueuePaths(schema, a) + QueuePaths(schema, b)
    ensures ItemsSize(a + b) == ItemsSize(a) + ItemsSize(b)
    ensures forall t :: QueueHas(schema, a + b, t) <==> QueueHas(schema, a, t) || QueueHas(schema, b, t)
  {
    if a == [] {
      assert a + b == b;
    } else {
      assert (a + b)[1..] == a[1..] + b;
      ItemsJoin(schema, a[1..], b);
    }
  }

  lemma OneItem(schema: Schema, x: Item)
    ensures QueuePaths(schema, [x]) == Paths(schema, x)
    ensures ItemsSize([x]) == Size(x.node)
    ensures forall t :: QueueHas(schema, [x], t) <==> Has(schema, x, t)
  {
    assert [x][1..] == [];
  }

  // ---- Dynamic values ----

  function ExtendAll(path: string, names: seq<string>): seq<string> {
    if names == [] then [] else [Extend(path, names[0])] + ExtendAll(path, names[1..])
  }

  lemma HeadOfBag(s: seq<string>)
    requires s != []
    ensures multiset(s) == multiset{s[0]} + multiset(s[1..])
  {
    assert s == [s[0]] + s[1..];
  }

  lemma NonEmptyJoins(a: multiset<string>, b: multiset<string>)
    ensures NonEmpty(a + b) == NonEmpty(a) + NonEmpty(b)
  {
  }

  lemma NonEmptySingle(p: string)
    ensures NonEmpty(multiset{p}) == Printed(p)
  {
  }

  lemma {:induction false} ExtendAllBelow(path: string, names: seq<string>)
    requires path != ""
    ensures Below(path + ".", multiset(names), multiset(ExtendAll(path, names)))
  {
    if names != [] {
      var rest := ExtendAll(path, names[1..]);
      ExtendAllBelow(path, names[1..]);
      BelowSingle(path + ".", names[0]);
      BelowJoins(path + ".", multiset{names[0]}, multiset{path + "." + names[0]}, multiset(names[1..]), multiset(rest));
      HeadOfBag(names);
      HeadOfBag(ExtendAll(path, names));
    }
  }

  lemma {:induction false} ExtendAllRoot(names: seq<string>)
    ensures ExtendAll("", names) == names
  {
    if names != [] {
      ExtendAllRoot(names[1..]);
    }
  }

  lemma DynamicBelow(path: string, k: string, v: Json, names: seq<string>)
    requires multiset(names) == Blind(k, v)
    ensures multiset(ExtendAll(path, names)) == Blind(Extend(path, k), v)
  {
    if path == "" {
      ExtendAllRoot(names);
    } else {
      ExtendAllBelow(path, names);
      BlindBelow(path + ".", k, v);
      BelowIsOne(path + ".", multiset(names), multiset(ExtendAll(path, names)), Blind(path + "." + k, v));
    }
  }

  /** Path-only items are printed when they come up. */
  function PathItems(paths: seq<string>): seq<Item> {
    if paths == [] then [] else [Item(paths[0], Leaf, None)] + PathItems(paths[1..])
  }

  lemma {:induction false} PathItemsPrint(schema: Schema, paths: seq<string>)
    ensures QueuePaths(schema, PathItems(paths)) == NonEmpty(multiset(paths))
    ensures ItemsSize(PathItems(paths)) == |paths|
    ensures forall t :: !QueueHas(schema, PathItems(paths), t)
  {
    if paths != [] {
      var first := Item(paths[0], Leaf, None);
      PathItemsPrint(schema, paths[1..]);
      assert PathItems(paths)[1..] == PathItems(paths[1..]);
      HeadOfBag(paths);
      NonEmptyJoins(multiset{paths[0]}, multiset(paths[1..]));
      NonEmptySingle(paths[0]);
      assert Paths(schema, first) == Printed(paths[0]);
    }
  }

  /** The loop that queues what `buildPathsBlindly` found. */
  method QueueNames(path: string, names: seq<string>) returns (queued: seq<Item>)
    ensures queued == PathItems(ExtendAll(path, names))
  {
    queued := [];
    var i := 0;
    assert names[0..] == names;
    while i < |names|
      invariant 0 <= i <= |names|
      invariant queued + PathItems(ExtendAll(path, names[i..])) == PathItems(ExtendAll(path, names))
    {
      ExtendNext(path, names, i);
      var newPath := names[i];
      if path != "" {
        newPath := path + "." + newPath;
      }
      Assoc(queued, [Item(newPath, Leaf, None)], PathItems(ExtendAll(path, names[i + 1..])));
      queued := queued + [Item(newPath, Leaf, None)];
      i := i + 1;
    }
    assert names[i..] == [];
  }

  lemma ExtendNext(path: string, names: seq<string>, i: nat)
    requires i < |names|
    ensures PathItems(ExtendAll(path, names[i..]))
      == [Item(Extend(path, names[i]), Leaf, None)] + PathItems(ExtendAll(path, names[i + 1..]))
  {
    assert names[i..][1..] == names[i + 1..];
    var all := ExtendAll(path, names[i..]);
    assert all[1..] == ExtendAll(path, names[i + 1..]);
  }

  method QueueDynamic(path: string, k: string, v: Json, schema: Schema) returns (queued: seq<Item>)
    ensures QueuePaths(schema, queued) == NonEmpty(Blind(Extend(path, k), v))
    ensures ItemsSize(queued) <= Size(v) && forall t :: !QueueHas(schema, queued, t)
  {
    var names := BuildPathsBlindly(k, v);
    queued := QueueNames(path, names);
    DynamicBelow(path, k, v, names);
    PathItemsPrint(schema, ExtendAll(path, names));
    DynamicIsSmall(path, k, v, names);
  }

  lemma DynamicIsSmall(path: string, k: string, v: Json, names: seq<string>)
    requires multiset(names) == Blind(k, v)
    ensures |ExtendAll(path, names)| <= Size(v)
  {
    ExtendAllLength(path, names);
    BlindIsSmall(k, v);
    assert |multiset(names)| == |names|;
  }

  lemma {:induction false} ExtendAllLength(path: string, names: seq<string>)
    ensures |ExtendAll(path, names)| == |names|
  {
    if names != [] {
      ExtendAllLength(path, names[1..]);
    }
  }

  // ---- One object ----

  /** What is still to come from an item some of whose members have been dealt with. */
  ghost function PartPaths(schema: Schema, item: Item, keys: set<string>): multiset<string>
    requires item.node.Obj?
  {
    Sum(Restrict(FieldPaths(schema, item), keys))
  }

  ghost predicate FieldHas(schema: Schema, item: Item, k: string, t: Trouble)
    requires item.node.Obj? && k in item.node.members
  {
    TroubleOf(schema, item, k) == Some(t) ||
    (TroubleOf(schema, item, k).None? && WayOf(schema, item, k).Into? && Has(schema, WayOf(schema, item, k).child, t))
  }

  ghost predicate HasAmong(schema: Schema, item: Item, keys: set<string>, t: Trouble)
    requires item.node.Obj?
  {
    exists k :: k in keys && k in item.node.members && FieldHas(schema, item, k, t)
  }

  lemma HasAmongTake(schema: Schema, item: Item, keys: set<string>, k: string)
    requires item.node.Obj? && k in item.node.members && k in keys
    ensures forall t :: HasAmong(schema, item, keys, t) <==> FieldHas(schema, item, k, t) || HasAmong(schema, item, keys - {k}, t)
    ensures forall t :: FieldHas(schema, item, k, t) ==> Has(schema, item, t)
  {
  }

  lemma HasAmongAll(schema: Schema, item: Item)
    requires item.node.Obj?
    ensures forall t :: HasAmong(schema, item, item.node.members.Keys, t) <==> Has(schema, item, t)
    ensures forall t :: !HasAmong(schema, item, {}, t)
  {
  }

  lemma PartPathsTake(schema: Schema, item: Item, keys: set<string>, k: string)
    requires item.node.Obj? && k in keys && keys <= item.node.members.Keys
    ensures PartPaths(schema, item, keys) == FieldPaths(schema, item)[k] + PartPaths(schema, item, keys - {k})
    ensures PartSize(item.node, keys) == Size(item.node.members[k]) + PartSize(item.node, keys - {k})
  {
    RestrictTake(FieldPaths(schema, item), keys, k);
    SumTake(Restrict(FieldPaths(schema, item), keys), k);
    RestrictTake(Sizes(item.node), keys, k);
    TotalTake(Restrict(Sizes(item.node), keys), k);
  }

  lemma PartPathsAll(schema: Schema, item: Item)
    requires item.node.Obj?
    ensures PartPaths(schema, item, item.node.members.Keys) == Paths(schema, item)
    ensures PartPaths(schema, item, {}) == multiset{}
    ensures PartSize(item.node, item.node.members.Keys) == Size(item.node) - 1 && PartSize(item.node, {}) == 0
  {
    RestrictAll(FieldPaths(schema, item));
    RestrictAll(Sizes(item.node));
  }

  /** What a known field stands for, by the way it goes. */
  ghost predicate Delivers(schema: Schema, item: Item, k: string, emitted: seq<string>, queued: seq<Item>)
    requires item.node.Obj? && k in item.node.members
  {
    && multiset(emitted) + QueuePaths(schema, queued) == FieldPaths(schema, item)[k]
    && ItemsSize(queued) <= Size(item.node.members[k])
    && forall t :: QueueHas(schema, queued, t) <==> FieldHas(schema, item, k, t)
  }

  lemma DeliversQueue(schema: Schema, item: Item, k: string, queued: seq<Item>)
    requires item.node.Obj? && k in item.node.members && TroubleOf(schema, item, k).None?
    requires !WayOf(schema, item, k).Into? && ItemsSize(queued) <= Size(item.node.members[k])
    requires QueuePaths(schema, queued) == FieldPaths(schema, item)[k] && forall t :: !QueueHas(schema, queued, t)
    ensures Delivers(schema, item, k, [], queued)
  {
  }

  lemma DeliversChild(schema: Schema, item: Item, k: string)
    requires item.node.Obj? && k in item.node.members && TroubleOf(schema, item, k).None?
    requires WayOf(schema, item, k).Into?
    ensures Delivers(schema, item, k, [], [WayOf(schema, item, k).child])
  {
    OneItem(schema, WayOf(schema, item, k).child);
  }

  /** One known field: final paths are emitted, everything else is queued. */
  method SpreadField(schema: Schema, item: Item, k: string) returns (emitted: seq<string>, queued: seq<Item>)
    requires item.node.Obj? && k in item.node.members && TroubleOf(schema, item, k).None?
    ensures Delivers(schema, item, k, emitted, queued)
  {
    var v := item.node.members[k];
    var fd := GetField(schema, item.msg.value, k).value;
    emitted, queued := [], [];
    if IsDynamic(fd.msgType) {
      queued := QueueDynamic(item.path, k, v, schema);
      DeliversQueue(schema, item, k, queued);
    } else if IsAny(fd.msgType) {
      queued := [Item(k, Leaf, None)];
      OneItem(schema, queued[0]);
      DeliversQueue(schema, item, k, queued);
    } else {
      var path := if item.path == "" then fd.name else item.path + "." + fd.name;
      if fd.shape != Singular {
        emitted := [path];
      } else {
        queued := [Item(path, v, fd.msgType)];
        DeliversChild(schema, item, k);
      }
    }
  }

  /** What one object of the work-list has come to: trouble that it has, or paths and items that
      account for all its paths and all its trouble. */
  ghost predicate Spread(schema: Schema, item: Item, stop: Option<Trouble>, emitted: seq<string>, queued: seq<Item>) {
    if stop.Some? then Has(schema, item, stop.value)
    else
      && multiset(emitted) + QueuePaths(schema, queued) == Paths(schema, item)
      && ItemsSize(queued) < Size(item.node)
      && forall t :: QueueHas(schema, queued, t) <==> Has(schema, item, t)
  }

  /** One object of the work-list, its members in whatever order they come. */
  method SpreadItem(schema: Schema, item: Item) returns (stop: Option<Trouble>, emitted: seq<string>, queued: seq<Item>)
    requires item.node.Obj?
    ensures Spread(schema, item, stop, emitted, queued)
  {
    stop, emitted, queued := None, [], [];
    var remaining := item.node.members.Keys;
    PartPathsAll(schema, item);
    HasAmongAll(schema, item);
    while remaining != {}
      invariant remaining <= item.node.members.Keys
      invariant multiset(emitted) + QueuePaths(schema, queued) + PartPaths(schema, item, remaining) == Paths(schema, item)
      invariant ItemsSize(queued) + PartSize(item.node, remaining) < Size(item.node)
      invariant forall t :: QueueHas(schema, queued, t) || HasAmong(schema, item, remaining, t) <==> Has(schema, item, t)
    {
      var k :| k in remaining;
      var rest := remaining - {k};
      HasAmongTake(schema, item, remaining, k);
      if TroubleOf(schema, item, k).Some? {
        return TroubleOf(schema, item, k), [], [];
      }
      PartPathsTake(schema, item, remaining, k);
      var e, q := SpreadField(schema, item, k);
      ItemsJoin(schema, queued, q);
      Regroup(multiset(emitted), QueuePaths(schema, queued), PartPaths(schema, item, remaining), Paths(schema, item),
        multiset(e), QueuePaths(schema, q), PartPaths(schema, item, rest));
      emitted, queued, remaining := emitted + e, queued + q, rest;
    }
  }

  // ---- Sorting ----

  /** `sort.Strings` order: element by element, a prefix first. */
  predicate Before(a: string, b: string) {
    if a == [] then true
    else if b == [] then false
    else a[0] < b[0] || (a[0] == b[0] && Before(a[1..], b[1..]))
  }

  lemma {:induction false} BeforeTotal(a: string, b: string)
    ensures Before(a, b) || Before(b, a)
    ensures Before(a, b) && Before(b, a) ==> a == b
  {
    if a != [] && b != [] {
      BeforeTotal(a[1..], b[1..]);
      assert a == [a[0]] + a[1..] && b == [b[0]] + b[1..];
    }
  }

  lemma {:induction false} BeforeTransitive(a: string, b: string, c: string)
    requires Before(a, b) && Before(b, c)
    ensures Before(a, c)
  {
    if a != [] {
      if a[0] == b[0] && b[0] == c[0] {
        BeforeTransitive(a[1..], b[1..], c[1..]);
      }
    }
  }

  /** It is the order of the dictionary. */
  lemma {:induction false} BeforeMeans(a: string, b: string)
    ensures Before(a, b) <==> a <= b || exists k :: 0 <= k < |a| && k < |b| && a[..k] == b[..k] && a[k] < b[k]
  {
    if a != [] && b != [] && a[0] == b[0] {
      BeforeMeans(a[1..], b[1..]);
      if k :| 0 <= k < |a[1..]| && k < |b[1..]| && a[1..][..k] == b[1..][..k] && a[1..][k] < b[1..][k] {
        assert a[..k + 1] == [a[0]] + a[1..][..k] && b[..k + 1] == [b[0]] + b[1..][..k];
        assert a[k + 1] < b[k + 1];
      }
      if k :| 0 <= k < |a| && k < |b| && a[..k] == b[..k] && a[k] < b[k] {
        assert a[1..][..k - 1] == a[..k][1..] && b[1..][..k - 1] == b[..k][1..];
        assert a[1..][k - 1] < b[1..][k - 1];
      }
      assert a == [a[0]] + a[1..] && b == [b[0]] + b[1..];
    } else if a != [] && b != [] && a[0] < b[0] {
      assert a[..0] == b[..0];
    }
  }

  predicate Sorted(s: seq<string>) {
    forall i, j :: 0 <= i < j < |s| ==> Before(s[i], s[j])
  }

  /** Sorting as the library does it: some sorted arrangement of the same strings. */
  method SortStrings(s: seq<string>) returns (r: seq<string>)
    ensures Sorted(r) && multiset(r) == multiset(s)
  {
    r := [];
    var i := 0;
    while i < |s|
      invariant 0 <= i <= |s|
      invariant Sorted(r) && multiset(r) == multiset(s[..i])
    {
      r := Insert(r, s[i]);
      assert s[..i + 1] == s[..i] + [s[i]];
      i := i + 1;
    }
    assert s[..i] == s;
  }

  method Insert(s: seq<string>, x: string) returns (r: seq<string>)
    requires Sorted(s)
    ensures Sorted(r) && multiset(r) == multiset(s) + multiset{x}
  {
    var k := 0;
    while k < |s| && Before(s[k], x)
      invariant 0 <= k <= |s|
      invariant forall i :: 0 <= i < k ==> Before(s[i], x)
    {
      k := k + 1;
    }
    r := s[..k] + [x] + s[k..];
    assert s == s[..k] + s[k..];
    forall j | k <= j < |s| ensures Before(x, s[j]) {
      BeforeTotal(s[k], x);
      if j > k {
        BeforeTransitive(x, s[k], s[j]);
      }
    }
  }

  lemma BagTails(a: seq<string>, b: seq<string>)
    requires a != [] && b != [] && multiset(a) == multiset(b) && a[0] == b[0]
    ensures multiset(a[1..]) == multiset(b[1..])
  {
    HeadOfBag(a);
    HeadOfBag(b);
    assert multiset(a[1..]) == multiset(a) - multiset{a[0]};
  }

  /** There is one sorted arrangement of a bag. */
  lemma {:induction false} SortedOnce(a: seq<string>, b: seq<string>)
    requires Sorted(a) && Sorted(b) && multiset(a) == multiset(b)
    ensures a == b
  {
    if a != [] {
      HeadOfBag(a);
      assert a[0] in multiset(b);
      assert b != [];
      HeadOfBag(b);
      assert b[0] in multiset(a);
      var i :| 0 <= i < |b| && b[i] == a[0];
      var j :| 0 <= j < |a| && a[j] == b[0];
      BeforeTotal(a[0], b[0]);
      assert a[0] == b[0];
      BagTails(a, b);
      SortedOnce(a[1..], b[1..]);
      assert a == [a[0]] + a[1..] && b == [b[0]] + b[1..];
    }
  }

  // ---- The mask ----

  /** A request body: nothing, text that is not JSON, or a value. */
  datatype Body = Empty | Garbled | Value(root: Json)

  datatype Mask = Mask(paths: seq<string>) | Failed | Panicked

  /** What the mask of a body may be, apart from any order of evaluation. */
  ghost predicate IsMask(schema: Schema, body: Body, msg: string, r: Mask) {
    match body
    case Empty => r == Mask([])
    case Garbled => r == Failed
    case Value(root) =>
      var item := Item("", root, Some(msg));
      match r
      case Failed => Has(schema, item, Error)
      case Panicked => Has(schema, item, Panic)
      case Mask(paths) =>
        !Has(schema, item, Error) && !Has(schema, item, Panic) && Sorted(paths) && multiset(paths) == Paths(schema, item)
  }

  /** The two kinds of trouble, one by one. */
  lemma EachTrouble(schema: Schema, item: Item)
    ensures (forall t :: Has(schema, item, t)) <==> Has(schema, item, Error) && Has(schema, item, Panic)
    ensures (forall t :: !Has(schema, item, t)) <==> !Has(schema, item, Error) && !Has(schema, item, Panic)
  {
    forall t ensures Has(schema, item, t) <==> if t == Error then Has(schema, item, Error) else Has(schema, item, Panic) {
      match t {
        case Error =>
        case Panic =>
      }
    }
    var e, p := Error, Panic;
    assert Has(schema, item, e) <==> Has(schema, item, Error);
    assert Has(schema, item, p) <==> Has(schema, item, Panic);
  }

  /** Whether there is a mask, and which, depends on the body and the message type only; so does
      how it fails, unless the body has both an error and a panic in it. */
  lemma MaskIsDetermined(schema: Schema, body: Body, msg: string, r: Mask, r': Mask)
    requires IsMask(schema, body, msg, r) && IsMask(schema, body, msg, r')
    ensures r.Mask? <==> r'.Mask?
    ensures r == r' || (body.Value? && forall t :: Has(schema, Item("", body.root, Some(msg)), t))
  {
    if body.Value? {
      EachTrouble(schema, Item("", body.root, Some(msg)));
      if r.Mask? && r'.Mask? {
        SortedOnce(r.paths, r'.paths);
      }
    }
  }

  /** One item of the work-list. */
  method TakeItem(schema: Schema, item: Item) returns (stop: Option<Trouble>, emitted: seq<string>, queued: seq<Item>)
    ensures Spread(schema, item, stop, emitted, queued)
  {
    if item.node.Obj? {
      stop, emitted, queued := SpreadItem(schema, item);
    } else if item.path != "" {
      stop, emitted, queued := None, [item.path], [];
    } else {
      stop, emitted, queued := None, [], [];
    }
  }

  method WalkItems(schema: Schema, root: Item) returns (stop: Option<Trouble>, paths: seq<string>)
    ensures stop.Some? ==> Has(schema, root, stop.value)
    ensures stop.None? ==> (forall t :: !Has(schema, root, t)) && multiset(paths) == Paths(schema, root)
  {
    paths := [];
    var queue := [root];
    OneItem(schema, root);
    while |queue| > 0
      invariant multiset(paths) + QueuePaths(schema, queue) == Paths(schema, root)
      invariant forall t :: QueueHas(schema, queue, t) <==> Has(schema, root, t)
      decreases ItemsSize(queue)
    {
      var item := queue[0];
      queue := queue[1..];
      var emitted, queued;
      stop, emitted, queued := TakeItem(schema, item);
      if stop.Some? {
        return stop, [];
      }
      ItemsJoin(schema, queue, queued);
      Regroup(multiset(paths), QueuePaths(schema, queue), Paths(schema, item), Paths(schema, root),
        multiset(emitted), QueuePaths(schema, queued), multiset{});
      paths, queue := paths + emitted, queue + queued;
    }
    return None, paths;
  }

  /** `FieldMaskFromRequestBody`: for every order in which members come up, the work-list ends and
      gives the mask of the body. */
  method FieldMaskFromRequestBody(schema: Schema, body: Body, msg: string) returns (r: Mask)
    ensures IsMask(schema, body, msg, r)
  {
    match body {
      case Empty =>
        return Mask([]);
      case Garbled =>
        return Failed;
      case Value(root) =>
        var stop, paths := WalkItems(schema, Item("", root, Some(msg)));
        EachTrouble(schema, Item("", root, Some(msg)));
        match stop {
          case Some(Error) =>
            return Failed;
          case Some(Panic) =>
            return Panicked;
          case None =>
            paths := SortStrings(paths);
            return Mask(paths);
        }
    }
  }
}
