/** The field mask of a body read off its keys: which sequences of keys it has a path for, and which
    path, apart from any work-list and any enumeration. */
module Descents {
  import opened Text
  import opened Bags
  import opened Schema
  import opened FieldMask

  // ---- Following a sequence of keys ----

  /** Where a sequence of keys has led: into a value read as a message, with the proto names of the
      fields passed; into a dynamic value, with the keys as they are written there; or to a path
      that stands for all there is below. */
  datatype Spot =
    | InMessage(node: Json, msg: Option<string>, names: seq<string>)
    | InValue(node: Json, names: seq<string>)
    | Whole(path: string)

  /** The member under this key. */
  function Down(schema: Schema, spot: Spot, k: string): Option<Spot> {
    if spot.Whole? || spot.node.Leaf? || k !in spot.node.members then None
    else
      var v := spot.node.members[k];
      match spot
      case InValue(_, names) => Some(InValue(v, names + [k]))
      case InMessage(_, None, _) => None
      case InMessage(_, Some(msg), names) =>
        match GetField(schema, msg, k)
        case None => None
        case Some(fd) =>
          if fd.msgType == Some("google.protobuf.Struct") || fd.msgType == Some("google.protobuf.Value") then
            Some(InValue(v, names + [k]))
          else if fd.msgType == Some("google.protobuf.Any") then
            if v.Obj? && "@type" in v.members then Some(Whole(k)) else None
          else if fd.shape != Singular then Some(Whole(Join(names + [fd.name], ".")))
          else Some(InMessage(v, fd.msgType, names + [fd.name]))
  }

  /** The path to print when the keys end here: at a leaf the names joined with dots. */
  function PathHere(spot: Spot): string {
    match spot
    case Whole(path) => path
    case _ => if spot.node.Leaf? then Join(spot.names, ".") else ""
  }

  /** The path that a sequence of keys has; empty when it has none. */
  function PathOf(schema: Schema, spot: Spot, keys: seq<string>): string
    decreases |keys|
  {
    if keys == [] then PathHere(spot)
    else
      match Down(schema, spot, keys[0])
      case Some(below) => PathOf(schema, below, keys[1..])
      case None => ""
  }

  /** What is wrong with the member at the end of a sequence of keys: it is below something that is
      not a message, it is not a field of its message, or it is an Any without a type; an Any that
      is not an object is a panic. */
  function TroubleAt(schema: Schema, spot: Spot, keys: seq<string>): Option<Trouble>
    decreases |keys|
  {
    if keys == [] || !spot.InMessage? || spot.node.Leaf? || keys[0] !in spot.node.members then None
    else if |keys| > 1 then
      match Down(schema, spot, keys[0])
      case Some(below) => TroubleAt(schema, below, keys[1..])
      case None => None
    else if spot.msg.None? || GetField(schema, spot.msg.value, keys[0]).None? then Some(Error)
    else if GetField(schema, spot.msg.value, keys[0]).value.msgType != Some("google.protobuf.Any") then None
    else if spot.node.members[keys[0]].Leaf? then Some(Panic)
    else if "@type" !in spot.node.members[keys[0]].members then Some(Error)
    else None
  }

  function PathsOf(schema: Schema, spot: Spot, ds: seq<seq<string>>): seq<string> {
    if ds == [] then [] else [PathOf(schema, spot, ds[0])] + PathsOf(schema, spot, ds[1..])
  }

  /** These are all the key sequences that have a path, each once. */
  ghost predicate Descend(schema: Schema, spot: Spot, ds: seq<seq<string>>) {
    && (forall i, j :: 0 <= i < j < |ds| ==> ds[i] != ds[j])
    && forall keys :: keys in ds <==> PathOf(schema, spot, keys) != ""
  }

  // ---- The bag of paths below a spot ----

  /** The names on the way to a spot are such that dots can be put between them. */
  predicate Proper(spot: Spot) {
    match spot
    case InMessage(_, _, names) => forall n :: n in names ==> n != ""
    case InValue(_, names) => names != []
    case Whole(_) => true
  }

  /** The work-list's item for a spot in a message. */
  function ItemAt(spot: Spot): Item
    requires spot.InMessage?
  {
    Item(Join(spot.names, "."), spot.node, spot.msg)
  }

  ghost function Bag(schema: Schema, spot: Spot): multiset<string> {
    match spot
    case InMessage(_, _, _) => Paths(schema, ItemAt(spot))
    case InValue(node, names) => NonEmpty(Blind(Join(names, "."), node))
    case Whole(path) => Printed(path)
  }

  lemma {:induction false} JoinMore(names: seq<string>, name: string)
    ensures names != [] ==> Join(names + [name], ".") == Join(names, ".") + "." + name
    ensures Join([name], ".") == name
  {
    if |names| > 1 {
      JoinMore(names[1..], name);
      assert (names + [name])[1..] == names[1..] + [name];
    } else if |names| == 1 {
      assert (names + [name])[1..] == [name];
    }
  }

  lemma ExtendIsJoin(names: seq<string>, name: string)
    requires forall n :: n in names ==> n != ""
    ensures Join(names + [name], ".") == Extend(Join(names, "."), name)
  {
    JoinMore(names, name);
    if names != [] {
      assert names[0] in names;
      assert Join(names, ".")[0] == names[0][0];
    } else {
      assert names + [name] == [name];
    }
  }

  /** What lies below each member. */
  ghost function Part(schema: Schema, spot: Spot, k: string): multiset<string> {
    match Down(schema, spot, k) case Some(below) => Bag(schema, below) case None => multiset{}
  }

  ghost function Parts(schema: Schema, spot: Spot): (f: map<string, multiset<string>>)
    requires !spot.Whole? && spot.node.Obj?
    ensures f.Keys == spot.node.members.Keys
  {
    map k | k in spot.node.members :: Part(schema, spot, k)
  }

  lemma TroubleStops(schema: Schema, spot: Spot, k: string)
    requires spot.InMessage? && spot.node.Obj? && k in spot.node.members
    ensures Down(schema, spot, k).None? <==> TroubleOf(schema, ItemAt(spot), k).Some?
  {
  }

  lemma {:induction false} WayIsDown(schema: Schema, spot: Spot, k: string)
    requires spot.InMessage? && spot.node.Obj? && k in spot.node.members && TroubleOf(schema, ItemAt(spot), k).None?
    ensures
      var v, fd := spot.node.members[k], GetField(schema, spot.msg.value, k).value;
      match WayOf(schema, ItemAt(spot), k)
      case Dynamic => Down(schema, spot, k) == Some(InValue(v, spot.names + [k]))
      case AnyPath => Down(schema, spot, k) == Some(Whole(k))
      case Final => Down(schema, spot, k) == Some(Whole(Join(spot.names + [fd.name], ".")))
      case Into(child) =>
        Down(schema, spot, k) == Some(InMessage(v, fd.msgType, spot.names + [fd.name])) &&
        child == Item(Extend(Join(spot.names, "."), fd.name), v, fd.msgType)
  {
  }

  lemma {:induction false} FieldIsPart(schema: Schema, spot: Spot, k: string)
    requires spot.InMessage? && Proper(spot) && spot.node.Obj? && k in spot.node.members
    ensures FieldPaths(schema, ItemAt(spot))[k] == Part(schema, spot, k)
  {
    TroubleStops(schema, spot, k);
    if TroubleOf(schema, ItemAt(spot), k).None? {
      WayIsDown(schema, spot, k);
      var name := GetField(schema, spot.msg.value, k).value.name;
      ExtendIsJoin(spot.names, k);
      ExtendIsJoin(spot.names, name);
      assert Extend(Join(spot.names, "."), name) != "";
    }
  }

  lemma {:induction false} SumNonEmpty(f: map<string, multiset<string>>, g: map<string, multiset<string>>)
    requires f.Keys == g.Keys && forall k :: k in f ==> g[k] == NonEmpty(f[k])
    ensures Sum(g) == NonEmpty(Sum(f))
    decreases |f|
  {
    if f != map[] {
      var k :| k in f;
      SumTake(f, k);
      SumTake(g, k);
      SumNonEmpty(f - {k}, g - {k});
      NonEmptyJoins(f[k], Sum(f - {k}));
    } else {
      assert g == map[];
    }
  }

  /** The paths of an object are those of its members. */
  lemma {:induction false} BagIsSum(schema: Schema, spot: Spot)
    requires Proper(spot) && !spot.Whole? && spot.node.Obj?
    ensures Bag(schema, spot) == Sum(Parts(schema, spot))
  {
    match spot
    case InMessage(node, msg, names) =>
      forall k | k in node.members
        ensures FieldPaths(schema, ItemAt(spot))[k] == Parts(schema, spot)[k]
      {
        FieldIsPart(schema, spot, k);
      }
      assert FieldPaths(schema, ItemAt(spot)) == Parts(schema, spot);
    case InValue(node, names) =>
      forall k | k in node.members
        ensures Parts(schema, spot)[k] == NonEmpty(BlindParts(Join(names, "."), node)[k])
      {
        JoinMore(names, k);
      }
      SumNonEmpty(BlindParts(Join(names, "."), node), Parts(schema, spot));
  }

  lemma {:induction false} ProperBelow(schema: Schema, spot: Spot, k: string)
    requires Proper(spot) && Down(schema, spot, k).Some?
    ensures Proper(Down(schema, spot, k).value)
  {
  }

  // ---- Listing the descents ----

  /** The descents whose first key is among these. */
  ghost predicate DescendBy(schema: Schema, spot: Spot, firsts: set<string>, ds: seq<seq<string>>) {
    && (forall i, j :: 0 <= i < j < |ds| ==> ds[i] != ds[j])
    && forall keys :: keys in ds <==> keys != [] && keys[0] in firsts && PathOf(schema, spot, keys) != ""
  }

  function Prepend(k: string, ds: seq<seq<string>>): (r: seq<seq<string>>)
    ensures |r| == |ds| && forall i :: 0 <= i < |ds| ==> r[i] == [k] + ds[i]
  {
    if ds == [] then [] else [[k] + ds[0]] + Prepend(k, ds[1..])
  }

  lemma PathBelow(schema: Schema, spot: Spot, k: string, keys: seq<string>)
    ensures PathOf(schema, spot, [k] + keys) ==
      match Down(schema, spot, k) case Some(below) => PathOf(schema, below, keys) case None => ""
  {
    assert ([k] + keys)[1..] == keys;
  }

  lemma {:induction false} PathsBelow(schema: Schema, spot: Spot, k: string, ds: seq<seq<string>>)
    requires Down(schema, spot, k).Some?
    ensures PathsOf(schema, spot, Prepend(k, ds)) == PathsOf(schema, Down(schema, spot, k).value, ds)
  {
    if ds != [] {
      PathBelow(schema, spot, k, ds[0]);
      PathsBelow(schema, spot, k, ds[1..]);
    }
  }

  lemma {:induction false} PathsJoin(schema: Schema, spot: Spot, a: seq<seq<string>>, b: seq<seq<string>>)
    ensures PathsOf(schema, spot, a + b) == PathsOf(schema, spot, a) + PathsOf(schema, spot, b)
  {
    if a == [] {
      assert a + b == b;
    } else {
      assert (a + b)[1..] == a[1..] + b;
      PathsJoin(schema, spot, a[1..], b);
    }
  }

  /** The descents through one member. */
  lemma {:induction false} DescendOne(schema: Schema, spot: Spot, k: string, below: Spot, ds: seq<seq<string>>)
    requires Down(schema, spot, k) == Some(below) && Descend(schema, below, ds)
    ensures DescendBy(schema, spot, {k}, Prepend(k, ds))
  {
    var all := Prepend(k, ds);
    forall i, j | 0 <= i < j < |all| ensures all[i] != all[j] {
      assert all[i][1..] == ds[i] && all[j][1..] == ds[j];
    }
    forall keys ensures keys in all <==> keys != [] && keys[0] in {k} && PathOf(schema, spot, keys) != "" {
      if keys != [] && keys[0] == k {
        assert keys == [k] + keys[1..];
        PathBelow(schema, spot, k, keys[1..]);
        if keys[1..] in ds {
          var i :| 0 <= i < |ds| && ds[i] == keys[1..];
          assert all[i] == keys;
        }
        if keys in all {
          var i :| 0 <= i < |all| && all[i] == keys;
          assert ds[i] == keys[1..];
        }
      }
    }
  }

  /** A member that leads nowhere has none. */
  lemma DescendNone(schema: Schema, spot: Spot, k: string)
    requires Down(schema, spot, k).None?
    ensures DescendBy(schema, spot, {k}, [])
  {
  }

  /** Descents through different members are different. */
  lemma DescendMore(schema: Schema, spot: Spot, firsts: set<string>, k: string, a: seq<seq<string>>, b: seq<seq<string>>)
    requires k !in firsts && DescendBy(schema, spot, {k}, a) && DescendBy(schema, spot, firsts, b)
    ensures DescendBy(schema, spot, firsts + {k}, a + b)
  {
    assert forall i :: 0 <= i < |a| ==> a[i] in a;
    assert forall i :: 0 <= i < |b| ==> b[i] in b;
    forall i, j | 0 <= i < j < |a + b| ensures (a + b)[i] != (a + b)[j] {
      if i < |a| <= j {
        assert a[i][0] == k && b[j - |a|][0] in firsts;
      }
    }
  }

  /** A descent into an object starts with one of its keys. */
  lemma {:induction false} AllFirsts(schema: Schema, spot: Spot, ds: seq<seq<string>>)
    requires !spot.Whole? && spot.node.Obj? && DescendBy(schema, spot, spot.node.members.Keys, ds)
    ensures Descend(schema, spot, ds)
  {
    forall keys ensures PathOf(schema, spot, keys) != "" ==> keys != [] && keys[0] in spot.node.members.Keys {
      if keys != [] && keys[0] !in spot.node.members {
        assert Down(schema, spot, keys[0]).None?;
      }
    }
  }

  lemma {:induction false} ListDescents(schema: Schema, spot: Spot) returns (ds: seq<seq<string>>)
    requires Proper(spot) && !spot.Whole?
    ensures Descend(schema, spot, ds) && multiset(PathsOf(schema, spot, ds)) == Bag(schema, spot)
    decreases spot.node, 1, 0
  {
    if spot.node.Leaf? {
      ds := EndHere(schema, spot);
    } else {
      ds := ListBy(schema, spot, spot.node.members.Keys);
      BagIsSum(schema, spot);
      RestrictAll(Parts(schema, spot));
      AllFirsts(schema, spot, ds);
    }
  }

  lemma NoneBelow(schema: Schema, spot: Spot)
    requires spot.Whole? || spot.node.Leaf?
    ensures forall keys :: keys != [] ==> PathOf(schema, spot, keys) == ""
  {
  }

  /** Where there is nothing to go down into, the empty sequence is the only descent. */
  lemma EndHere(schema: Schema, spot: Spot) returns (ds: seq<seq<string>>)
    requires Proper(spot) && (spot.Whole? || spot.node.Leaf?)
    ensures Descend(schema, spot, ds) && multiset(PathsOf(schema, spot, ds)) == Bag(schema, spot)
  {
    BagHere(schema, spot);
    if PathHere(spot) == "" {
      ds := [];
      NoneBelow(schema, spot);
    } else {
      ds := OnlyHere(schema, spot);
    }
  }

  lemma BagHere(schema: Schema, spot: Spot)
    requires spot.Whole? || spot.node.Leaf?
    ensures Bag(schema, spot) == Printed(PathHere(spot))
  {
  }

  lemma OnlyHere(schema: Schema, spot: Spot) returns (ds: seq<seq<string>>)
    requires (spot.Whole? || spot.node.Leaf?) && PathHere(spot) != ""
    ensures Descend(schema, spot, ds) && PathsOf(schema, spot, ds) == [PathHere(spot)]
  {
    NoneBelow(schema, spot);
    ds := [[]];
    assert ds[1..] == [];
    forall keys ensures keys in ds <==> PathOf(schema, spot, keys) != "" {
      assert keys in ds <==> keys == [];
    }
  }

  lemma {:induction false} ListBy(schema: Schema, spot: Spot, firsts: set<string>) returns (ds: seq<seq<string>>)
    requires Proper(spot) && !spot.Whole? && spot.node.Obj? && firsts <= spot.node.members.Keys
    ensures DescendBy(schema, spot, firsts, ds)
    ensures multiset(PathsOf(schema, spot, ds)) == Sum(Restrict(Parts(schema, spot), firsts))
    decreases spot.node, 0, |firsts|
  {
    if firsts == {} {
      ds := [];
      assert Restrict(Parts(schema, spot), {}) == map[];
    } else {
      var k :| k in firsts;
      var rest := ListBy(schema, spot, firsts - {k});
      var here := ListThrough(schema, spot, k);
      DescendMore(schema, spot, firsts - {k}, k, here, rest);
      assert firsts - {k} + {k} == firsts;
      ds := here + rest;
      PathsJoin(schema, spot, here, rest);
      RestrictTake(Parts(schema, spot), firsts, k);
      SumTake(Restrict(Parts(schema, spot), firsts), k);
    }
  }

  lemma {:induction false} ListThrough(schema: Schema, spot: Spot, k: string) returns (ds: seq<seq<string>>)
    requires Proper(spot) && !spot.Whole? && spot.node.Obj? && k in spot.node.members
    ensures DescendBy(schema, spot, {k}, ds)
    ensures multiset(PathsOf(schema, spot, ds)) == Part(schema, spot, k)
    decreases spot.node, 0, 0
  {
    match Down(schema, spot, k) {
      case None =>
        ds := [];
        DescendNone(schema, spot, k);
      case Some(below) =>
        ProperBelow(schema, spot, k);
        var ends;
        if below.Whole? {
          ends := EndHere(schema, below);
        } else {
          ends := ListDescents(schema, below);
        }
        DescendOne(schema, spot, k, below, ends);
        PathsBelow(schema, spot, k, ends);
        ds := Prepend(k, ends);
    }
  }

  // ---- Trouble ----

  lemma {:induction false} ChildIsBelow(schema: Schema, spot: Spot, k: string)
    requires spot.InMessage? && Proper(spot) && spot.node.Obj? && k in spot.node.members
    ensures TroubleAt(schema, spot, [k]) == TroubleOf(schema, ItemAt(spot), k)
    ensures TroubleOf(schema, ItemAt(spot), k).None? && WayOf(schema, ItemAt(spot), k).Into? ==>
      && Down(schema, spot, k).Some? && Down(schema, spot, k).value.InMessage? && Proper(Down(schema, spot, k).value)
      && ItemAt(Down(schema, spot, k).value) == WayOf(schema, ItemAt(spot), k).child
    ensures TroubleOf(schema, ItemAt(spot), k).None? && !WayOf(schema, ItemAt(spot), k).Into? ==>
      Down(schema, spot, k).Some? && !Down(schema, spot, k).value.InMessage?
    ensures TroubleOf(schema, ItemAt(spot), k).Some? ==> Down(schema, spot, k).None?
  {
    TroubleStops(schema, spot, k);
    if TroubleOf(schema, ItemAt(spot), k).None? {
      WayIsDown(schema, spot, k);
      ExtendIsJoin(spot.names, GetField(schema, spot.msg.value, k).value.name);
      ProperBelow(schema, spot, k);
    }
  }

  lemma {:induction false} TroubleFound(schema: Schema, spot: Spot, t: Trouble) returns (keys: seq<string>)
    requires spot.InMessage? && Proper(spot) && Has(schema, ItemAt(spot), t)
    ensures TroubleAt(schema, spot, keys) == Some(t)
    decreases spot.node
  {
    var item := ItemAt(spot);
    var k :| k in spot.node.members &&
      (TroubleOf(schema, item, k) == Some(t) ||
       (TroubleOf(schema, item, k).None? && WayOf(schema, item, k).Into? && Has(schema, WayOf(schema, item, k).child, t)));
    ChildIsBelow(schema, spot, k);
    if TroubleOf(schema, item, k).Some? {
      keys := [k];
    } else {
      var rest := TroubleFound(schema, Down(schema, spot, k).value, t);
      keys := [k] + rest;
      assert rest != [] && keys[1..] == rest;
    }
  }

  lemma {:induction false} TroubleCounts(schema: Schema, spot: Spot, keys: seq<string>)
    requires spot.InMessage? && Proper(spot) && TroubleAt(schema, spot, keys).Some?
    ensures Has(schema, ItemAt(spot), TroubleAt(schema, spot, keys).value)
    decreases |keys|
  {
    var k := keys[0];
    ChildIsBelow(schema, spot, k);
    if |keys| > 1 {
      TroubleCounts(schema, Down(schema, spot, k).value, keys[1..]);
    } else {
      assert keys == [k];
    }
  }

  /** The trouble of an item is what its keys meet. */
  lemma {:induction false} TroubleExactly(schema: Schema, spot: Spot)
    requires spot.InMessage? && Proper(spot)
    ensures Has(schema, ItemAt(spot), Error) <==> exists keys :: TroubleAt(schema, spot, keys) == Some(Error)
    ensures Has(schema, ItemAt(spot), Panic) <==> exists keys :: TroubleAt(schema, spot, keys) == Some(Panic)
  {
    forall keys | TroubleAt(schema, spot, keys).Some? ensures Has(schema, ItemAt(spot), TroubleAt(schema, spot, keys).value) {
      TroubleCounts(schema, spot, keys);
    }
    if Has(schema, ItemAt(spot), Error) {
      var keys := TroubleFound(schema, spot, Error);
    }
    if Has(schema, ItemAt(spot), Panic) {
      var keys := TroubleFound(schema, spot, Panic);
    }
  }

  lemma {:induction false} NoTrouble(schema: Schema, spot: Spot)
    requires spot.InMessage? && Proper(spot) && !Has(schema, ItemAt(spot), Error) && !Has(schema, ItemAt(spot), Panic)
    ensures forall keys :: TroubleAt(schema, spot, keys) == None
  {
    forall keys ensures TroubleAt(schema, spot, keys) == None {
      if TroubleAt(schema, spot, keys).Some? {
        TroubleCounts(schema, spot, keys);
        match TroubleAt(schema, spot, keys).value {
          case Error => assert false;
          case Panic => assert false;
        }
      }
    }
  }

  /** Where the keys of a body start from. */
  function Root(root: Json, msg: string): Spot {
    InMessage(root, Some(msg), [])
  }

  /** The mask of a body is the sorted list of the paths of its descents, one for each key sequence
      that ends at a leaf, at a repeated field or at an Any, the proto names put together with dots;
      it fails when the keys meet an error, and panics when they meet a panic. */
  lemma {:induction false} MaskIsDescents(schema: Schema, root: Json, msg: string, r: Mask) returns (ds: seq<seq<string>>)
    requires IsMask(schema, Value(root), msg, r)
    ensures Descend(schema, Root(root, msg), ds)
    ensures match r
            case Mask(paths) =>
              && (forall keys :: TroubleAt(schema, Root(root, msg), keys) == None)
              && Sorted(paths) && multiset(paths) == multiset(PathsOf(schema, Root(root, msg), ds))
            case Failed => exists keys :: TroubleAt(schema, Root(root, msg), keys) == Some(Error)
            case Panicked => exists keys :: TroubleAt(schema, Root(root, msg), keys) == Some(Panic)
  {
    var spot := Root(root, msg);
    assert ItemAt(spot) == Item("", root, Some(msg));
    ds := ListDescents(schema, spot);
    match r {
      case Mask(_) => NoTrouble(schema, spot);
      case _ => TroubleExactly(schema, spot);
    }
  }

  /** A body is described whole or not at all: it has a mask exactly when no sequence of its keys
      meets trouble. */
  lemma {:induction false} MaskExactly(schema: Schema, root: Json, msg: string, r: Mask)
    requires IsMask(schema, Value(root), msg, r)
    ensures r.Mask? <==> forall keys :: TroubleAt(schema, Root(root, msg), keys) == None
  {
    var ds := MaskIsDescents(schema, root, msg, r);
  }
}
