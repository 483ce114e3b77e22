/** Query parameters written into a message: one path walk per key, over keys that come in no
    particular order. The message is a tree, updated in place along its paths. */
module Query {
  import opened Text
  import opened Schema
  import opened Orders

  /** What a field holds: a scalar as the text that encodes it, a list, a map, or a message. */
  datatype Val =
    | Scalar(text: string)
    | Values(items: seq<Val>)
    | Entries(entries: map<Val, Val>)
    | Sub(msg: Msg)

  /** The fields present in a message. */
  datatype Msg = Msg(fields: map<string, Val>)

  const EMPTY := Msg(map[])

  datatype Role = Whole | MapKey | MapValue

  /** `parseField` on a field, its map key or its map value; None is a parse error. */
  type Parser = (FieldDesc, Role, string) -> Option<Val>

  // ---- Keys ----

  function LastIndex(s: string, c: char): (k: int)
    ensures -1 <= k < |s| && (k >= 0 ==> s[k] == c)
  {
    if s == [] then -1
    else if s[|s| - 1] == c then |s| - 1
    else LastIndex(s[..|s| - 1], c)
  }

  /** A key of the form `path[index]`, split at its last opening bracket; no line breaks. */
  function SplitKey(key: string): Option<(string, string)> {
    if |key| > 0 && key[|key| - 1] == ']' && '\n' !in key then
      var k := LastIndex(key[..|key| - 1], '[');
      if k >= 0 then Some((key[..k], key[k + 1..|key| - 1])) else None
    else None
  }

  function FieldPath(key: string): (path: seq<string>)
    ensures |path| >= 1
  {
    Split(match SplitKey(key) case Some(pair) => pair.0 case None => key, '.')
  }

  function KeyValues(key: string, values: seq<string>): seq<string> {
    match SplitKey(key) case Some(pair) => [pair.1] + values case None => values
  }

  // ---- Populating one path ----

  datatype Applied = Applied(msg: Msg, ok: bool)

  function Get(msg: Msg, name: string): Option<Val> {
    if name in msg.fields then Some(msg.fields[name]) else None
  }

  /** The message in a field's value, empty when there is none. */
  function Within(v: Option<Val>): Msg {
    match v case Some(Sub(m)) => m case _ => EMPTY
  }

  /** The message a field holds, created empty when absent. */
  function Child(msg: Msg, name: string): Msg {
    Within(Get(msg, name))
  }

  /** The members of a field's oneof that are present, the field itself included. */
  function Siblings(schema: Schema, typ: string, msg: Msg, fd: FieldDesc): set<string> {
    if fd.oneof.None? then {}
    else
      set i | 0 <= i < |FieldsOf(schema, typ)| && FieldsOf(schema, typ)[i].oneof == fd.oneof
              && FieldsOf(schema, typ)[i].name in msg.fields :: FieldsOf(schema, typ)[i].name
  }

  /** Setting a field; setting a member of a oneof clears the others. */
  function SetField(schema: Schema, typ: string, msg: Msg, fd: FieldDesc, v: Val): Msg {
    Msg((msg.fields - Siblings(schema, typ, msg, fd))[fd.name := v])
  }

  /** `populateRepeatedField`: values are appended until one does not parse. */
  function AppendAll(parse: Parser, fd: FieldDesc, items: seq<Val>, values: seq<string>): (seq<Val>, bool)
    decreases |values|
  {
    if values == [] then (items, true)
    else
      match parse(fd, Whole, values[0])
      case Some(v) => AppendAll(parse, fd, items + [v], values[1..])
      case None => (items, false)
  }

  function ItemsOf(prior: Option<Val>): seq<Val> {
    match prior case Some(Values(items)) => items case _ => []
  }

  function EntriesOf(prior: Option<Val>): map<Val, Val> {
    match prior case Some(Entries(entries)) => entries case _ => map[]
  }

  /** What the field named last in the path becomes, and whether that succeeds; None leaves it. */
  function Leaf(parse: Parser, fd: FieldDesc, prior: Option<Val>, values: seq<string>): (Option<Val>, bool)
    requires values != []
  {
    match fd.shape
    case List =>
      var (items, ok) := AppendAll(parse, fd, ItemsOf(prior), values);
      (Some(Values(items)), ok)
    case Map =>
      if |values| != 2 then (Some(Entries(EntriesOf(prior))), false)
      else
        (match (parse(fd, MapKey, values[0]), parse(fd, MapValue, values[1]))
         case (Some(k), Some(v)) => (Some(Entries(EntriesOf(prior)[k := v])), true)
         case _ => (Some(Entries(EntriesOf(prior))), false))
    case Singular =>
      if |values| > 1 then (None, false)
      else
        match parse(fd, Whole, values[0])
        case Some(v) => (Some(v), true)
        case None => (None, false)
  }

  /** `populateFieldValueFromPath`: an unknown field is ignored, a field that is not a singular
      message cannot be walked through, a oneof that is already set is refused. */
  function Populate(schema: Schema, parse: Parser, typ: string, msg: Msg, path: seq<string>, values: seq<string>): Applied
    decreases |path|
  {
    if path == [] || values == [] then Applied(msg, false)
    else
      match GetField(schema, typ, path[0])
      case None => Applied(msg, true)
      case Some(fd) =>
        if |path| > 1 then
          if fd.msgType.None? || fd.shape != Singular then Applied(msg, false)
          else
            var r := Populate(schema, parse, fd.msgType.value, Child(msg, fd.name), path[1..], values);
            Applied(SetField(schema, typ, msg, fd, Sub(r.msg)), r.ok)
        else if fd.oneof.Some? && Siblings(schema, typ, msg, fd) != {} then Applied(msg, false)
        else
          var (v, ok) := Leaf(parse, fd, Get(msg, fd.name), values);
          Applied(if v.Some? then SetField(schema, typ, msg, fd, v.value) else msg, ok)
  }

  /** The values that parse, up to the first that does not. */
  function Parsed(parse: Parser, fd: FieldDesc, values: seq<string>): seq<Val> {
    if values == [] then []
    else match parse(fd, Whole, values[0]) case Some(v) => [v] + Parsed(parse, fd, values[1..]) case None => []
  }

  lemma {:induction false} ParsedMeans(parse: Parser, fd: FieldDesc, values: seq<string>)
    ensures
      var r := Parsed(parse, fd, values);
      && |r| <= |values|
      && (forall k :: 0 <= k < |r| ==> parse(fd, Whole, values[k]) == Some(r[k]))
      && (|r| < |values| ==> parse(fd, Whole, values[|r|]) == None)
  {
    if values != [] && parse(fd, Whole, values[0]).Some? {
      ParsedMeans(parse, fd, values[1..]);
    }
  }

  lemma {:induction false} AppendAllIs(parse: Parser, fd: FieldDesc, items: seq<Val>, values: seq<string>)
    ensures AppendAll(parse, fd, items, values) == (items + Parsed(parse, fd, values), |Parsed(parse, fd, values)| == |values|)
    decreases |values|
  {
    if values == [] {
      assert items + [] == items;
    } else if parse(fd, Whole, values[0]).Some? {
      var v := parse(fd, Whole, values[0]).value;
      AppendAllIs(parse, fd, items + [v], values[1..]);
      Assoc(items, [v], Parsed(parse, fd, values[1..]));
    } else {
      assert items + [] == items;
    }
  }

  /** Whether a leaf's values parse does not depend on what it held. */
  lemma LeafOk(parse: Parser, fd: FieldDesc, prior: Option<Val>, values: seq<string>)
    requires values != []
    ensures Leaf(parse, fd, prior, values).1 == Leaf(parse, fd, None, values).1
    ensures Leaf(parse, fd, prior, values).1 ==> Leaf(parse, fd, prior, values).0.Some?
  {
    AppendAllIs(parse, fd, ItemsOf(prior), values);
    AppendAllIs(parse, fd, [], values);
  }

  // ---- All keys ----

  /** Everything a parse depends on besides the message: `filter` says which field paths are
      bound elsewhere and to be skipped. */
  datatype Query = Query(
    schema: Schema, parse: Parser, filter: seq<string> -> bool, typ: string, values: map<string, seq<string>>)

  function ApplyKey(q: Query, msg: Msg, key: string): Applied
    requires key in q.values
  {
    if q.filter(FieldPath(key)) then Applied(msg, true)
    else Populate(q.schema, q.parse, q.typ, msg, FieldPath(key), KeyValues(key, q.values[key]))
  }

  /** The keys one after another, up to the first error. */
  function ApplyAll(q: Query, msg: Msg, order: seq<string>): Applied
    requires forall k :: k in order ==> k in q.values
    decreases |order|
  {
    if order == [] then Applied(msg, true)
    else
      assert order[0] in order;
      var r := ApplyKey(q, msg, order[0]);
      if r.ok then ApplyAll(q, r.msg, order[1..]) else r
  }

  lemma {:induction false} ApplyMore(q: Query, msg: Msg, a: seq<string>, b: seq<string>)
    requires forall k :: k in a || k in b ==> k in q.values
    ensures forall k :: k in a + b ==> k in q.values
    ensures ApplyAll(q, msg, a + b) ==
      if ApplyAll(q, msg, a).ok then ApplyAll(q, ApplyAll(q, msg, a).msg, b) else ApplyAll(q, msg, a)
    decreases |a|
  {
    if a == [] {
      assert a + b == b;
    } else {
      assert a[0] in a;
      assert (a + b)[1..] == a[1..] + b;
      var r := ApplyKey(q, msg, a[0]);
      if r.ok {
        ApplyMore(q, r.msg, a[1..], b);
      }
    }
  }

  // ---- Walking in place ----

  /** The message at the end of a track of message fields. */
  function NodeAt(msg: Msg, track: seq<string>): Msg
    decreases |track|
  {
    if track == [] then msg else NodeAt(Child(msg, track[0]), track[1..])
  }

  /** The message with another one at the end of a track. */
  function ReplaceAt(msg: Msg, track: seq<string>, node: Msg): Msg
    decreases |track|
  {
    if track == [] then node
    else Msg(msg.fields[track[0] := Sub(ReplaceAt(Child(msg, track[0]), track[1..], node))])
  }

  lemma SameField(msg: Msg, a: string, v: Val, w: Val)
    ensures msg.fields[a := v][a := w] == msg.fields[a := w]
  {
  }

  lemma {:induction false} Replaced(msg: Msg, track: seq<string>, a: Msg, b: Msg)
    ensures NodeAt(ReplaceAt(msg, track, a), track) == a
    ensures ReplaceAt(ReplaceAt(msg, track, a), track, b) == ReplaceAt(msg, track, b)
    decreases |track|
  {
    if track != [] {
      var child := Child(msg, track[0]);
      Replaced(child, track[1..], a, b);
      SameField(msg, track[0], Sub(ReplaceAt(child, track[1..], a)), Sub(ReplaceAt(child, track[1..], b)));
    }
  }

  lemma {:induction false} ReplacedBelow(msg: Msg, track: seq<string>, name: string, a: Msg)
    ensures NodeAt(msg, track + [name]) == Child(NodeAt(msg, track), name)
    ensures ReplaceAt(msg, track + [name], a) == ReplaceAt(msg, track, Msg(NodeAt(msg, track).fields[name := Sub(a)]))
    decreases |track|
  {
    var all := track + [name];
    if track == [] {
      assert all == [name] && all[1..] == [];
    } else {
      assert all[1..] == track[1..] + [name];
      ReplacedBelow(Child(msg, track[0]), track[1..], name, a);
    }
  }

  /** Filling in what was made mutable fills in the field it was made for. */
  lemma {:induction false} MutableThenReplace(schema: Schema, typ: string, msg: Msg, track: seq<string>, fd: FieldDesc, a: Msg)
    ensures
      var node := NodeAt(msg, track);
      var made := SetField(schema, typ, node, fd, Sub(Child(node, fd.name)));
      var after := ReplaceAt(msg, track, made);
      && NodeAt(after, track + [fd.name]) == Child(node, fd.name)
      && ReplaceAt(after, track + [fd.name], a) == ReplaceAt(msg, track, SetField(schema, typ, node, fd, Sub(a)))
  {
    var node := NodeAt(msg, track);
    var child := Child(node, fd.name);
    var made := SetField(schema, typ, node, fd, Sub(child));
    var after := ReplaceAt(msg, track, made);
    Replaced(msg, track, made, SetField(schema, typ, node, fd, Sub(a)));
    ReplacedBelow(after, track, fd.name, a);
    SameField(Msg(node.fields - Siblings(schema, typ, node, fd)), fd.name, Sub(child), Sub(a));
  }

  /** `populateRepeatedField` */
  method PopulateRepeated(parse: Parser, fd: FieldDesc, items: seq<Val>, values: seq<string>) returns (r: seq<Val>, ok: bool)
    ensures (r, ok) == AppendAll(parse, fd, items, values)
    ensures r == items + Parsed(parse, fd, values)
    ensures ok <==> forall k :: 0 <= k < |values| ==> parse(fd, Whole, values[k]).Some?
  {
    r := items;
    var i := 0;
    assert values[0..] == values;
    AppendAllIs(parse, fd, items, values);
    ParsedMeans(parse, fd, values);
    while i < |values|
      invariant 0 <= i <= |values|
      invariant AppendAll(parse, fd, items, values) == AppendAll(parse, fd, r, values[i..])
    {
      assert values[i..][1..] == values[i + 1..];
      var v := parse(fd, Whole, values[i]);
      if v.None? {
        return r, false;
      }
      r := r + [v.value];
      i := i + 1;
    }
    return r, true;
  }

  /** `populateMapField` */
  method PopulateMap(parse: Parser, fd: FieldDesc, entries: map<Val, Val>, values: seq<string>)
    returns (r: map<Val, Val>, ok: bool)
    requires values != [] && fd.shape == Map
    ensures forall prior :: EntriesOf(prior) == entries ==> Leaf(parse, fd, prior, values) == (Some(Entries(r)), ok)
    ensures !ok ==> r == entries
  {
    r, ok := entries, false;
    if |values| != 2 {
      return;
    }
    var k := parse(fd, MapKey, values[0]);
    if k.None? {
      return;
    }
    var v := parse(fd, MapValue, values[1]);
    if v.None? {
      return;
    }
    return entries[k.value := v.value], true;
  }

  /** Writing the last field of a path whose message is at the end of this track. */
  function LastApplied(schema: Schema, parse: Parser, msg: Msg, track: seq<string>, typ: string, fd: FieldDesc,
                       values: seq<string>): Applied
    requires values != []
  {
    var node := NodeAt(msg, track);
    if fd.oneof.Some? && Siblings(schema, typ, node, fd) != {} then Applied(msg, false)
    else
      var (v, ok) := Leaf(parse, fd, Get(node, fd.name), values);
      Applied(if v.Some? then ReplaceAt(msg, track, SetField(schema, typ, node, fd, v.value)) else msg, ok)
  }

  /** How a round of the loop down a path ends. */
  datatype Walked = Stopped(ok: bool) | AtLast(fd: FieldDesc) | Deeper(track: seq<string>, typ: string)

  /** Every message along the track is there. */
  predicate Present(msg: Msg, track: seq<string>) {
    ReplaceAt(msg, track, NodeAt(msg, track)) == msg
  }

  /** The walk has come this far down its track: doing the rest of the path there is all that is
      left of the goal. */
  predicate CameTo(schema: Schema, parse: Parser, goal: Applied, msg: Msg, track: seq<string>,
                   typ: string, path: seq<string>, values: seq<string>)
  {
    var rest := Populate(schema, parse, typ, NodeAt(msg, track), path, values);
    Present(msg, track) && goal == Applied(ReplaceAt(msg, track, rest.msg), rest.ok)
  }

  /** The rest of the path leaves the message as it is. */
  lemma StopsHere(schema: Schema, parse: Parser, goal: Applied, msg: Msg, track: seq<string>,
                  typ: string, path: seq<string>, values: seq<string>)
    requires CameTo(schema, parse, goal, msg, track, typ, path, values)
    requires Populate(schema, parse, typ, NodeAt(msg, track), path, values).msg == NodeAt(msg, track)
    ensures goal == Applied(msg, Populate(schema, parse, typ, NodeAt(msg, track), path, values).ok)
  {
  }

  /** The definition of `Populate` on a path that goes through a message field. */
  lemma PopulateDown(schema: Schema, parse: Parser, typ: string, node: Msg, path: seq<string>, values: seq<string>, fd: FieldDesc)
    requires |path| > 1 && values != [] && GetField(schema, typ, path[0]) == Some(fd)
    requires fd.msgType.Some? && fd.shape == Singular
    ensures
      var below := Populate(schema, parse, fd.msgType.value, Child(node, fd.name), path[1..], values);
      Populate(schema, parse, typ, node, path, values) == Applied(SetField(schema, typ, node, fd, Sub(below.msg)), below.ok)
  {
  }

  /** One message further down. */
  lemma GoesOn(schema: Schema, parse: Parser, goal: Applied, was: Msg, track: seq<string>,
               typ: string, path: seq<string>, values: seq<string>, fd: FieldDesc, msg: Msg, track': seq<string>)
    requires CameTo(schema, parse, goal, was, track, typ, path, values)
    requires |path| > 1 && values != [] && GetField(schema, typ, path[0]) == Some(fd)
    requires fd.msgType.Some? && fd.shape == Singular
    requires Present(msg, track') && NodeAt(msg, track') == Child(NodeAt(was, track), fd.name)
    requires
      var a := Populate(schema, parse, fd.msgType.value, Child(NodeAt(was, track), fd.name), path[1..], values).msg;
      ReplaceAt(msg, track', a) == ReplaceAt(was, track, SetField(schema, typ, NodeAt(was, track), fd, Sub(a)))
    ensures CameTo(schema, parse, goal, msg, track', fd.msgType.value, path[1..], values)
  {
    PopulateDown(schema, parse, typ, NodeAt(was, track), path, values, fd);
  }

  /** The last field of a path: what is left of the goal is to write it. */
  lemma LastLevel(schema: Schema, parse: Parser, goal: Applied, msg: Msg, track: seq<string>,
                  typ: string, path: seq<string>, values: seq<string>, fd: FieldDesc)
    requires |path| == 1 && values != [] && CameTo(schema, parse, goal, msg, track, typ, path, values)
    requires GetField(schema, typ, path[0]) == Some(fd)
    ensures goal == LastApplied(schema, parse, msg, track, typ, fd, values)
  {
  }

  /** A request message being filled in; its submessages are places in its tree. */
  class Request {
    var msg: Msg

    constructor ()
      ensures msg == EMPTY
    {
      msg := EMPTY;
    }

    /** `msgValue.Mutable(fd)`: the field's message, made if it is not there. */
    method Mutable(schema: Schema, typ: string, track: seq<string>, fd: FieldDesc) returns (track': seq<string>)
      modifies this
      ensures track' == track + [fd.name] && NodeAt(msg, track') == old(Child(NodeAt(msg, track), fd.name))
      ensures Present(msg, track')
      ensures forall a ::
        ReplaceAt(msg, track', a) == ReplaceAt(old(msg), track, SetField(schema, typ, NodeAt(old(msg), track), fd, Sub(a)))
    {
      var node := NodeAt(msg, track);
      forall a {
        MutableThenReplace(schema, typ, msg, track, fd, a);
      }
      msg := ReplaceAt(msg, track, SetField(schema, typ, node, fd, Sub(Child(node, fd.name))));
      track' := track + [fd.name];
    }

    /** The field named last in the path. */
    method PopulateLast(schema: Schema, parse: Parser, typ: string, track: seq<string>, fd: FieldDesc, values: seq<string>)
      returns (ok: bool)
      requires values != []
      modifies this
      ensures Applied(msg, ok) == LastApplied(schema, parse, old(msg), track, typ, fd, values)
    {
      var node := NodeAt(msg, track);
      var v;
      if fd.oneof.Some? && Siblings(schema, typ, node, fd) != {} {
        return false;
      }
      match fd.shape {
        case List =>
          var items;
          items, ok := PopulateRepeated(parse, fd, ItemsOf(Get(node, fd.name)), values);
          v := Values(items);
        case Map =>
          var entries;
          entries, ok := PopulateMap(parse, fd, EntriesOf(Get(node, fd.name)), values);
          v := Entries(entries);
        case Singular =>
          if |values| > 1 {
            return false;
          }
          var parsed := parse(fd, Whole, values[0]);
          if parsed.None? {
            return false;
          }
          v, ok := parsed.value, true;
      }
      msg := ReplaceAt(msg, track, SetField(schema, typ, node, fd, v));
    }

    /** One round of the loop down a path: it stops, or comes to the last field, or makes the next
        message and goes into it. */
    method Descend(schema: Schema, parse: Parser, typ: string, track: seq<string>, path: seq<string>, values: seq<string>,
                   ghost goal: Applied)
      returns (w: Walked)
      requires path != [] && values != [] && CameTo(schema, parse, goal, msg, track, typ, path, values)
      modifies this
      ensures match w
              case Stopped(ok) => goal == Applied(msg, ok)
              case AtLast(fd) => msg == old(msg) && |path| == 1 && GetField(schema, typ, path[0]) == Some(fd)
              case Deeper(track', typ') => |path| > 1 && CameTo(schema, parse, goal, msg, track', typ', path[1..], values)
    {
      var field := GetField(schema, typ, path[0]);
      if field.None? {
        StopsHere(schema, parse, goal, msg, track, typ, path, values);
        return Stopped(true);
      }
      var fd := field.value;
      if |path| == 1 {
        return AtLast(fd);
      }
      if fd.msgType.None? || fd.shape != Singular {
        StopsHere(schema, parse, goal, msg, track, typ, path, values);
        return Stopped(false);
      }
      ghost var was := msg;
      var track' := Mutable(schema, typ, track, fd);
      GoesOn(schema, parse, goal, was, track, typ, path, values, fd, msg, track');
      return Deeper(track', fd.msgType.value);
    }

    /** `populateFieldValueFromPath`: a loop down the path that makes messages as it goes, then
        the last field. */
    method PopulatePath(schema: Schema, parse: Parser, typ: string, path: seq<string>, values: seq<string>) returns (ok: bool)
      modifies this
      ensures Applied(msg, ok) == Populate(schema, parse, typ, old(msg), path, values)
    {
      if |path| < 1 || |values| < 1 {
        return false;
      }
      ghost var goal := Populate(schema, parse, typ, msg, path, values);
      var i, track, t := 0, [], typ;
      while true
        invariant i < |path|
        invariant CameTo(schema, parse, goal, msg, track, t, path[i..], values)
        decreases |path| - i
      {
        var w := Descend(schema, parse, t, track, path[i..], values, goal);
        match w {
          case Stopped(stop) =>
            return stop;
          case AtLast(fd) =>
            LastLevel(schema, parse, goal, msg, track, t, path[i..], values, fd);
            ok := PopulateLast(schema, parse, t, track, fd, values);
            return;
          case Deeper(track', t') =>
            assert path[i..][1..] == path[i + 1..];
            i, track, t := i + 1, track', t';
        }
      }
    }

    /** `Parse`: a range over the keys, in whatever order it comes, up to the first error. */
    method Parse(q: Query) returns (ok: bool, ghost order: seq<string>)
      modifies this
      ensures Enumerates(order, q.values.Keys)
      ensures Applied(msg, ok) == ApplyAll(q, old(msg), order)
    {
      ok, order := true, [];
      var remaining := q.values.Keys;
      while remaining != {}
        invariant remaining <= q.values.Keys
        invariant Enumerates(order, q.values.Keys - remaining)
        invariant ok && Applied(msg, ok) == ApplyAll(q, old(msg), order)
      {
        var key :| key in remaining;
        ghost var seen := q.values.Keys - remaining;
        remaining := remaining - {key};
        assert seen + {key} == q.values.Keys - remaining;
        EnumerateMore(order, seen, key);
        ApplyMore(q, old(msg), order, [key]);
        if !q.filter(FieldPath(key)) {
          ok := PopulatePath(q.schema, q.parse, q.typ, FieldPath(key), KeyValues(key, q.values[key]));
        }
        assert [key][1..] == [];
        order := order + [key];
        if !ok {
          ghost var rest := Complete(order, q.values.Keys - remaining, remaining);
          assert q.values.Keys - remaining + remaining == q.values.Keys;
          ApplyMore(q, old(msg), order, rest);
          order := order + rest;
          return;
        }
      }
      assert q.values.Keys - remaining == q.values.Keys;
    }
  }
}
