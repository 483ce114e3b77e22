/** What one query parameter does to a message, read off the text of its key. */
module OneKey {
  import opened Text
  import opened Schema
  import opened Orders
  import opened Query
  import opened Independence

  // ---- The text of a key ----

  lemma {:induction false} LastIndexMeans(s: string, c: char)
    ensures forall i :: LastIndex(s, c) < i < |s| ==> s[i] != c
  {
    if s != [] && s[|s| - 1] != c {
      LastIndexMeans(s[..|s| - 1], c);
    }
  }

  /** The key `path[index]`. */
  function Bracketed(path: string, index: string): string {
    path + "[" + index + "]"
  }

  /** Text without line breaks, and without an opening bracket in the index. */
  predicate Plainly(path: string, index: string) {
    '\n' !in path && '\n' !in index && '[' !in index
  }

  /** A key of the form `path[index]` stands for the path, with the index as its first value. */
  lemma {:induction false} BracketedReads(path: string, index: string, values: seq<string>)
    requires Plainly(path, index)
    ensures FieldPath(Bracketed(path, index)) == Split(path, '.')
    ensures KeyValues(Bracketed(path, index), values) == [index] + values
  {
    var key := Bracketed(path, index);
    var front := key[..|key| - 1];
    assert front == path + "[" + index;
    assert front[|path|] == '[';
    LastIndexMeans(front, '[');
    assert forall i :: |path| < i < |front| ==> front[i] == index[i - |path| - 1];
    assert LastIndex(front, '[') == |path|;
    assert key[..|path|] == path && key[|path| + 1..|key| - 1] == index;
  }

  lemma SplitIsBracketed(key: string)
    requires SplitKey(key).Some?
    ensures Plainly(SplitKey(key).value.0, SplitKey(key).value.1)
    ensures key == Bracketed(SplitKey(key).value.0, SplitKey(key).value.1)
  {
    var front := key[..|key| - 1];
    var k := LastIndex(front, '[');
    LastIndexMeans(front, '[');
    var index := key[k + 1..|key| - 1];
    assert forall i :: 0 <= i < |index| ==> index[i] == front[k + 1 + i];
  }

  /** Any other key stands for itself, with its own values. */
  lemma {:induction false} OtherKeyReads(key: string, values: seq<string>)
    requires forall path, index :: Plainly(path, index) ==> key != Bracketed(path, index)
    ensures FieldPath(key) == Split(key, '.') && KeyValues(key, values) == values
  {
    if SplitKey(key).Some? {
      SplitIsBracketed(key);
    }
  }

  // ---- What the path of a key writes ----

  /** The path names these fields one inside the other, each by its proto name or else by its JSON
      name; all but the last are messages. */
  predicate Leads(schema: Schema, typ: string, path: seq<string>, fds: seq<FieldDesc>)
    decreases |path|
  {
    && path != [] && |fds| == |path|
    && GetField(schema, typ, path[0]) == Some(fds[0])
    && (|path| == 1 ||
        (fds[0].msgType.Some? && fds[0].shape == Singular && Leads(schema, fds[0].msgType.value, path[1..], fds[1..])))
  }

  function Names(fds: seq<FieldDesc>): (r: seq<string>)
    ensures |r| == |fds|
  {
    if fds == [] then [] else [fds[0].name] + Names(fds[1..])
  }

  /** Some member of the last field's oneof is present where the fields lead to. */
  predicate OneofSet(schema: Schema, typ: string, msg: Msg, fds: seq<FieldDesc>)
    requires fds != []
    decreases |fds|
  {
    if |fds| > 1 then fds[0].msgType.Some? && OneofSet(schema, fds[0].msgType.value, Child(msg, fds[0].name), fds[1..])
    else
      fds[0].oneof.Some? &&
      exists gd :: gd in FieldsOf(schema, typ) && gd.oneof == fds[0].oneof && gd.name in msg.fields
  }

  function OldItems(prior: Option<Val>): seq<Val> {
    if prior.Some? && prior.value.Values? then prior.value.items else []
  }

  function OldEntries(prior: Option<Val>): map<Val, Val> {
    if prior.Some? && prior.value.Entries? then prior.value.entries else map[]
  }

  /** What writing the values makes of a field that held `prior`: a list keeps its items and gets all
      the values, a map keeps its entries and takes two values for one of them, anything else
      takes one. */
  predicate Stored(parse: Parser, fd: FieldDesc, prior: Option<Val>, values: seq<string>, after: Option<Val>) {
    match fd.shape
    case List =>
      && after.Some? && after.value.Values? && |after.value.items| == |OldItems(prior)| + |values|
      && OldItems(prior) <= after.value.items
      && forall k :: 0 <= k < |values| ==> parse(fd, Whole, values[k]) == Some(after.value.items[|OldItems(prior)| + k])
    case Map =>
      && |values| == 2 && parse(fd, MapKey, values[0]).Some? && parse(fd, MapValue, values[1]).Some?
      && after == Some(Entries(OldEntries(prior)[parse(fd, MapKey, values[0]).value := parse(fd, MapValue, values[1]).value]))
    case Singular => |values| == 1 && after.Some? && parse(fd, Whole, values[0]) == after
  }

  /** A field refused leaves what it held; of a list, the values before the first that does not
      parse are there. */
  predicate Refused(parse: Parser, fd: FieldDesc, prior: Option<Val>, values: seq<string>, after: Option<Val>)
    requires values != []
  {
    match fd.shape
    case List => (exists k :: 0 <= k < |values| && parse(fd, Whole, values[k]) == None) && OldItems(prior) <= OldItems(after)
    case Map =>
      && (|values| == 2 ==> parse(fd, MapKey, values[0]) == None || parse(fd, MapValue, values[1]) == None)
      && after == Some(Entries(OldEntries(prior)))
    case Singular => (|values| > 1 || parse(fd, Whole, values[0]) == None) && after == prior
  }

  lemma {:induction false} LeafWrites(parse: Parser, fd: FieldDesc, prior: Option<Val>, values: seq<string>)
    requires values != []
    ensures
      var (v, ok) := Leaf(parse, fd, prior, values);
      var after := if v.Some? then v else prior;
      if ok then v.Some? && Stored(parse, fd, prior, values, after) else Refused(parse, fd, prior, values, after)
  {
    if fd.shape == List {
      AppendAllIs(parse, fd, ItemsOf(prior), values);
      ParsedMeans(parse, fd, values);
    }
  }

  /** A path that leads to a field outside every oneof, or to one whose oneof is not yet set, writes
      its values there, or fails because they do not fit; a oneof that is set is refused. */
  lemma {:induction false} PathWrites(schema: Schema, parse: Parser, typ: string, msg: Msg, path: seq<string>,
                                      values: seq<string>, fds: seq<FieldDesc>)
    requires values != [] && Leads(schema, typ, path, fds)
    ensures
      var r := Populate(schema, parse, typ, msg, path, values);
      var prior, after := At(msg, Names(fds)), At(r.msg, Names(fds));
      if OneofSet(schema, typ, msg, fds) then !r.ok && after == prior
      else if r.ok then Stored(parse, fds[|fds| - 1], prior, values, after)
      else Refused(parse, fds[|fds| - 1], prior, values, after)
    decreases |path|
  {
    var fd := fds[0];
    assert Names(fds)[1..] == Names(fds[1..]);
    if |path| == 1 {
      assert fds == [fd] && Names(fds) == [fd.name];
      LeafWrites(parse, fd, Get(msg, fd.name), values);
      TakenMeans(schema, typ, msg, fd);
    } else {
      PathWrites(schema, parse, fd.msgType.value, Child(msg, fd.name), path[1..], values, fds[1..]);
      EmptyHasNothing(Names(fds[1..]));
    }
  }

  // ---- A query of one parameter ----

  lemma {:induction false} OneOrder(q: Query, key: string, values: seq<string>, order: seq<string>, msg: Msg)
    requires q.values == map[key := values] && Enumerates(order, q.values.Keys)
    ensures order == [key] && ApplyAll(q, msg, order) == ApplyKey(q, msg, key)
  {
    assert q.values.Keys == {key};
    EnumerateOne(order, key);
    assert [key][1..] == [];
  }

  /** The parameter `path[index]=value` for a map field: the parsed value is stored under the parsed
      index, the other entries stay, and away from oneofs nothing off the path changes. */
  lemma {:induction false} MapEntryParsed(q: Query, path: string, index: string, value: string, fds: seq<FieldDesc>,
                                          order: seq<string>, msg: Msg, k: Val, v: Val)
    requires q.values == map[path + "[" + index + "]" := [value]] && Enumerates(order, q.values.Keys)
    requires Plainly(path, index) && !q.filter(Split(path, '.')) && Leads(q.schema, q.typ, Split(path, '.'), fds)
    requires fds[|fds| - 1].shape == Map && !OneofSet(q.schema, q.typ, msg, fds)
    requires q.parse(fds[|fds| - 1], MapKey, index) == Some(k) && q.parse(fds[|fds| - 1], MapValue, value) == Some(v)
    ensures
      var r := ApplyAll(q, msg, order);
      && r.ok
      && At(r.msg, Names(fds)) == Some(Entries(OldEntries(At(msg, Names(fds)))[k := v]))
      && forall at :: at != [] && NoOneofs(fds) && Incomparable(Names(fds), at) ==> At(r.msg, at) == At(msg, at)
  {
    OneOrder(q, Bracketed(path, index), [value], order, msg);
    BracketedReads(path, index, [value]);
    assert [index] + [value] == [index, value];
    PathWrites(q.schema, q.parse, q.typ, msg, Split(path, '.'), [index, value], fds);
    NothingElse(q.schema, q.parse, q.typ, msg, Split(path, '.'), [index, value], fds);
  }

  /** Any other parameter writes its own values at the field its dots lead to. */
  lemma {:induction false} ValuesParsed(q: Query, key: string, values: seq<string>, fds: seq<FieldDesc>,
                                        order: seq<string>, msg: Msg)
    requires q.values == map[key := values] && values != [] && Enumerates(order, q.values.Keys)
    requires forall path, index :: Plainly(path, index) ==> key != Bracketed(path, index)
    requires !q.filter(Split(key, '.')) && Leads(q.schema, q.typ, Split(key, '.'), fds)
    ensures
      var r := ApplyAll(q, msg, order);
      var prior, after := At(msg, Names(fds)), At(r.msg, Names(fds));
      && (if OneofSet(q.schema, q.typ, msg, fds) then !r.ok && after == prior
          else if r.ok then Stored(q.parse, fds[|fds| - 1], prior, values, after)
          else Refused(q.parse, fds[|fds| - 1], prior, values, after))
      && forall at :: at != [] && NoOneofs(fds) && Incomparable(Names(fds), at) ==> At(r.msg, at) == At(msg, at)
  {
    OneOrder(q, key, values, order, msg);
    OtherKeyReads(key, values);
    PathWrites(q.schema, q.parse, q.typ, msg, Split(key, '.'), values, fds);
    NothingElse(q.schema, q.parse, q.typ, msg, Split(key, '.'), values, fds);
  }

  predicate NoOneofs(fds: seq<FieldDesc>) {
    forall fd :: fd in fds ==> fd.oneof.None?
  }

  lemma {:induction false} LeadsPlainly(schema: Schema, typ: string, path: seq<string>, fds: seq<FieldDesc>)
    requires Leads(schema, typ, path, fds) && NoOneofs(fds)
    ensures Plain(schema, typ, path) && Track(schema, typ, path) == Names(fds)
    decreases |path|
  {
    assert fds[0] in fds;
    if |path| > 1 {
      assert forall fd :: fd in fds[1..] ==> fd in fds;
      LeadsPlainly(schema, fds[0].msgType.value, path[1..], fds[1..]);
    } else {
      assert fds[1..] == [];
    }
  }

  lemma {:induction false} NothingElse(schema: Schema, parse: Parser, typ: string, msg: Msg, path: seq<string>,
                                       values: seq<string>, fds: seq<FieldDesc>)
    requires Leads(schema, typ, path, fds)
    ensures forall at :: at != [] && NoOneofs(fds) && Incomparable(Names(fds), at) ==>
      At(Populate(schema, parse, typ, msg, path, values).msg, at) == At(msg, at)
  {
    if NoOneofs(fds) {
      LeadsPlainly(schema, typ, path, fds);
      forall at | at != [] && Incomparable(Names(fds), at)
        ensures At(Populate(schema, parse, typ, msg, path, values).msg, at) == At(msg, at)
      {
        StaysOnTrack(schema, parse, typ, msg, path, values, at);
      }
    }
  }

  /** A parameter for a field that the message type does not have, or one that is bound elsewhere,
      changes nothing and is no error. */
  lemma {:induction false} IgnoredKey(q: Query, key: string, values: seq<string>, order: seq<string>, msg: Msg)
    requires q.values == map[key := values] && values != [] && Enumerates(order, q.values.Keys)
    requires q.filter(FieldPath(key)) || forall fd :: fd in FieldsOf(q.schema, q.typ) ==>
      fd.name != FieldPath(key)[0] && fd.jsonName != FieldPath(key)[0]
    ensures ApplyAll(q, msg, order) == Applied(msg, true)
  {
    OneOrder(q, key, values, order, msg);
    GetFieldMeans(q.schema, q.typ, FieldPath(key)[0]);
  }

  /** Setting a member of a oneof, or going into it, leaves no other member. */
  lemma {:induction false} OneofKeepsOne(schema: Schema, parse: Parser, typ: string, msg: Msg, path: seq<string>,
                                         values: seq<string>, fd: FieldDesc, gd: FieldDesc)
    requires path != [] && values != [] && GetField(schema, typ, path[0]) == Some(fd) && fd.oneof.Some?
    requires gd in FieldsOf(schema, typ) && gd.oneof == fd.oneof && gd.name != fd.name
    requires Populate(schema, parse, typ, msg, path, values).ok
    ensures gd.name !in Populate(schema, parse, typ, msg, path, values).msg.fields
    ensures fd.name in Populate(schema, parse, typ, msg, path, values).msg.fields
  {
    TakenMeans(schema, typ, msg, fd);
    if |path| == 1 {
      LeafOk(parse, fd, Get(msg, fd.name), values);
    }
  }
}
