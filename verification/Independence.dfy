/** When the order of query parameters shows: two keys may change places on every message exactly
    under a condition on their paths and values, and then no iteration order shows. */
module Independence {
  import opened Text
  import opened Schema
  import opened Orders
  import opened Query

  /** The message after a key that succeeds. */
  function Try(schema: Schema, parse: Parser, typ: string, msg: Msg, path: seq<string>, values: seq<string>): Option<Msg> {
    var r := Populate(schema, parse, typ, msg, path, values);
    if r.ok then Some(r.msg) else None
  }

  // ---- One level of a path ----

  predicate Walkable(fd: FieldDesc) {
    fd.msgType.Some? && fd.shape == Singular
  }

  /** What a field on the path becomes, from what it holds and whether its oneof is set. */
  function Enter(schema: Schema, parse: Parser, fd: FieldDesc, path: seq<string>, values: seq<string>,
                 prior: Option<Val>, taken: bool): Option<Val>
    requires path != [] && values != []
  {
    if |path| > 1 then
      if !Walkable(fd) then None
      else
        match Try(schema, parse, fd.msgType.value, Within(prior), path[1..], values)
        case Some(m) => Some(Sub(m))
        case None => None
    else if fd.oneof.Some? && taken then None
    else
      var (v, ok) := Leaf(parse, fd, prior, values);
      if ok then v else None
  }

  predicate Taken(schema: Schema, typ: string, msg: Msg, fd: FieldDesc) {
    Siblings(schema, typ, msg, fd) != {}
  }

  lemma TryEnters(schema: Schema, parse: Parser, typ: string, msg: Msg, path: seq<string>, values: seq<string>, fd: FieldDesc)
    requires path != [] && values != [] && GetField(schema, typ, path[0]) == Some(fd)
    ensures Try(schema, parse, typ, msg, path, values) ==
      match Enter(schema, parse, fd, path, values, Get(msg, fd.name), Taken(schema, typ, msg, fd))
      case Some(v) => Some(SetField(schema, typ, msg, fd, v))
      case None => None
  {
    if |path| == 1 {
      LeafOk(parse, fd, Get(msg, fd.name), values);
    }
  }

  // ---- Setting fields ----

  /** The field names of each message type are distinct, as protocol buffers require. */
  predicate DistinctNames(schema: Schema) {
    forall typ :: typ in schema ==> AllDistinct(schema[typ])
  }

  predicate AllDistinct(fields: seq<FieldDesc>) {
    forall i, j :: 0 <= i < j < |fields| ==> fields[i].name != fields[j].name
  }

  lemma {:induction false} NamedIsThere(fields: seq<FieldDesc>, name: string)
    ensures ByName(fields, name).Some? ==> ByName(fields, name).value in fields
    ensures ByJsonName(fields, name).Some? ==> ByJsonName(fields, name).value in fields
  {
    if fields != [] {
      NamedIsThere(fields[1..], name);
    }
  }

  lemma FieldIsThere(schema: Schema, typ: string, name: string, fd: FieldDesc)
    requires GetField(schema, typ, name) == Some(fd)
    ensures fd in FieldsOf(schema, typ)
  {
    NamedIsThere(FieldsOf(schema, typ), name);
  }

  lemma NameIsOne(schema: Schema, typ: string, fd: FieldDesc, gd: FieldDesc)
    requires DistinctNames(schema) && fd in FieldsOf(schema, typ) && gd in FieldsOf(schema, typ) && fd.name == gd.name
    ensures fd == gd
  {
    var fields := FieldsOf(schema, typ);
    var i :| 0 <= i < |fields| && fields[i] == fd;
    var j :| 0 <= j < |fields| && fields[j] == gd;
  }

  /** The presence of a oneof, said by its members. */
  lemma TakenMeans(schema: Schema, typ: string, msg: Msg, fd: FieldDesc)
    ensures Taken(schema, typ, msg, fd) <==>
      fd.oneof.Some? && exists gd :: gd in FieldsOf(schema, typ) && gd.oneof == fd.oneof && gd.name in msg.fields
    ensures forall n :: n in Siblings(schema, typ, msg, fd) <==>
      fd.oneof.Some? && n in msg.fields && exists gd :: gd in FieldsOf(schema, typ) && gd.oneof == fd.oneof && gd.name == n
  {
    var fields, s := FieldsOf(schema, typ), Siblings(schema, typ, msg, fd);
    forall n ensures n in s <==> fd.oneof.Some? && n in msg.fields && exists gd :: gd in fields && gd.oneof == fd.oneof && gd.name == n {
      if fd.oneof.Some? && n in msg.fields && exists gd :: gd in fields && gd.oneof == fd.oneof && gd.name == n {
        var gd :| gd in fields && gd.oneof == fd.oneof && gd.name == n;
        var i :| 0 <= i < |fields| && fields[i] == gd;
        assert fields[i].name in s;
      }
    }
    if Taken(schema, typ, msg, fd) {
      var n :| n in s;
    }
    if fd.oneof.Some? && exists gd :: gd in fields && gd.oneof == fd.oneof && gd.name in msg.fields {
      var gd :| gd in fields && gd.oneof == fd.oneof && gd.name in msg.fields;
      assert gd.name in s;
    }
  }

  /** A field that was set holds its value, and its oneof is set; setting it again leaves no trace
      of the first value. */
  lemma SetOwn(schema: Schema, typ: string, msg: Msg, fd: FieldDesc, v: Val, w: Val)
    requires fd in FieldsOf(schema, typ)
    ensures
      var after := SetField(schema, typ, msg, fd, v);
      && Get(after, fd.name) == Some(v)
      && (fd.oneof.Some? ==> Taken(schema, typ, after, fd))
      && SetField(schema, typ, after, fd, w) == SetField(schema, typ, msg, fd, w)
  {
    var after := SetField(schema, typ, msg, fd, v);
    TakenMeans(schema, typ, msg, fd);
    TakenMeans(schema, typ, after, fd);
    assert SetField(schema, typ, after, fd, w).fields == SetField(schema, typ, msg, fd, w).fields;
  }

  /** Two fields that share no oneof. */
  predicate Strangers(fd: FieldDesc, gd: FieldDesc) {
    fd.name != gd.name && (fd.oneof.None? || fd.oneof != gd.oneof)
  }

  /** A member of another oneof is neither the field nor cleared with it. */
  lemma NotAmong(schema: Schema, typ: string, msg: Msg, fd: FieldDesc, hd: FieldDesc)
    requires DistinctNames(schema) && fd in FieldsOf(schema, typ) && hd in FieldsOf(schema, typ) && hd.oneof != fd.oneof
    ensures hd.name != fd.name && hd.name !in Siblings(schema, typ, msg, fd)
  {
    TakenMeans(schema, typ, msg, fd);
    forall gd | gd in FieldsOf(schema, typ) && gd.name == hd.name ensures gd == hd {
      NameIsOne(schema, typ, gd, hd);
    }
  }

  lemma NotCleared(schema: Schema, typ: string, msg: Msg, fd: FieldDesc, gd: FieldDesc)
    requires DistinctNames(schema) && fd in FieldsOf(schema, typ) && gd in FieldsOf(schema, typ) && Strangers(fd, gd)
    ensures gd.name !in Siblings(schema, typ, msg, fd)
  {
    if fd.oneof.Some? {
      NotAmong(schema, typ, msg, fd, gd);
    }
  }

  /** Setting a field does not show at a stranger. */
  lemma SetOther(schema: Schema, typ: string, msg: Msg, fd: FieldDesc, v: Val, gd: FieldDesc)
    requires DistinctNames(schema) && fd in FieldsOf(schema, typ) && gd in FieldsOf(schema, typ) && Strangers(fd, gd)
    ensures
      var after := SetField(schema, typ, msg, fd, v);
      && Get(after, gd.name) == Get(msg, gd.name)
      && Siblings(schema, typ, after, gd) == Siblings(schema, typ, msg, gd)
  {
    var after := SetField(schema, typ, msg, fd, v);
    TakenMeans(schema, typ, msg, fd);
    TakenMeans(schema, typ, msg, gd);
    TakenMeans(schema, typ, after, gd);
    NotCleared(schema, typ, msg, fd, gd);
    if gd.oneof.Some? {
      forall hd | hd in FieldsOf(schema, typ) && hd.oneof == gd.oneof
        ensures hd.name in after.fields <==> hd.name in msg.fields
      {
        NotAmong(schema, typ, msg, fd, hd);
      }
    }
  }

  /** Strangers can be set in either order. */
  lemma SetsCommute(schema: Schema, typ: string, msg: Msg, fd: FieldDesc, v: Val, gd: FieldDesc, w: Val)
    requires DistinctNames(schema) && fd in FieldsOf(schema, typ) && gd in FieldsOf(schema, typ) && Strangers(fd, gd)
    ensures SetField(schema, typ, SetField(schema, typ, msg, fd, v), gd, w)
      == SetField(schema, typ, SetField(schema, typ, msg, gd, w), fd, v)
  {
    SetOther(schema, typ, msg, fd, v, gd);
    SetOther(schema, typ, msg, gd, w, fd);
    NotCleared(schema, typ, msg, fd, gd);
    NotCleared(schema, typ, msg, gd, fd);
    assert SetField(schema, typ, SetField(schema, typ, msg, fd, v), gd, w).fields
      == SetField(schema, typ, SetField(schema, typ, msg, gd, w), fd, v).fields;
  }

  // ---- When two keys may change places ----

  /** Refused whatever the message holds: nothing to write, a value that does not parse, or a
      walk through something that is not a message. */
  predicate Hopeless(schema: Schema, parse: Parser, typ: string, path: seq<string>, values: seq<string>)
    decreases |path|
  {
    path == [] || values == [] ||
    match GetField(schema, typ, path[0])
    case None => false
    case Some(fd) =>
      if |path| > 1 then !Walkable(fd) || Hopeless(schema, parse, fd.msgType.value, path[1..], values)
      else !Leaf(parse, fd, None, values).1
  }

  lemma {:induction false} HopelessFails(schema: Schema, parse: Parser, typ: string, msg: Msg, path: seq<string>,
                                         values: seq<string>)
    requires Hopeless(schema, parse, typ, path, values)
    ensures Try(schema, parse, typ, msg, path, values) == None
    decreases |path|
  {
    if path != [] && values != [] && GetField(schema, typ, path[0]).Some? {
      var fd := GetField(schema, typ, path[0]).value;
      TryEnters(schema, parse, typ, msg, path, values, fd);
      if |path| == 1 {
        LeafOk(parse, fd, Get(msg, fd.name), values);
      } else if Walkable(fd) {
        HopelessFails(schema, parse, fd.msgType.value, Child(msg, fd.name), path[1..], values);
      }
    }
  }

  /** Every other key succeeds on an empty message. */
  lemma {:induction false} OthersSucceed(schema: Schema, parse: Parser, typ: string, path: seq<string>, values: seq<string>)
    requires !Hopeless(schema, parse, typ, path, values)
    ensures Try(schema, parse, typ, EMPTY, path, values).Some?
    decreases |path|
  {
    if GetField(schema, typ, path[0]).Some? {
      var fd := GetField(schema, typ, path[0]).value;
      TryEnters(schema, parse, typ, EMPTY, path, values, fd);
      if |path| == 1 {
        LeafOk(parse, fd, None, values);
        TakenMeans(schema, typ, EMPTY, fd);
      } else {
        OthersSucceed(schema, parse, fd.msgType.value, path[1..], values);
      }
    }
  }

  /** Two lists of values for one field outside every oneof may change places. */
  predicate LeavesCommute(parse: Parser, fd: FieldDesc, pv: seq<string>, qv: seq<string>)
    requires pv != [] && qv != []
  {
    match fd.shape
    case List =>
      Parsed(parse, fd, pv) + Parsed(parse, fd, qv) == Parsed(parse, fd, qv) + Parsed(parse, fd, pv)
    case Map =>
      |pv| == 2 && |qv| == 2 &&
      (parse(fd, MapKey, pv[0]) != parse(fd, MapKey, qv[0]) || parse(fd, MapValue, pv[1]) == parse(fd, MapValue, qv[1]))
    case Singular => parse(fd, Whole, pv[0]) == parse(fd, Whole, qv[0])
  }

  /** A value for a message field and a walk through that field may change places: in a oneof, when
      the walk fails within the value, so that both orders are refused; elsewhere, when the walk
      finds everything in the value as it would leave it. */
  predicate LeafAndWalkCommute(schema: Schema, parse: Parser, fd: FieldDesc, pv: seq<string>, path: seq<string>, qv: seq<string>)
    requires pv != [] && Walkable(fd)
  {
    var v := parse(fd, Whole, pv[0]);
    var after := Try(schema, parse, fd.msgType.value, Within(v), path, qv);
    if fd.oneof.Some? then after == None else after.Some? && v == Some(Sub(after.value))
  }

  /** Two keys of one message that may change places. */
  predicate Independent(schema: Schema, parse: Parser, typ: string, p: seq<string>, pv: seq<string>, q: seq<string>,
                        qv: seq<string>)
    decreases |p|
  {
    Hopeless(schema, parse, typ, p, pv) || Hopeless(schema, parse, typ, q, qv) ||
    match (GetField(schema, typ, p[0]), GetField(schema, typ, q[0]))
    case (Some(fd), Some(gd)) =>
      if fd.name != gd.name then Strangers(fd, gd) || (|p| == 1 && |q| == 1)
      else if |p| > 1 && |q| > 1 then Independent(schema, parse, fd.msgType.value, p[1..], pv, q[1..], qv)
      else if |p| == 1 && |q| == 1 then fd.oneof.Some? || LeavesCommute(parse, fd, pv, qv)
      else if |p| == 1 then Walkable(fd) && LeafAndWalkCommute(schema, parse, fd, pv, q[1..], qv)
      else Walkable(fd) && LeafAndWalkCommute(schema, parse, fd, qv, p[1..], pv)
    case _ => true
  }

  /** One key and then the other. */
  function Both(schema: Schema, parse: Parser, typ: string, msg: Msg,
                p: seq<string>, pv: seq<string>, q: seq<string>, qv: seq<string>): Option<Msg>
  {
    match Try(schema, parse, typ, msg, p, pv)
    case Some(m) => Try(schema, parse, typ, m, q, qv)
    case None => None
  }

  /** On this message the two orders fail alike or give the same message. */
  predicate Commute(schema: Schema, parse: Parser, typ: string, msg: Msg,
                    p: seq<string>, pv: seq<string>, q: seq<string>, qv: seq<string>)
  {
    Both(schema, parse, typ, msg, p, pv, q, qv) == Both(schema, parse, typ, msg, q, qv, p, pv)
  }

  /** Both fields of two paths, entered one after the other. */
  function BothEnter(schema: Schema, parse: Parser, typ: string, msg: Msg,
                     p: seq<string>, pv: seq<string>, fd: FieldDesc, q: seq<string>, qv: seq<string>, gd: FieldDesc): Option<Msg>
    requires p != [] && pv != [] && q != [] && qv != []
  {
    match Enter(schema, parse, fd, p, pv, Get(msg, fd.name), Taken(schema, typ, msg, fd))
    case None => None
    case Some(v) =>
      var m := SetField(schema, typ, msg, fd, v);
      match Enter(schema, parse, gd, q, qv, Get(m, gd.name), Taken(schema, typ, m, gd))
      case None => None
      case Some(w) => Some(SetField(schema, typ, m, gd, w))
  }

  /** The paths start with these fields, and neither key is hopeless. */
  predicate Heads(schema: Schema, parse: Parser, typ: string, p: seq<string>, pv: seq<string>, fd: FieldDesc,
                  q: seq<string>, qv: seq<string>, gd: FieldDesc)
  {
    && !Hopeless(schema, parse, typ, p, pv) && !Hopeless(schema, parse, typ, q, qv)
    && GetField(schema, typ, p[0]) == Some(fd) && GetField(schema, typ, q[0]) == Some(gd)
  }

  lemma TwoSteps(schema: Schema, parse: Parser, typ: string, msg: Msg,
                 p: seq<string>, pv: seq<string>, fd: FieldDesc, q: seq<string>, qv: seq<string>, gd: FieldDesc)
    requires Heads(schema, parse, typ, p, pv, fd, q, qv, gd)
    ensures Both(schema, parse, typ, msg, p, pv, q, qv) == BothEnter(schema, parse, typ, msg, p, pv, fd, q, qv, gd)
    ensures fd in FieldsOf(schema, typ) && gd in FieldsOf(schema, typ)
  {
    FieldIsThere(schema, typ, p[0], fd);
    FieldIsThere(schema, typ, q[0], gd);
    TryEnters(schema, parse, typ, msg, p, pv, fd);
    match Try(schema, parse, typ, msg, p, pv)
    case Some(m) => TryEnters(schema, parse, typ, m, q, qv, gd);
    case None =>
  }

  // Fields that share no oneof.

  lemma {:induction false} StrangersEnter(schema: Schema, parse: Parser, typ: string, msg: Msg,
                       p: seq<string>, pv: seq<string>, fd: FieldDesc, q: seq<string>, qv: seq<string>, gd: FieldDesc)
    requires DistinctNames(schema) && fd in FieldsOf(schema, typ) && gd in FieldsOf(schema, typ) && Strangers(fd, gd)
    requires p != [] && pv != [] && q != [] && qv != []
    ensures BothEnter(schema, parse, typ, msg, p, pv, fd, q, qv, gd) ==
      match (Enter(schema, parse, fd, p, pv, Get(msg, fd.name), Taken(schema, typ, msg, fd)),
             Enter(schema, parse, gd, q, qv, Get(msg, gd.name), Taken(schema, typ, msg, gd)))
      case (Some(v), Some(w)) => Some(SetField(schema, typ, SetField(schema, typ, msg, fd, v), gd, w))
      case _ => None
  {
    match Enter(schema, parse, fd, p, pv, Get(msg, fd.name), Taken(schema, typ, msg, fd))
    case Some(v) => SetOther(schema, typ, msg, fd, v, gd);
    case None =>
  }

  lemma StrangersCommute(schema: Schema, parse: Parser, typ: string, msg: Msg,
                         p: seq<string>, pv: seq<string>, fd: FieldDesc, q: seq<string>, qv: seq<string>, gd: FieldDesc)
    requires DistinctNames(schema) && Heads(schema, parse, typ, p, pv, fd, q, qv, gd) && Strangers(fd, gd)
    ensures Commute(schema, parse, typ, msg, p, pv, q, qv)
  {
    TwoSteps(schema, parse, typ, msg, p, pv, fd, q, qv, gd);
    TwoSteps(schema, parse, typ, msg, q, qv, gd, p, pv, fd);
    StrangersEnter(schema, parse, typ, msg, p, pv, fd, q, qv, gd);
    StrangersEnter(schema, parse, typ, msg, q, qv, gd, p, pv, fd);
    match (Enter(schema, parse, fd, p, pv, Get(msg, fd.name), Taken(schema, typ, msg, fd)),
           Enter(schema, parse, gd, q, qv, Get(msg, gd.name), Taken(schema, typ, msg, gd)))
    case (Some(v), Some(w)) => SetsCommute(schema, typ, msg, fd, v, gd, w);
    case _ =>
  }

  // Members of one oneof.

  predicate Partners(fd: FieldDesc, gd: FieldDesc) {
    fd.oneof.Some? && fd.oneof == gd.oneof
  }

  lemma SetTakes(schema: Schema, typ: string, msg: Msg, fd: FieldDesc, v: Val, gd: FieldDesc)
    requires fd in FieldsOf(schema, typ) && Partners(fd, gd)
    ensures Taken(schema, typ, SetField(schema, typ, msg, fd, v), gd)
  {
    TakenMeans(schema, typ, SetField(schema, typ, msg, fd, v), gd);
  }

  /** After any member of a oneof, a leaf of the same oneof is refused, whatever the message. */
  lemma LeafIsRefused(schema: Schema, parse: Parser, typ: string, msg: Msg,
                      p: seq<string>, pv: seq<string>, fd: FieldDesc, q: seq<string>, qv: seq<string>, gd: FieldDesc)
    requires Heads(schema, parse, typ, p, pv, fd, q, qv, gd) && Partners(fd, gd) && |q| == 1
    ensures Both(schema, parse, typ, msg, p, pv, q, qv) == None
  {
    TwoSteps(schema, parse, typ, msg, p, pv, fd, q, qv, gd);
    match Enter(schema, parse, fd, p, pv, Get(msg, fd.name), Taken(schema, typ, msg, fd))
    case Some(v) => SetTakes(schema, typ, msg, fd, v, gd);
    case None =>
  }

  /** A walk through one member and a key on another: the walk goes through after the key, and
      takes its place, while a leaf is refused after the walk and a walk clears what is there. */
  lemma RivalsDiffer(schema: Schema, parse: Parser, typ: string,
                     p: seq<string>, pv: seq<string>, fd: FieldDesc, q: seq<string>, qv: seq<string>, gd: FieldDesc)
    requires DistinctNames(schema) && Heads(schema, parse, typ, p, pv, fd, q, qv, gd)
    requires Partners(fd, gd) && fd.name != gd.name && |p| > 1
    ensures !Commute(schema, parse, typ, EMPTY, p, pv, q, qv)
  {
    RivalWins(schema, parse, typ, q, qv, gd, p, pv, fd);
    if |q| > 1 {
      RivalWins(schema, parse, typ, p, pv, fd, q, qv, gd);
    } else {
      LeafIsRefused(schema, parse, typ, EMPTY, p, pv, fd, q, qv, gd);
    }
  }

  /** Started on an empty message, a walk that comes second leaves its own member only. */
  lemma RivalWins(schema: Schema, parse: Parser, typ: string,
                  p: seq<string>, pv: seq<string>, fd: FieldDesc, q: seq<string>, qv: seq<string>, gd: FieldDesc)
    requires DistinctNames(schema) && Heads(schema, parse, typ, p, pv, fd, q, qv, gd)
    requires Partners(fd, gd) && fd.name != gd.name && |q| > 1
    ensures
      var r := Both(schema, parse, typ, EMPTY, p, pv, q, qv);
      r.Some? && gd.name in r.value.fields && fd.name !in r.value.fields
  {
    TwoSteps(schema, parse, typ, EMPTY, p, pv, fd, q, qv, gd);
    OthersSucceed(schema, parse, typ, p, pv);
    TryEnters(schema, parse, typ, EMPTY, p, pv, fd);
    var v := Enter(schema, parse, fd, p, pv, None, Taken(schema, typ, EMPTY, fd)).value;
    OnlySet(schema, typ, fd, v, gd);
    OthersSucceed(schema, parse, gd.msgType.value, q[1..], qv);
  }

  /** Setting a field of an empty message and then another of its oneof. */
  lemma OnlySet(schema: Schema, typ: string, fd: FieldDesc, v: Val, gd: FieldDesc)
    requires fd in FieldsOf(schema, typ) && gd in FieldsOf(schema, typ) && Partners(fd, gd) && fd.name != gd.name
    ensures
      var m := SetField(schema, typ, EMPTY, fd, v);
      Get(m, gd.name) == None && fd.name in Siblings(schema, typ, m, gd)
  {
    TakenMeans(schema, typ, SetField(schema, typ, EMPTY, fd, v), gd);
  }

  // One field, walked through twice.

  lemma WalksInOne(schema: Schema, parse: Parser, typ: string, msg: Msg,
                   p: seq<string>, pv: seq<string>, q: seq<string>, qv: seq<string>, fd: FieldDesc)
    requires Heads(schema, parse, typ, p, pv, fd, q, qv, fd) && |p| > 1 && |q| > 1
    ensures Both(schema, parse, typ, msg, p, pv, q, qv) ==
      match Both(schema, parse, fd.msgType.value, Child(msg, fd.name), p[1..], pv, q[1..], qv)
      case Some(m) => Some(SetField(schema, typ, msg, fd, Sub(m)))
      case None => None
  {
    TwoSteps(schema, parse, typ, msg, p, pv, fd, q, qv, fd);
    match Try(schema, parse, fd.msgType.value, Child(msg, fd.name), p[1..], pv) {
      case Some(m) =>
        match Try(schema, parse, fd.msgType.value, m, q[1..], qv) {
          case Some(n) => SetOwn(schema, typ, msg, fd, Sub(m), Sub(n));
          case None => SetOwn(schema, typ, msg, fd, Sub(m), Sub(m));
        }
      case None =>
    }
  }

  // One field, written twice.

  /** What a leaf becomes when its values parse. */
  function Wrote(parse: Parser, fd: FieldDesc, prior: Option<Val>, values: seq<string>): Val
    requires values != [] && Leaf(parse, fd, None, values).1
  {
    LeafOk(parse, fd, prior, values);
    Leaf(parse, fd, prior, values).0.value
  }

  lemma LeavesInOne(schema: Schema, parse: Parser, typ: string, msg: Msg,
                    p: seq<string>, pv: seq<string>, q: seq<string>, qv: seq<string>, fd: FieldDesc)
    requires Heads(schema, parse, typ, p, pv, fd, q, qv, fd) && |p| == 1 && |q| == 1 && fd.oneof.None?
    ensures Both(schema, parse, typ, msg, p, pv, q, qv) ==
      Some(SetField(schema, typ, msg, fd, Wrote(parse, fd, Some(Wrote(parse, fd, Get(msg, fd.name), pv)), qv)))
  {
    TwoSteps(schema, parse, typ, msg, p, pv, fd, q, qv, fd);
    var v := Wrote(parse, fd, Get(msg, fd.name), pv);
    LeafOk(parse, fd, Get(msg, fd.name), pv);
    LeafOk(parse, fd, Some(v), qv);
    SetOwn(schema, typ, msg, fd, v, Wrote(parse, fd, Some(v), qv));
  }

  lemma LeavesExact(parse: Parser, fd: FieldDesc, prior: Option<Val>, pv: seq<string>, qv: seq<string>)
    requires pv != [] && qv != [] && Leaf(parse, fd, None, pv).1 && Leaf(parse, fd, None, qv).1
    ensures
      var pq, qp := Wrote(parse, fd, Some(Wrote(parse, fd, prior, pv)), qv), Wrote(parse, fd, Some(Wrote(parse, fd, prior, qv)), pv);
      && (LeavesCommute(parse, fd, pv, qv) ==> pq == qp)
      && (prior == None && !LeavesCommute(parse, fd, pv, qv) ==> pq != qp)
  {
    match fd.shape
    case List => ListsExact(parse, fd, ItemsOf(prior), pv, qv);
    case Map => EntriesExact(parse, fd, prior, pv, qv);
    case Singular =>
  }

  lemma ListsExact(parse: Parser, fd: FieldDesc, items: seq<Val>, pv: seq<string>, qv: seq<string>)
    ensures
      var p, q := Parsed(parse, fd, pv), Parsed(parse, fd, qv);
      && AppendAll(parse, fd, AppendAll(parse, fd, items, pv).0, qv).0 == items + (p + q)
      && AppendAll(parse, fd, AppendAll(parse, fd, items, qv).0, pv).0 == items + (q + p)
      && (items == [] ==> items + (p + q) == p + q && items + (q + p) == q + p)
  {
    var p, q := Parsed(parse, fd, pv), Parsed(parse, fd, qv);
    AppendAllIs(parse, fd, items, pv);
    AppendAllIs(parse, fd, items + p, qv);
    AppendAllIs(parse, fd, items, qv);
    AppendAllIs(parse, fd, items + q, pv);
    Assoc(items, p, q);
    Assoc(items, q, p);
  }

  lemma EntriesExact(parse: Parser, fd: FieldDesc, prior: Option<Val>, pv: seq<string>, qv: seq<string>)
    requires fd.shape == Map && pv != [] && qv != [] && Leaf(parse, fd, None, pv).1 && Leaf(parse, fd, None, qv).1
    ensures Wrote(parse, fd, Some(Wrote(parse, fd, prior, pv)), qv) == Wrote(parse, fd, Some(Wrote(parse, fd, prior, qv)), pv)
      <==> LeavesCommute(parse, fd, pv, qv)
  {
    var entries := EntriesOf(prior);
    var k, v := parse(fd, MapKey, pv[0]).value, parse(fd, MapValue, pv[1]).value;
    var l, w := parse(fd, MapKey, qv[0]).value, parse(fd, MapValue, qv[1]).value;
    assert Wrote(parse, fd, prior, pv) == Entries(entries[k := v]);
    assert Wrote(parse, fd, prior, qv) == Entries(entries[l := w]);
    if k != l {
      assert entries[k := v][l := w] == entries[l := w][k := v];
    } else {
      assert entries[k := v][l := w][k] == w && entries[l := w][k := v][k] == v;
      assert v == w ==> entries[k := v][l := w] == entries[l := w][k := v];
    }
  }

  // One field, written and walked through.

  lemma LeafThenWalk(schema: Schema, parse: Parser, typ: string, msg: Msg,
                     p: seq<string>, pv: seq<string>, q: seq<string>, qv: seq<string>, fd: FieldDesc)
    requires Heads(schema, parse, typ, p, pv, fd, q, qv, fd) && |p| == 1 && |q| > 1
    ensures Walkable(fd) && parse(fd, Whole, pv[0]).Some?
    ensures
      var after := Try(schema, parse, fd.msgType.value, Within(parse(fd, Whole, pv[0])), q[1..], qv);
      Both(schema, parse, typ, msg, p, pv, q, qv) ==
        if (fd.oneof.Some? && Taken(schema, typ, msg, fd)) || after == None then None
        else Some(SetField(schema, typ, msg, fd, Sub(after.value)))
  {
    var v := parse(fd, Whole, pv[0]).value;
    TwoSteps(schema, parse, typ, msg, p, pv, fd, q, qv, fd);
    var after := Try(schema, parse, fd.msgType.value, Within(Some(v)), q[1..], qv);
    SetOwn(schema, typ, msg, fd, v, if after.Some? then Sub(after.value) else v);
  }

  /** Outside every oneof a leaf after a walk that succeeds leaves the leaf's value. */
  lemma WalkThenLeaf(schema: Schema, parse: Parser, typ: string, msg: Msg,
                     p: seq<string>, pv: seq<string>, q: seq<string>, qv: seq<string>, fd: FieldDesc)
    requires Heads(schema, parse, typ, p, pv, fd, q, qv, fd) && |p| > 1 && |q| == 1 && fd.oneof.None?
    ensures Walkable(fd) && parse(fd, Whole, qv[0]).Some?
    ensures Both(schema, parse, typ, msg, p, pv, q, qv) ==
      if Try(schema, parse, fd.msgType.value, Child(msg, fd.name), p[1..], pv) == None then None
      else Some(SetField(schema, typ, msg, fd, parse(fd, Whole, qv[0]).value))
  {
    var w := parse(fd, Whole, qv[0]).value;
    TwoSteps(schema, parse, typ, msg, p, pv, fd, q, qv, fd);
    match Try(schema, parse, fd.msgType.value, Child(msg, fd.name), p[1..], pv)
    case Some(m) => SetOwn(schema, typ, msg, fd, Sub(m), w);
    case None =>
  }

  /** A key that leaves some message as it is succeeds on every message. */
  lemma {:induction false} IdleSucceeds(schema: Schema, parse: Parser, typ: string, still: Msg, msg: Msg,
                                        path: seq<string>, values: seq<string>)
    requires Try(schema, parse, typ, still, path, values) == Some(still)
    ensures Try(schema, parse, typ, msg, path, values).Some?
    decreases |path|
  {
    if GetField(schema, typ, path[0]).Some? {
      var fd := GetField(schema, typ, path[0]).value;
      FieldIsThere(schema, typ, path[0], fd);
      TryEnters(schema, parse, typ, still, path, values, fd);
      TryEnters(schema, parse, typ, msg, path, values, fd);
      var v := Enter(schema, parse, fd, path, values, Get(still, fd.name), Taken(schema, typ, still, fd)).value;
      SetOwn(schema, typ, still, fd, v, v);
      if |path| > 1 {
        IdleSucceeds(schema, parse, fd.msgType.value, v.msg, Child(msg, fd.name), path[1..], values);
      } else {
        LeafOk(parse, fd, Get(still, fd.name), values);
        LeafOk(parse, fd, Get(msg, fd.name), values);
      }
    }
  }

  lemma LeafAndWalkExact(schema: Schema, parse: Parser, typ: string, msg: Msg,
                         p: seq<string>, pv: seq<string>, q: seq<string>, qv: seq<string>, fd: FieldDesc)
    requires Heads(schema, parse, typ, p, pv, fd, q, qv, fd) && |p| == 1 && |q| > 1
    ensures Walkable(fd)
    ensures LeafAndWalkCommute(schema, parse, fd, pv, q[1..], qv) ==> Commute(schema, parse, typ, msg, p, pv, q, qv)
    ensures msg == EMPTY && !LeafAndWalkCommute(schema, parse, fd, pv, q[1..], qv) ==> !Commute(schema, parse, typ, msg, p, pv, q, qv)
  {
    LeafThenWalk(schema, parse, typ, msg, p, pv, q, qv, fd);
    var v := parse(fd, Whole, pv[0]).value;
    var after := Try(schema, parse, fd.msgType.value, Within(Some(v)), q[1..], qv);
    FieldIsThere(schema, typ, p[0], fd);
    if fd.oneof.Some? {
      LeafIsRefused(schema, parse, typ, msg, q, qv, fd, p, pv, fd);
      TakenMeans(schema, typ, EMPTY, fd);
    } else {
      WalkThenLeaf(schema, parse, typ, msg, q, qv, p, pv, fd);
      if LeafAndWalkCommute(schema, parse, fd, pv, q[1..], qv) {
        IdleSucceeds(schema, parse, fd.msgType.value, after.value, Child(msg, fd.name), q[1..], qv);
      }
      OthersSucceed(schema, parse, fd.msgType.value, q[1..], qv);
      SetOwn(schema, typ, msg, fd, v, v);
      if after.Some? {
        SetOwn(schema, typ, msg, fd, Sub(after.value), v);
      }
    }
  }

  // Both directions.

  lemma {:induction false} IndependentCommute(schema: Schema, parse: Parser, typ: string, msg: Msg,
                                              p: seq<string>, pv: seq<string>, q: seq<string>, qv: seq<string>)
    requires DistinctNames(schema) && Independent(schema, parse, typ, p, pv, q, qv)
    ensures Commute(schema, parse, typ, msg, p, pv, q, qv)
    decreases |p|
  {
    if Hopeless(schema, parse, typ, p, pv) || Hopeless(schema, parse, typ, q, qv) {
      HopelessCommute(schema, parse, typ, msg, p, pv, q, qv);
    } else if GetField(schema, typ, p[0]).Some? && GetField(schema, typ, q[0]).Some? {
      var fd, gd := GetField(schema, typ, p[0]).value, GetField(schema, typ, q[0]).value;
      if fd.name != gd.name && Strangers(fd, gd) {
        StrangersCommute(schema, parse, typ, msg, p, pv, fd, q, qv, gd);
      } else if fd.name == gd.name && |p| > 1 && |q| > 1 {
        SameHead(schema, parse, typ, p, pv, fd, q, qv, gd);
        IndependentCommute(schema, parse, fd.msgType.value, Child(msg, fd.name), p[1..], pv, q[1..], qv);
        WalksInOne(schema, parse, typ, msg, p, pv, q, qv, fd);
        WalksInOne(schema, parse, typ, msg, q, qv, p, pv, fd);
      } else {
        LastFieldsCommute(schema, parse, typ, msg, p, pv, fd, q, qv, gd);
      }
    }
  }

  lemma SameHead(schema: Schema, parse: Parser, typ: string,
                 p: seq<string>, pv: seq<string>, fd: FieldDesc, q: seq<string>, qv: seq<string>, gd: FieldDesc)
    requires DistinctNames(schema) && Heads(schema, parse, typ, p, pv, fd, q, qv, gd) && fd.name == gd.name
    ensures fd == gd && fd in FieldsOf(schema, typ)
  {
    FieldIsThere(schema, typ, p[0], fd);
    FieldIsThere(schema, typ, q[0], gd);
    NameIsOne(schema, typ, fd, gd);
  }

  lemma HopelessCommute(schema: Schema, parse: Parser, typ: string, msg: Msg,
                        p: seq<string>, pv: seq<string>, q: seq<string>, qv: seq<string>)
    requires Hopeless(schema, parse, typ, p, pv) || Hopeless(schema, parse, typ, q, qv)
    ensures Commute(schema, parse, typ, msg, p, pv, q, qv)
  {
    forall m ensures
      (Hopeless(schema, parse, typ, p, pv) ==> Try(schema, parse, typ, m, p, pv) == None) &&
      (Hopeless(schema, parse, typ, q, qv) ==> Try(schema, parse, typ, m, q, qv) == None)
    {
      if Hopeless(schema, parse, typ, p, pv) {
        HopelessFails(schema, parse, typ, m, p, pv);
      }
      if Hopeless(schema, parse, typ, q, qv) {
        HopelessFails(schema, parse, typ, m, q, qv);
      }
    }
  }

  /** The cases where a path ends. */
  lemma LastFieldsCommute(schema: Schema, parse: Parser, typ: string, msg: Msg,
                          p: seq<string>, pv: seq<string>, fd: FieldDesc, q: seq<string>, qv: seq<string>, gd: FieldDesc)
    requires DistinctNames(schema) && Heads(schema, parse, typ, p, pv, fd, q, qv, gd)
    requires !Strangers(fd, gd) && (|p| == 1 || |q| == 1) && Independent(schema, parse, typ, p, pv, q, qv)
    ensures Commute(schema, parse, typ, msg, p, pv, q, qv)
  {
    if fd.name == gd.name {
      SameHead(schema, parse, typ, p, pv, fd, q, qv, gd);
    }
    if |q| > 1 {
      LeafAndWalkExact(schema, parse, typ, msg, p, pv, q, qv, fd);
    } else if |p| > 1 {
      LeafAndWalkExact(schema, parse, typ, msg, q, qv, p, pv, fd);
    } else if fd.oneof.Some? {
      LeafIsRefused(schema, parse, typ, msg, p, pv, fd, q, qv, gd);
      LeafIsRefused(schema, parse, typ, msg, q, qv, gd, p, pv, fd);
    } else {
      LeavesInOne(schema, parse, typ, msg, p, pv, q, qv, fd);
      LeavesInOne(schema, parse, typ, msg, q, qv, p, pv, fd);
      LeavesExact(parse, fd, Get(msg, fd.name), pv, qv);
    }
  }

  /** Keys that are not independent differ on some message: an empty one at the place where their
      paths part or end. */
  lemma {:induction false} DependentDiffer(schema: Schema, parse: Parser, typ: string,
                                           p: seq<string>, pv: seq<string>, q: seq<string>, qv: seq<string>) returns (msg: Msg)
    requires DistinctNames(schema) && !Independent(schema, parse, typ, p, pv, q, qv)
    ensures !Commute(schema, parse, typ, msg, p, pv, q, qv)
    decreases |p|
  {
    var fd, gd := GetField(schema, typ, p[0]).value, GetField(schema, typ, q[0]).value;
    if fd.name == gd.name && |p| > 1 && |q| > 1 {
      SameHead(schema, parse, typ, p, pv, fd, q, qv, gd);
      var child := DependentDiffer(schema, parse, fd.msgType.value, p[1..], pv, q[1..], qv);
      msg := Msg(map[fd.name := Sub(child)]);
      DifferAbove(schema, parse, typ, msg, p, pv, q, qv, fd);
    } else {
      msg := EMPTY;
      LastFieldsDiffer(schema, parse, typ, p, pv, fd, q, qv, gd);
    }
  }

  lemma DifferAbove(schema: Schema, parse: Parser, typ: string, msg: Msg,
                    p: seq<string>, pv: seq<string>, q: seq<string>, qv: seq<string>, fd: FieldDesc)
    requires Heads(schema, parse, typ, p, pv, fd, q, qv, fd) && |p| > 1 && |q| > 1 && fd in FieldsOf(schema, typ)
    requires !Commute(schema, parse, fd.msgType.value, Child(msg, fd.name), p[1..], pv, q[1..], qv)
    ensures !Commute(schema, parse, typ, msg, p, pv, q, qv)
  {
    WalksInOne(schema, parse, typ, msg, p, pv, q, qv, fd);
    WalksInOne(schema, parse, typ, msg, q, qv, p, pv, fd);
    match (Both(schema, parse, fd.msgType.value, Child(msg, fd.name), p[1..], pv, q[1..], qv),
           Both(schema, parse, fd.msgType.value, Child(msg, fd.name), q[1..], qv, p[1..], pv))
    case (Some(m), Some(n)) =>
      SetOwn(schema, typ, msg, fd, Sub(m), Sub(n));
      SetOwn(schema, typ, msg, fd, Sub(n), Sub(m));
    case _ =>
  }

  lemma LastFieldsDiffer(schema: Schema, parse: Parser, typ: string,
                         p: seq<string>, pv: seq<string>, fd: FieldDesc, q: seq<string>, qv: seq<string>, gd: FieldDesc)
    requires DistinctNames(schema) && Heads(schema, parse, typ, p, pv, fd, q, qv, gd)
    requires !Independent(schema, parse, typ, p, pv, q, qv) && (fd.name != gd.name || |p| == 1 || |q| == 1)
    ensures !Commute(schema, parse, typ, EMPTY, p, pv, q, qv)
  {
    if fd.name != gd.name {
      if |p| > 1 {
        RivalsDiffer(schema, parse, typ, p, pv, fd, q, qv, gd);
      } else {
        RivalsDiffer(schema, parse, typ, q, qv, gd, p, pv, fd);
      }
    } else {
      SameHead(schema, parse, typ, p, pv, fd, q, qv, gd);
      if |q| > 1 {
        LeafAndWalkExact(schema, parse, typ, EMPTY, p, pv, q, qv, fd);
      } else if |p| > 1 {
        LeafAndWalkExact(schema, parse, typ, EMPTY, q, qv, p, pv, fd);
      } else {
        LeavesDiffer(schema, parse, typ, p, pv, q, qv, fd);
      }
    }
  }

  lemma LeavesDiffer(schema: Schema, parse: Parser, typ: string,
                     p: seq<string>, pv: seq<string>, q: seq<string>, qv: seq<string>, fd: FieldDesc)
    requires Heads(schema, parse, typ, p, pv, fd, q, qv, fd) && |p| == 1 && |q| == 1 && fd.oneof.None?
    requires !LeavesCommute(parse, fd, pv, qv)
    ensures !Commute(schema, parse, typ, EMPTY, p, pv, q, qv)
  {
    FieldIsThere(schema, typ, p[0], fd);
    LeavesInOne(schema, parse, typ, EMPTY, p, pv, q, qv, fd);
    LeavesInOne(schema, parse, typ, EMPTY, q, qv, p, pv, fd);
    LeavesExact(parse, fd, None, pv, qv);
    var pq, qp := Wrote(parse, fd, Some(Wrote(parse, fd, None, pv)), qv), Wrote(parse, fd, Some(Wrote(parse, fd, None, qv)), pv);
    SetOwn(schema, typ, EMPTY, fd, pq, qp);
    SetOwn(schema, typ, EMPTY, fd, qp, pq);
  }

  /** Two keys may change places on every message exactly when they are independent. */
  lemma CommuteExactly(schema: Schema, parse: Parser, typ: string, p: seq<string>, pv: seq<string>, q: seq<string>, qv: seq<string>)
    requires DistinctNames(schema)
    ensures Independent(schema, parse, typ, p, pv, q, qv) <==>
      forall msg :: Commute(schema, parse, typ, msg, p, pv, q, qv)
  {
    if Independent(schema, parse, typ, p, pv, q, qv) {
      forall msg ensures Commute(schema, parse, typ, msg, p, pv, q, qv) {
        IndependentCommute(schema, parse, typ, msg, p, pv, q, qv);
      }
    } else {
      var msg := DependentDiffer(schema, parse, typ, p, pv, q, qv);
    }
  }

  /** The cases that meet in a oneof, spelled out: two leaves are refused alike in both orders and
      walks through one member are as independent as what they do inside it, but a walk through
      one member and any key on another depend on the order. */
  lemma InOneOneof(schema: Schema, parse: Parser, typ: string,
                   p: seq<string>, pv: seq<string>, fd: FieldDesc, q: seq<string>, qv: seq<string>, gd: FieldDesc)
    requires DistinctNames(schema) && Heads(schema, parse, typ, p, pv, fd, q, qv, gd) && Partners(fd, gd)
    ensures |p| == 1 && |q| == 1 ==> forall msg :: Both(schema, parse, typ, msg, p, pv, q, qv) == None
    ensures |p| > 1 && |q| > 1 && fd.name == gd.name ==>
      (Independent(schema, parse, typ, p, pv, q, qv) <==> Independent(schema, parse, fd.msgType.value, p[1..], pv, q[1..], qv))
    ensures fd.name != gd.name && (|p| > 1 || |q| > 1) ==> !Commute(schema, parse, typ, EMPTY, p, pv, q, qv)
  {
    if |p| == 1 && |q| == 1 {
      forall msg ensures Both(schema, parse, typ, msg, p, pv, q, qv) == None {
        LeafIsRefused(schema, parse, typ, msg, p, pv, fd, q, qv, gd);
      }
    }
    if fd.name != gd.name {
      if |p| > 1 {
        RivalsDiffer(schema, parse, typ, p, pv, fd, q, qv, gd);
      } else if |q| > 1 {
        RivalsDiffer(schema, parse, typ, q, qv, gd, p, pv, fd);
      }
    }
  }

  // ---- Away from oneofs ----

  /** The names of the fields a path goes through, as far as they can be walked through. */
  function Track(schema: Schema, typ: string, path: seq<string>): seq<string>
    decreases |path|
  {
    if path == [] then []
    else
      match GetField(schema, typ, path[0])
      case None => []
      case Some(fd) =>
        [fd.name] + if |path| > 1 && Walkable(fd) then Track(schema, fd.msgType.value, path[1..]) else []
  }

  /** No field on the path is in a oneof. */
  predicate Plain(schema: Schema, typ: string, path: seq<string>)
    decreases |path|
  {
    path == [] ||
    match GetField(schema, typ, path[0])
    case None => true
    case Some(fd) =>
      fd.oneof.None? && (|path| > 1 && Walkable(fd) ==> Plain(schema, fd.msgType.value, path[1..]))
  }

  /** Neither track leads to or through the other. */
  predicate Incomparable(a: seq<string>, b: seq<string>) {
    !(a <= b) && !(b <= a)
  }

  /** Away from oneofs, whether a key succeeds does not depend on the message. */
  lemma {:induction false} PlainSucceeds(schema: Schema, parse: Parser, typ: string, msg: Msg, path: seq<string>,
                                         values: seq<string>)
    requires Plain(schema, typ, path)
    ensures Try(schema, parse, typ, msg, path, values).Some? <==> !Hopeless(schema, parse, typ, path, values)
    decreases |path|
  {
    if Hopeless(schema, parse, typ, path, values) {
      HopelessFails(schema, parse, typ, msg, path, values);
    } else if GetField(schema, typ, path[0]).Some? {
      var fd := GetField(schema, typ, path[0]).value;
      TryEnters(schema, parse, typ, msg, path, values, fd);
      if |path| > 1 {
        PlainSucceeds(schema, parse, fd.msgType.value, Child(msg, fd.name), path[1..], values);
      } else {
        LeafOk(parse, fd, Get(msg, fd.name), values);
      }
    }
  }

  /** Away from oneofs, keys whose resolved paths are incomparable are independent. */
  lemma {:induction false} IncomparableIsIndependent(schema: Schema, parse: Parser, typ: string,
                                                     p: seq<string>, pv: seq<string>, q: seq<string>, qv: seq<string>)
    requires DistinctNames(schema) && Plain(schema, typ, p) && Plain(schema, typ, q)
    requires Incomparable(Track(schema, typ, p), Track(schema, typ, q))
    ensures Independent(schema, parse, typ, p, pv, q, qv)
    decreases |p|
  {
    if !Hopeless(schema, parse, typ, p, pv) && !Hopeless(schema, parse, typ, q, qv) {
      var fd, gd := GetField(schema, typ, p[0]).value, GetField(schema, typ, q[0]).value;
      if fd.name == gd.name {
        SameHead(schema, parse, typ, p, pv, fd, q, qv, gd);
        SharedHead(schema, typ, p, q, fd);
        IncomparableIsIndependent(schema, parse, fd.msgType.value, p[1..], pv, q[1..], qv);
      }
    }
  }

  lemma SharedHead(schema: Schema, typ: string, p: seq<string>, q: seq<string>, fd: FieldDesc)
    requires p != [] && q != [] && GetField(schema, typ, p[0]) == Some(fd) && GetField(schema, typ, q[0]) == Some(fd)
    requires Incomparable(Track(schema, typ, p), Track(schema, typ, q))
    ensures |p| > 1 && |q| > 1 && Walkable(fd)
    ensures Incomparable(Track(schema, fd.msgType.value, p[1..]), Track(schema, fd.msgType.value, q[1..]))
  {
    TrackHead(schema, typ, p, fd);
    TrackHead(schema, typ, q, fd);
  }

  lemma TrackHead(schema: Schema, typ: string, path: seq<string>, fd: FieldDesc)
    requires path != [] && GetField(schema, typ, path[0]) == Some(fd)
    ensures
      var track := Track(schema, typ, path);
      && track != [] && track == [fd.name] + track[1..]
      && track[1..] == if |path| > 1 && Walkable(fd) then Track(schema, fd.msgType.value, path[1..]) else []
  {
  }

  /** What a path leads to in a message. */
  function At(msg: Msg, path: seq<string>): Option<Val>
    requires path != []
    decreases |path|
  {
    if |path| == 1 then Get(msg, path[0])
    else
      match Get(msg, path[0])
      case Some(Sub(m)) => At(m, path[1..])
      case _ => None
  }

  /** A key outside every oneof, whether it succeeds or fails half way, changes nothing off its own
      track. */
  lemma {:induction false} StaysOnTrack(schema: Schema, parse: Parser, typ: string, msg: Msg, path: seq<string>,
                                        values: seq<string>, at: seq<string>)
    requires Plain(schema, typ, path) && at != [] && Incomparable(Track(schema, typ, path), at)
    ensures At(Populate(schema, parse, typ, msg, path, values).msg, at) == At(msg, at)
    decreases |path|
  {
    var fd := GetField(schema, typ, path[0]).value;
    PlainSet(schema, typ, msg, fd);
    if fd.name == at[0] {
      assert Track(schema, typ, path) == [fd.name] + Track(schema, typ, path)[1..] && at == [at[0]] + at[1..];
      if |path| > 1 && Walkable(fd) {
        StaysOnTrack(schema, parse, fd.msgType.value, Child(msg, fd.name), path[1..], values, at[1..]);
        EmptyHasNothing(at[1..]);
      }
    }
  }

  lemma PlainSet(schema: Schema, typ: string, msg: Msg, fd: FieldDesc)
    requires fd.oneof.None?
    ensures forall v :: SetField(schema, typ, msg, fd, v) == Msg(msg.fields[fd.name := v])
  {
    assert msg.fields - {} == msg.fields;
  }

  lemma EmptyHasNothing(path: seq<string>)
    requires path != []
    ensures At(EMPTY, path) == None
  {
  }

  // ---- All keys ----

  /** The same with the message of a failed parse forgotten. */
  function TryKey(q: Query, msg: Msg, key: string): Option<Msg>
    requires key in q.values
  {
    var r := ApplyKey(q, msg, key);
    if r.ok then Some(r.msg) else None
  }

  /** A key, from a message or from a failure. */
  function TryOption(q: Query, msg: Option<Msg>, key: string): Option<Msg>
    requires key in q.values
  {
    match msg case Some(m) => TryKey(q, m, key) case None => None
  }

  /** The keys one after another. */
  function TryAll(q: Query, msg: Option<Msg>, order: seq<string>): Option<Msg>
    requires forall k :: k in order ==> k in q.values
    decreases |order|
  {
    if order == [] then msg
    else
      assert order[0] in order;
      TryAll(q, TryOption(q, msg, order[0]), order[1..])
  }

  lemma {:induction false} TryAllIs(q: Query, msg: Msg, order: seq<string>)
    requires forall k :: k in order ==> k in q.values
    ensures TryAll(q, None, order) == None
    ensures TryAll(q, Some(msg), order) == if ApplyAll(q, msg, order).ok then Some(ApplyAll(q, msg, order).msg) else None
    decreases |order|
  {
    if order != [] {
      assert order[0] in order;
      var r := ApplyKey(q, msg, order[0]);
      TryAllIs(q, r.msg, order[1..]);
    }
  }

  /** Any two keys that are not skipped are independent. */
  predicate WellApart(q: Query) {
    DistinctNames(q.schema) && forall k, l :: k in q.values && l in q.values && k != l ==> Apart(q, k, l)
  }

  predicate Apart(q: Query, k: string, l: string)
    requires k in q.values && l in q.values
  {
    q.filter(FieldPath(k)) || q.filter(FieldPath(l)) ||
    Independent(q.schema, q.parse, q.typ, FieldPath(k), KeyValues(k, q.values[k]), FieldPath(l), KeyValues(l, q.values[l]))
  }

  /** Two keys in a row. */
  function TryTwo(q: Query, msg: Option<Msg>, k: string, l: string): Option<Msg>
    requires k in q.values && l in q.values
  {
    TryOption(q, TryOption(q, msg, k), l)
  }

  lemma KeysCommute(q: Query, msg: Option<Msg>, k: string, l: string)
    requires DistinctNames(q.schema) && k in q.values && l in q.values && Apart(q, k, l)
    ensures TryTwo(q, msg, k, l) == TryTwo(q, msg, l, k)
  {
    if msg.Some? && !q.filter(FieldPath(k)) && !q.filter(FieldPath(l)) {
      IndependentCommute(q.schema, q.parse, q.typ, msg.value,
        FieldPath(k), KeyValues(k, q.values[k]), FieldPath(l), KeyValues(l, q.values[l]));
    }
  }

  lemma TryAllNext(q: Query, msg: Option<Msg>, order: seq<string>)
    requires order != [] && forall k :: k in order ==> k in q.values
    ensures order[0] in order && TryAll(q, msg, order) == TryAll(q, TryOption(q, msg, order[0]), order[1..])
  {
    assert order[0] in order;
  }

  /** Going first past one more key. */
  lemma {:induction false} GoesFurther(q: Query, msg: Option<Msg>, k: string, l: string, rest: seq<string>, others: seq<string>)
    requires DistinctNames(q.schema) && k in q.values && l in q.values && Apart(q, k, l)
    requires (forall o :: o in rest ==> o in q.values) && forall o :: o in others ==> o in q.values
    requires TryAll(q, TryOption(q, msg, k), rest) == TryAll(q, TryOption(q, TryOption(q, msg, k), l), others)
    ensures (forall o :: o in [k] + rest ==> o in q.values) && forall o :: o in [k] + others ==> o in q.values
    ensures TryAll(q, msg, [k] + rest) == TryAll(q, TryOption(q, msg, l), [k] + others)
  {
    assert ([k] + rest)[1..] == rest && ([k] + others)[1..] == others;
    TryAllNext(q, msg, [k] + rest);
    KeysCommute(q, msg, k, l);
    TryAllNext(q, TryOption(q, msg, l), [k] + others);
  }

  lemma Cons(q: Query, before: seq<string>, l: string, after: seq<string>)
    requires before != [] && l in q.values
    requires (forall k :: k in before ==> k in q.values) && forall k :: k in after ==> k in q.values
    ensures before[0] in q.values && forall k :: k in before[1..] ==> k in before
    ensures before + [l] + after == [before[0]] + (before[1..] + [l] + after)
    ensures before + after == [before[0]] + (before[1..] + after)
  {
    assert before[0] in before;
  }

  /** A key independent of those before it may go first. */
  lemma {:induction false} GoesFirst(q: Query, msg: Option<Msg>, before: seq<string>, l: string, after: seq<string>)
    requires DistinctNames(q.schema) && l in q.values
    requires (forall k :: k in before ==> k in q.values) && forall k :: k in after ==> k in q.values
    requires forall k :: k in before ==> Apart(q, k, l)
    ensures TryAll(q, msg, before + [l] + after) == TryAll(q, TryOption(q, msg, l), before + after)
    decreases |before|
  {
    if before == [] {
      assert before + [l] + after == [l] + after && before + after == after;
      assert ([l] + after)[1..] == after;
      TryAllNext(q, msg, [l] + after);
    } else {
      Cons(q, before, l, after);
      GoesFirst(q, TryOption(q, msg, before[0]), before[1..], l, after);
      GoesFurther(q, msg, before[0], l, before[1..] + [l] + after, before[1..] + after);
    }
  }

  /** The same by position. */
  lemma {:induction false} MovesToFront(q: Query, msg: Option<Msg>, order: seq<string>, i: nat)
    requires DistinctNames(q.schema) && i < |order| && forall k :: k in order ==> k in q.values
    requires forall j :: 0 <= j < i ==> Apart(q, order[j], order[i])
    ensures order[i] in order && forall k :: k in Without(order, i) ==> k in order
    ensures TryAll(q, msg, order) == TryAll(q, TryOption(q, msg, order[i]), Without(order, i))
  {
    var before, after := order[..i], order[i + 1..];
    assert order == before + [order[i]] + after;
    assert order[i] in order;
    forall k | k in before ensures Apart(q, k, order[i]) {
      var j :| 0 <= j < i && order[j] == k;
    }
    GoesFirst(q, msg, before, order[i], after);
  }

  lemma {:induction false} TryInAnyOrder(q: Query, msg: Option<Msg>, a: seq<string>, b: seq<string>, s: set<string>)
    requires WellApart(q) && s <= q.values.Keys && Enumerates(a, s) && Enumerates(b, s)
    ensures TryAll(q, msg, a) == TryAll(q, msg, b)
    decreases |a|
  {
    assert |b| > 0 ==> b[0] in b;
    if a != [] {
      assert a[0] in a;
      var i :| 0 <= i < |b| && b[i] == a[0];
      MovesToFront(q, msg, b, i);
      TryAllNext(q, msg, a);
      EnumerateLess(a, s, 0);
      EnumerateLess(b, s, i);
      assert Without(a, 0) == a[1..];
      TryInAnyOrder(q, TryOption(q, msg, a[0]), a[1..], Without(b, i), s - {a[0]});
    }
  }

  /** Over pairwise independent keys, whatever the message starts with, the iteration order shows
      neither in whether the parse succeeds nor, when it does, in the message. */
  lemma {:induction false} OrderDoesNotShow(q: Query, msg: Msg, a: seq<string>, b: seq<string>)
    requires WellApart(q) && Enumerates(a, q.values.Keys) && Enumerates(b, q.values.Keys)
    ensures ApplyAll(q, msg, a).ok == ApplyAll(q, msg, b).ok
    ensures ApplyAll(q, msg, a).ok ==> ApplyAll(q, msg, a).msg == ApplyAll(q, msg, b).msg
  {
    TryAllIs(q, msg, a);
    TryAllIs(q, msg, b);
    TryInAnyOrder(q, Some(msg), a, b, q.values.Keys);
  }

  /** Two keys that are not independent do show their order, on some message. */
  lemma {:induction false} TwoKeysShow(q: Query, k: string, l: string) returns (msg: Msg)
    requires DistinctNames(q.schema) && k in q.values && l in q.values && !Apart(q, k, l)
    ensures TryTwo(q, Some(msg), k, l) != TryTwo(q, Some(msg), l, k)
  {
    msg := DependentDiffer(q.schema, q.parse, q.typ,
      FieldPath(k), KeyValues(k, q.values[k]), FieldPath(l), KeyValues(l, q.values[l]));
  }

  /** A message type with a message field and a scalar field in one oneof. */
  const ONEOF_SCHEMA: Schema := map[
    "R" := [FieldDesc("a", "a", Singular, Some("A"), Some("o")), FieldDesc("b", "b", Singular, None, Some("o"))],
    "A" := [FieldDesc("x", "x", Singular, None, None)]]

  /** Every text stands for itself. */
  const TEXT_PARSER: Parser := (fd, role, text) => Some(Scalar(text))

  /** For instance `a.x` and then `b` is refused, and `b` and then `a.x` is not. */
  lemma OneofOrderShows() returns (q: Query)
    ensures q.values == map["a.x" := ["1"], "b" := ["2"]] && DistinctNames(q.schema)
    ensures TryTwo(q, Some(EMPTY), "a.x", "b") == None && TryTwo(q, Some(EMPTY), "b", "a.x").Some?
  {
    var parse := TEXT_PARSER;
    q := Query(ONEOF_SCHEMA, parse, path => false, "R", map["a.x" := ["1"], "b" := ["2"]]);
    PathsOfKeys();
    OneofFields();
    assert KeyValues("a.x", ["1"]) == ["1"] && KeyValues("b", ["2"]) == ["2"];
    var a, b := GetField(ONEOF_SCHEMA, "R", "a").value, GetField(ONEOF_SCHEMA, "R", "b").value;
    LeafIsRefused(ONEOF_SCHEMA, parse, "R", EMPTY, ["a", "x"], ["1"], a, ["b"], ["2"], b);
    RivalWins(ONEOF_SCHEMA, parse, "R", ["b"], ["2"], b, ["a", "x"], ["1"], a);
  }

  lemma {:induction false} PathsOfKeys()
    ensures FieldPath("a.x") == ["a", "x"] && FieldPath("b") == ["b"]
    ensures SplitKey("a.x") == None && SplitKey("b") == None
  {
    assert ["a", "x"][1..] == ["x"];
    assert Join(["x"], ".") == "x";
    assert Join(["a", "x"], ".") == "a" + "." + "x" == "a.x";
    SplitOfJoin(["a", "x"], '.');
    SplitFree("b", '.');
  }

  lemma OneofFields()
    ensures DistinctNames(ONEOF_SCHEMA)
    ensures GetField(ONEOF_SCHEMA, "R", "a").Some? && GetField(ONEOF_SCHEMA, "R", "b").Some?
    ensures
      var a, b := GetField(ONEOF_SCHEMA, "R", "a").value, GetField(ONEOF_SCHEMA, "R", "b").value;
      Partners(a, b) && Partners(b, a) && a.name != b.name &&
      Heads(ONEOF_SCHEMA, TEXT_PARSER, "R", ["a", "x"], ["1"], a, ["b"], ["2"], b) &&
      Heads(ONEOF_SCHEMA, TEXT_PARSER, "R", ["b"], ["2"], b, ["a", "x"], ["1"], a)
  {
    var fields := ONEOF_SCHEMA["R"];
    assert fields[1..][0].name == "b";
    assert ["a", "x"][1..] == ["x"];
    assert ONEOF_SCHEMA["A"][0].name == "x";
  }
}
