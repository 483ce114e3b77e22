/** OpenAPI definition names: the shortest unique suffix of each fully qualified message name. */
module Naming {
  import opened Text

  type Path = seq<string>

  function Hierarchy(name: string): (h: Path)
    ensures |h| >= 1
  {
    Split(name, '.')
  }

  /** The last d components. */
  function Suffix(h: Path, d: nat): (s: Path)
    requires d <= |h|
    ensures |s| == d
  {
    h[|h| - d..]
  }

  /** `packagesByDepth[d]`: the suffixes of d components of the names that have more than d. */
  function PackagesAt(messages: seq<string>, d: nat): seq<Path> {
    if messages == [] then []
    else
      PackagesAt(messages[..|messages| - 1], d) + ProperSuffix(Hierarchy(messages[|messages| - 1]), d)
  }

  /** The suffix of d components, if that is not the whole name. */
  function ProperSuffix(h: Path, d: nat): seq<Path> {
    if d < |h| then [Suffix(h, d)] else []
  }

  /** The search stops at this depth: something is taken and it occurs once. */
  predicate Stops(messages: seq<string>, h: Path, extra: nat, d: nat)
    requires d < |h|
  {
    d + extra > 0 && Count(PackagesAt(messages, d), Suffix(h, d)) == 1
  }

  /** The first depth from d on whose suffix occurs once, or the full length. */
  function DepthFrom(messages: seq<string>, h: Path, extra: nat, d: nat): (r: nat)
    requires d <= |h|
    ensures d <= r <= |h|
    decreases |h| - d
  {
    if d == |h| then d
    else if Stops(messages, h, extra, d) then d
    else DepthFrom(messages, h, extra, d + 1)
  }

  function Depth(messages: seq<string>, name: string, extra: nat): (d: nat)
    ensures d <= |Hierarchy(name)|
  {
    DepthFrom(messages, Hierarchy(name), extra, 0)
  }

  /** The components chosen for a name, with the extra context. */
  function Slice(messages: seq<string>, name: string, extra: nat): Path {
    var h, n := Hierarchy(name), Depth(messages, name, extra) + extra;
    Suffix(h, if n <= |h| then n else |h|)
  }

  function NameFor(messages: seq<string>, name: string, extra: nat, separator: string): string {
    Join(Slice(messages, name, extra), separator)
  }

  // ---- The loops ----

  function At(packages: map<int, seq<Path>>, d: int): seq<Path> {
    if d in packages then packages[d] else []
  }

  method CountOf(list: seq<Path>, item: Path) returns (n: nat)
    ensures n == Count(list, item)
  {
    n := 0;
    var i := 0;
    assert list[0..] == list;
    while i < |list|
      invariant 0 <= i <= |list|
      invariant n + Count(list[i..], item) == Count(list, item)
    {
      assert list[i..][0] == list[i] && list[i..][1..] == list[i + 1..];
      if list[i] == item {
        n := n + 1;
      }
      i := i + 1;
    }
  }

  /** One name filed under each of its depths. */
  method FileName(packages: map<int, seq<Path>>, h: Path) returns (filed: map<int, seq<Path>>)
    ensures forall d: nat :: At(filed, d) == At(packages, d) + ProperSuffix(h, d)
  {
    filed := packages;
    var depth := 0;
    while depth < |h|
      invariant 0 <= depth <= |h|
      invariant forall d: nat :: At(filed, d) == At(packages, d) + if d < depth then ProperSuffix(h, d) else []
    {
      if depth !in filed {
        filed := filed[depth := []];
      }
      filed := filed[depth := filed[depth] + [h[|h| - depth..]]];
      depth := depth + 1;
    }
  }

  /** The first pass: every proper suffix of every name, filed under its length. */
  method FileSuffixes(messages: seq<string>) returns (packages: map<int, seq<Path>>)
    ensures forall d: nat :: At(packages, d) == PackagesAt(messages, d)
  {
    packages := map[];
    var i := 0;
    while i < |messages|
      invariant 0 <= i <= |messages|
      invariant forall d: nat :: At(packages, d) == PackagesAt(messages[..i], d)
    {
      packages := FileName(packages, Hierarchy(messages[i]));
      assert messages[..i + 1][..i] == messages[..i];
      i := i + 1;
    }
    assert messages[..i] == messages;
  }

  /** The search for the depth of one name. */
  method ChooseDepth(messages: seq<string>, packages: map<int, seq<Path>>, h: Path, extra: nat) returns (depth: nat)
    requires forall d: nat :: At(packages, d) == PackagesAt(messages, d)
    ensures depth == DepthFrom(messages, h, extra, 0)
  {
    depth := 0;
    while depth < |h|
      invariant 0 <= depth <= |h|
      invariant DepthFrom(messages, h, extra, 0) == DepthFrom(messages, h, extra, depth)
    {
      var c := CountOf(At(packages, depth), Suffix(h, depth));
      assert Stops(messages, h, extra, depth) <==> depth + extra > 0 && c == 1;
      if depth + extra > 0 && c == 1 {
        break;
      }
      depth := depth + 1;
    }
  }

  /** The name assembled from the chosen depth and the extra context. */
  method Assemble(messages: seq<string>, packages: map<int, seq<Path>>, p: string, extra: nat, separator: string)
    returns (name: string)
    requires forall d: nat :: At(packages, d) == PackagesAt(messages, d)
    ensures name == NameFor(messages, p, extra, separator)
  {
    var h := Hierarchy(p);
    var depth := ChooseDepth(messages, packages, h, extra);
    var start := |h| - depth - extra;
    if start < 0 {
      start := 0;
    }
    return Join(h[start..], separator);
  }

  /** The names of the first n messages, and no others. */
  predicate Named(messages: seq<string>, n: nat, names: map<string, string>, extra: nat, separator: string) {
    && n <= |messages|
    && (forall k :: 0 <= k < n ==> messages[k] in names)
    && (forall p :: p in names ==> p in messages && names[p] == NameFor(messages, p, extra, separator))
  }

  lemma {:induction false} NameNext(messages: seq<string>, n: nat, names: map<string, string>, extra: nat, separator: string)
    requires n < |messages| && Named(messages, n, names, extra, separator)
    ensures Named(messages, n + 1, names[messages[n] := NameFor(messages, messages[n], extra, separator)], extra, separator)
  {
  }

  /** `resolveNamesUniqueWithContext`. */
  method ResolveUnique(messages: seq<string>, extra: nat, separator: string) returns (names: map<string, string>)
    ensures Named(messages, |messages|, names, extra, separator)
  {
    names := map[];
    var packages := FileSuffixes(messages);
    for i := 0 to |messages|
      invariant Named(messages, i, names, extra, separator)
    {
      var p := messages[i];
      var name := Assemble(messages, packages, p, extra, separator);
      NameNext(messages, i, names, extra, separator);
      names := names[p := name];
    }
  }

  // ---- Uniqueness, said without counting ----

  /** Leading dot, then at least one component, none of them empty. */
  predicate ProperName(name: string) {
    var h := Hierarchy(name);
    |h| >= 2 && h[0] == "" && forall i :: 1 <= i < |h| ==> h[i] != ""
  }

  predicate ProperNames(messages: seq<string>) {
    && (forall i :: 0 <= i < |messages| ==> ProperName(messages[i]))
    && forall i, j :: 0 <= i < j < |messages| ==> messages[i] != messages[j]
  }

  /** The name q ends in these components, and has more. */
  predicate EndsIn(q: string, s: Path) {
    |s| < |Hierarchy(q)| && Suffix(Hierarchy(q), |s|) == s
  }

  /** No other name ends in the same d components. */
  predicate Unique(messages: seq<string>, p: string, d: nat)
    requires d <= |Hierarchy(p)|
  {
    forall q :: q in messages && q != p ==> !EndsIn(q, Suffix(Hierarchy(p), d))
  }

  lemma CountOne(last: string, d: nat, s: Path)
    requires |s| == d
    ensures Count(ProperSuffix(Hierarchy(last), d), s) == if EndsIn(last, s) then 1 else 0
  {
    if EndsIn(last, s) {
      assert ProperSuffix(Hierarchy(last), d) == [s] && [s][1..] == [];
    } else {
      CountZero(ProperSuffix(Hierarchy(last), d), s);
    }
  }

  lemma {:induction false} NoneEndsIn(messages: seq<string>, d: nat, s: Path)
    requires |s| == d
    ensures Count(PackagesAt(messages, d), s) == 0 <==> forall q :: q in messages ==> !EndsIn(q, s)
  {
    if messages != [] {
      var init, last := messages[..|messages| - 1], messages[|messages| - 1];
      NoneEndsIn(init, d, s);
      assert forall q :: q in messages <==> q in init || q == last;
      CountAppend(PackagesAt(init, d), ProperSuffix(Hierarchy(last), d), s);
      CountOne(last, d, s);
    }
  }

  lemma {:induction false} OnceIsUnique(messages: seq<string>, p: string, d: nat)
    requires forall i, j :: 0 <= i < j < |messages| ==> messages[i] != messages[j]
    requires p in messages && d < |Hierarchy(p)|
    ensures Count(PackagesAt(messages, d), Suffix(Hierarchy(p), d)) == 1 <==> Unique(messages, p, d)
    ensures Count(PackagesAt(messages, d), Suffix(Hierarchy(p), d)) >= 1
  {
    var init, last := messages[..|messages| - 1], messages[|messages| - 1];
    var s := Suffix(Hierarchy(p), d);
    assert forall q :: q in messages <==> q in init || q == last;
    CountAppend(PackagesAt(init, d), ProperSuffix(Hierarchy(last), d), s);
    CountOne(last, d, s);
    NoneEndsIn(init, d, s);
    assert EndsIn(p, s);
    if p == last {
      assert p !in init;
    } else {
      OnceIsUnique(init, p, d);
    }
  }

  lemma StopsWhenUnique(messages: seq<string>, p: string, extra: nat, d: nat)
    requires ProperNames(messages) && p in messages && d < |Hierarchy(p)|
    ensures Stops(messages, Hierarchy(p), extra, d) <==> d + extra > 0 && Unique(messages, p, d)
  {
    OnceIsUnique(messages, p, d);
  }

  /** The search ends at the first depth where it can stop. */
  lemma {:induction false} FirstStop(messages: seq<string>, h: Path, extra: nat, d: nat)
    requires d <= |h|
    ensures DepthFrom(messages, h, extra, d) < |h| ==> Stops(messages, h, extra, DepthFrom(messages, h, extra, d))
    ensures forall k :: d <= k < DepthFrom(messages, h, extra, d) ==> !Stops(messages, h, extra, k)
    decreases |h| - d
  {
    if d < |h| && !Stops(messages, h, extra, d) {
      FirstStop(messages, h, extra, d + 1);
    }
  }

  /** The chosen depth is the least non-trivial one whose suffix is unique, or the whole name when
      there is none. */
  lemma DepthIsLeast(messages: seq<string>, p: string, extra: nat)
    requires ProperNames(messages) && p in messages
    ensures Depth(messages, p, extra) < |Hierarchy(p)| ==>
      Depth(messages, p, extra) + extra > 0 && Unique(messages, p, Depth(messages, p, extra))
    ensures forall k :: 0 <= k < Depth(messages, p, extra) && k + extra > 0 ==> !Unique(messages, p, k)
  {
    var h, r := Hierarchy(p), Depth(messages, p, extra);
    FirstStop(messages, h, extra, 0);
    if r < |h| {
      StopsWhenUnique(messages, p, extra, r);
    }
    forall k | 0 <= k < r && k + extra > 0 ensures !Unique(messages, p, k) {
      assert !Stops(messages, h, extra, k);
      StopsWhenUnique(messages, p, extra, k);
    }
  }

  // ---- The chosen slices are pairwise different ----

  lemma SuffixOfSuffix(h: Path, a: nat, b: nat)
    requires b <= a <= |h|
    ensures Suffix(Suffix(h, a), b) == Suffix(h, b)
  {
  }

  /** A slice holds at least the chosen depth, at least one component, and starts with the empty
      component exactly when it is the whole name. */
  lemma {:induction false} SliceShape(messages: seq<string>, p: string, extra: nat)
    requires ProperNames(messages) && p in messages
    ensures
      var h, d, s := Hierarchy(p), Depth(messages, p, extra), Slice(messages, p, extra);
      && d <= |s| && Suffix(s, d) == Suffix(h, d)
      && 1 <= |s| <= |h| && s == Suffix(h, |s|)
      && (|s| < |h| ==> |s| == d + extra)
      && (s[0] == "" <==> |s| == |h|)
  {
    DepthIsLeast(messages, p, extra);
    var h, s := Hierarchy(p), Slice(messages, p, extra);
    SuffixOfSuffix(h, |s|, Depth(messages, p, extra));
    assert ProperName(p);
  }

  /** Names that share their last n components share every shorter ending. */
  lemma SharedEnding(p: string, q: string, n: nat, d: nat)
    requires d <= n <= |Hierarchy(p)|
    ensures n <= |Hierarchy(q)| && d < |Hierarchy(q)| && Suffix(Hierarchy(p), n) == Suffix(Hierarchy(q), n) ==>
      EndsIn(q, Suffix(Hierarchy(p), d))
  {
    if n <= |Hierarchy(q)| {
      SuffixOfSuffix(Hierarchy(p), n, d);
      SuffixOfSuffix(Hierarchy(q), n, d);
    }
  }

  /** No other name ends in the components chosen for a name, unless all of them were. */
  lemma ChosenIsAlone(messages: seq<string>, p: string, q: string, extra: nat)
    requires ProperNames(messages) && p in messages && q in messages && p != q
    ensures Depth(messages, p, extra) < |Hierarchy(p)| ==>
      !EndsIn(q, Suffix(Hierarchy(p), Depth(messages, p, extra)))
  {
    DepthIsLeast(messages, p, extra);
  }

  lemma SameHierarchy(p: string, q: string)
    ensures Hierarchy(p) == Hierarchy(q) ==> p == q
  {
    JoinOfSplit(p, '.');
    JoinOfSplit(q, '.');
  }

  lemma SlicesDiffer(messages: seq<string>, p: string, q: string, extra: nat)
    requires ProperNames(messages) && p in messages && q in messages && p != q
    ensures Slice(messages, p, extra) != Slice(messages, q, extra)
  {
    SliceShape(messages, p, extra);
    SliceShape(messages, q, extra);
    SameHierarchy(p, q);
    SharedEnding(p, q, |Slice(messages, p, extra)|, Depth(messages, p, extra));
    ChosenIsAlone(messages, p, q, extra);
  }

  // ---- Joined names ----

  lemma SliceDotFree(messages: seq<string>, p: string, extra: nat)
    ensures forall c :: c in Slice(messages, p, extra) ==> '.' !in c
  {
    SplitPartsFree(p, '.');
    var s := Slice(messages, p, extra);
    assert forall c :: c in s ==> c in Hierarchy(p);
  }

  /** `resolveNamesSimple`: different messages get different names. */
  lemma SimpleNamesDiffer(messages: seq<string>, p: string, q: string)
    requires ProperNames(messages) && p in messages && q in messages && p != q
    ensures NameFor(messages, p, 0, ".") != NameFor(messages, q, 0, ".")
  {
    SlicesDiffer(messages, p, q, 0);
    SliceShape(messages, p, 0);
    SliceShape(messages, q, 0);
    SliceDotFree(messages, p, 0);
    SliceDotFree(messages, q, 0);
    SplitOfJoin(Slice(messages, p, 0), '.');
    SplitOfJoin(Slice(messages, q, 0), '.');
  }

  // ---- The simple name as text ----

  /** The name ends in a dot and this text. */
  predicate EndsInText(q: string, text: string) {
    HasSuffix(q, "." + text)
  }

  /** For proper names, ending in a dot and a text is ending in its components and having more. */
  lemma {:induction false} EndingIsText(q: string, text: string)
    ensures EndsInText(q, text) <==> EndsIn(q, Hierarchy(text))
  {
    var h, s := Hierarchy(q), Hierarchy(text);
    JoinOfSplit(q, '.');
    JoinOfSplit(text, '.');
    if EndsInText(q, text) {
      var front := q[..|q| - |text| - 1];
      assert q == front + ['.'] + text;
      SplitConcat(front, '.', text);
      assert h == Hierarchy(front) + s;
    }
    if EndsIn(q, s) {
      var front := h[..|h| - |s|];
      assert h == front + s;
      JoinConcat(front, ".", s);
      SuffixOfAppend(Join(front, "."), "." + text);
      Assoc(Join(front, "."), ".", text);
    }
  }

  /** Fewer components make a shorter text. */
  lemma {:induction false} ShorterText(h: Path, a: nat, b: nat)
    requires 1 <= a <= b <= |h|
    ensures |Join(Suffix(h, a), ".")| <= |Join(Suffix(h, b), ".")|
  {
    if a < b {
      var front := Suffix(h, b)[..b - a];
      assert Suffix(h, b) == front + Suffix(h, a);
      JoinConcat(front, ".", Suffix(h, a));
    }
  }

  /** The components of a simple name: those the search chose. */
  lemma {:induction false} SimpleShape(messages: seq<string>, p: string)
    requires ProperNames(messages) && p in messages
    ensures
      var n, d := NameFor(messages, p, 0, "."), Depth(messages, p, 0);
      && 1 <= d <= |Hierarchy(p)| && Hierarchy(n) == Suffix(Hierarchy(p), d) && n == Join(Suffix(Hierarchy(p), d), ".")
      && (d == |Hierarchy(p)| <==> n == p)
  {
    var h, s := Hierarchy(p), Slice(messages, p, 0);
    SliceShape(messages, p, 0);
    SliceDotFree(messages, p, 0);
    SplitOfJoin(s, '.');
    JoinOfSplit(p, '.');
    WholeSuffix(h, |s|);
  }

  lemma WholeSuffix(h: Path, d: nat)
    requires d <= |h|
    ensures Suffix(h, d) == h <==> d == |h|
  {
  }

  /** The simple strategy gives each message the shortest ending of its name, cut at a dot, that no
      other name has; a name that has none is given whole. */
  lemma {:induction false} SimpleNameIsShortest(messages: seq<string>, p: string)
    requires ProperNames(messages) && p in messages
    ensures
      var n := NameFor(messages, p, 0, ".");
      && (n == p || (EndsInText(p, n) && forall q :: q in messages && q != p ==> !EndsInText(q, n)))
      && forall text :: |text| < |n| && EndsInText(p, text) ==>
        exists q :: q in messages && q != p && EndsInText(q, text)
  {
    var n, h, d := NameFor(messages, p, 0, "."), Hierarchy(p), Depth(messages, p, 0);
    SimpleShape(messages, p);
    DepthIsLeast(messages, p, 0);
    if n != p {
      EndingIsText(p, n);
      forall q | q in messages && q != p ensures !EndsInText(q, n) {
        EndingIsText(q, n);
      }
    }
    forall text | |text| < |n| && EndsInText(p, text)
      ensures exists q :: q in messages && q != p && EndsInText(q, text)
    {
      ShorterIsShared(messages, p, text);
    }
  }

  lemma {:induction false} ShorterIsShared(messages: seq<string>, p: string, text: string)
    requires ProperNames(messages) && p in messages
    requires |text| < |NameFor(messages, p, 0, ".")| && EndsInText(p, text)
    ensures exists q :: q in messages && q != p && EndsInText(q, text)
  {
    var h, s := Hierarchy(p), Hierarchy(text);
    EndingIsText(p, text);
    JoinOfSplit(text, '.');
    SimpleShape(messages, p);
    DepthIsLeast(messages, p, 0);
    if |s| >= Depth(messages, p, 0) {
      ShorterText(h, Depth(messages, p, 0), |s|);
    }
    var q := SharedWith(messages, p, |s|);
    EndingIsText(q, text);
  }

  lemma SharedWith(messages: seq<string>, p: string, d: nat) returns (q: string)
    requires d <= |Hierarchy(p)| && !Unique(messages, p, d)
    ensures q in messages && q != p && EndsIn(q, Suffix(Hierarchy(p), d))
  {
    q :| q in messages && q != p && EndsIn(q, Suffix(Hierarchy(p), d));
  }

  // ---- The legacy strategy joins without a separator ----

  /** Words that can be components of a name. */
  predicate Vocabulary(words: set<string>) {
    forall w :: w in words ==> w != "" && '.' !in w
  }

  predicate SpelledIn(s: Path, words: set<string>) {
    forall c :: c in s ==> c in words
  }

  /** No text can be read as words of the vocabulary in two ways. */
  ghost predicate Decipherable(words: set<string>) {
    forall s: Path, t: Path :: SpelledIn(s, words) && SpelledIn(t, words) && Flatten(s) == Flatten(t) ==> s == t
  }

  /** Proper names whose components are words of the vocabulary. */
  predicate NamesIn(messages: seq<string>, words: set<string>) {
    ProperNames(messages) && forall p :: p in messages ==> SpelledIn(Hierarchy(p)[1..], words)
  }

  lemma {:induction false} JoinIsFlatten(s: Path)
    ensures Join(s, "") == Flatten(s)
  {
    if |s| == 1 {
      assert s[1..] == [];
    } else if |s| > 1 {
      JoinIsFlatten(s[1..]);
    }
  }

  lemma FlattenNonempty(s: Path)
    requires forall c :: c in s ==> c != ""
    ensures s != [] ==> Flatten(s) != ""
  {
    if s != [] {
      assert s[0] in s;
    }
  }

  /** No word is a proper prefix of another. */
  predicate PrefixFree(words: set<string>) {
    forall v, w :: v in words && w in words && v <= w ==> v == w
  }

  lemma {:induction false} ReadOneWay(words: set<string>, s: Path, t: Path)
    requires Vocabulary(words) && PrefixFree(words) && SpelledIn(s, words) && SpelledIn(t, words)
    requires Flatten(s) == Flatten(t)
    ensures s == t
  {
    FlattenNonempty(s);
    FlattenNonempty(t);
    if s != [] && t != [] {
      var c, d := s[0], t[0];
      assert c in words && d in words;
      assert Flatten(s)[..|c|] == c && Flatten(t)[..|d|] == d;
      var k := if |c| <= |d| then |c| else |d|;
      assert c[..k] == Flatten(s)[..k] == d[..k];
      assert c == d;
      assert Flatten(s)[|c|..] == Flatten(s[1..]) && Flatten(t)[|d|..] == Flatten(t[1..]);
      assert SpelledIn(s[1..], words) && SpelledIn(t[1..], words);
      ReadOneWay(words, s[1..], t[1..]);
    }
  }

  /** A vocabulary without proper prefixes is decipherable. */
  lemma PrefixFreeIsEnough(words: set<string>)
    requires Vocabulary(words) && PrefixFree(words)
    ensures Decipherable(words)
  {
    forall s: Path, t: Path | SpelledIn(s, words) && SpelledIn(t, words) && Flatten(s) == Flatten(t) ensures s == t {
      ReadOneWay(words, s, t);
    }
  }

  /** A slice without the empty component a whole name starts with. */
  function Body(s: Path): Path
    requires |s| >= 1
  {
    if s[0] == "" then s[1..] else s
  }

  lemma BodyOfSlice(messages: seq<string>, p: string, extra: nat)
    requires ProperNames(messages) && p in messages
    ensures
      var s := Slice(messages, p, extra);
      |s| >= 1 && Flatten(s) == Flatten(Body(s)) && forall c :: c in Body(s) ==> c != "" && c in Hierarchy(p)
  {
    SliceShape(messages, p, extra);
    assert ProperName(p);
    BodyOfSuffix(Hierarchy(p), |Slice(messages, p, extra)|);
  }

  lemma BodyOfSuffix(h: Path, n: nat)
    requires 1 <= n <= |h| && h[0] == "" && forall i :: 1 <= i < |h| ==> h[i] != ""
    ensures Flatten(Suffix(h, n)) == Flatten(Body(Suffix(h, n)))
    ensures forall c :: c in Body(Suffix(h, n)) ==> c != "" && c in h
  {
    var s := Suffix(h, n);
    if n == |h| {
      assert s == h;
      assert Flatten(s) == "" + Flatten(s[1..]);
    }
    forall i | 0 <= i < |Body(s)| ensures Body(s)[i] != "" && Body(s)[i] in h {
      assert Body(s)[i] == h[|h| - |Body(s)| + i];
    }
  }

  /** One slice is a whole name and the other the same components without the leading one: then
      the other was not unique. */
  lemma WholeAgainstPart(messages: seq<string>, p: string, q: string)
    requires ProperNames(messages) && p in messages && q in messages && p != q
    requires |Slice(messages, p, 1)| == |Hierarchy(p)| && |Slice(messages, q, 1)| < |Hierarchy(q)|
    ensures Slice(messages, p, 1)[1..] != Slice(messages, q, 1)
  {
    var hp, hq := Hierarchy(p), Hierarchy(q);
    var sq, dq := Slice(messages, q, 1), Depth(messages, q, 1);
    SliceShape(messages, p, 1);
    SliceShape(messages, q, 1);
    DepthIsLeast(messages, q, 1);
    if hp[1..] == sq {
      SuffixOfSuffix(hp, |hp| - 1, dq);
    }
  }

  lemma BodySpelled(messages: seq<string>, words: set<string>, p: string)
    requires NamesIn(messages, words) && p in messages
    ensures |Slice(messages, p, 1)| >= 1 && SpelledIn(Body(Slice(messages, p, 1)), words)
  {
    BodyOfSlice(messages, p, 1);
    var h := Hierarchy(p);
    assert ProperName(p);
    forall c | c in Body(Slice(messages, p, 1)) ensures c in words {
      var i :| 0 <= i < |h| && h[i] == c;
      assert h[1..][i - 1] == c;
    }
  }

  /** `resolveNamesLegacy` on a decipherable vocabulary: different messages get different names. */
  lemma LegacyNamesDiffer(messages: seq<string>, words: set<string>, p: string, q: string)
    requires NamesIn(messages, words) && Decipherable(words)
    requires p in messages && q in messages && p != q
    ensures NameFor(messages, p, 1, "") != NameFor(messages, q, 1, "")
  {
    var sp, sq := Slice(messages, p, 1), Slice(messages, q, 1);
    JoinIsFlatten(sp);
    JoinIsFlatten(sq);
    BodyOfSlice(messages, p, 1);
    BodyOfSlice(messages, q, 1);
    BodySpelled(messages, words, p);
    BodySpelled(messages, words, q);
    if Flatten(sp) == Flatten(sq) {
      assert Body(sp) == Body(sq);
      SlicesDiffer(messages, p, q, 1);
      SliceShape(messages, p, 1);
      SliceShape(messages, q, 1);
      if sp[0] == "" && sq[0] != "" {
        WholeAgainstPart(messages, p, q);
      } else if sp[0] != "" && sq[0] == "" {
        WholeAgainstPart(messages, q, p);
      }
    }
  }

  /** The name with these components. */
  function Spell(s: Path): string {
    Join([""] + s, ".")
  }

  lemma SpellReads(words: set<string>, s: Path)
    requires Vocabulary(words) && SpelledIn(s, words) && s != []
    ensures Hierarchy(Spell(s)) == [""] + s && ProperName(Spell(s))
  {
    var h := [""] + s;
    assert forall i :: 1 <= i < |h| ==> h[i] == s[i - 1] && s[i - 1] in words;
    SplitOfJoin(h, '.');
  }

  /** Another name that ends in everything but the first component ends in every shorter part too. */
  lemma EndsInParts(words: set<string>, s: Path, q: string)
    requires Vocabulary(words) && SpelledIn(s, words) && s != []
    requires if |s| > 1 then q == Spell(s[1..]) else true
    ensures forall d: nat :: d < |s| ==> EndsIn(q, Suffix([""] + s, d))
  {
    var h := [""] + s;
    if |s| > 1 {
      SpellReads(words, s[1..]);
    }
    forall d: nat | d < |s| ensures EndsIn(q, Suffix(h, d)) {
      assert Suffix(Hierarchy(q), d) == Suffix(h, d);
    }
  }

  /** When the name without its first component is a message too, the whole name is taken. */
  lemma WholeName(messages: seq<string>, words: set<string>, s: Path, q: string)
    requires Vocabulary(words) && SpelledIn(s, words) && s != []
    requires ProperNames(messages) && Spell(s) in messages
    requires q in messages && q != Spell(s) && (|s| > 1 ==> q == Spell(s[1..]))
    ensures Slice(messages, Spell(s), 1) == [""] + s
  {
    var p, h := Spell(s), [""] + s;
    SpellReads(words, s);
    EndsInParts(words, s, q);
    DepthIsLeast(messages, p, 1);
  }

  /** A text read in two ways gives messages that share a legacy name. */
  lemma {:induction false} TwoReadingsMeet(words: set<string>, s: Path, t: Path) returns (messages: seq<string>)
    requires Vocabulary(words) && SpelledIn(s, words) && SpelledIn(t, words)
    requires s != t && Flatten(s) == Flatten(t)
    ensures s != [] && t != [] && NamesIn(messages, words)
    ensures Spell(s) in messages && Spell(t) in messages && Spell(s) != Spell(t)
    ensures NameFor(messages, Spell(s), 1, "") == NameFor(messages, Spell(t), 1, "")
  {
    FlattenNonempty(s);
    FlattenNonempty(t);
    messages := WithShorter(words, s, t);
    WholeName(messages, words, s, if |s| > 1 then Spell(s[1..]) else Spell(t));
    WholeName(messages, words, t, if |t| > 1 then Spell(t[1..]) else Spell(s));
    JoinIsFlatten([""] + s);
    JoinIsFlatten([""] + t);
    assert ([""] + s)[1..] == s && ([""] + t)[1..] == t;
  }

  lemma SameTail(s: Path, t: Path)
    requires s != [] && t != [] && Flatten(s) == Flatten(t)
    ensures s[1..] == t[1..] ==> s == t
  {
    if s[1..] == t[1..] {
      assert |s[0]| == |t[0]|;
      assert Flatten(s)[..|s[0]|] == s[0] && Flatten(t)[..|t[0]|] == t[0];
      assert s == [s[0]] + s[1..] && t == [t[0]] + t[1..];
    }
  }

  /** The two names, each with the name that lacks its first component. */
  lemma {:induction false} WithShorter(words: set<string>, s: Path, t: Path) returns (messages: seq<string>)
    requires Vocabulary(words) && SpelledIn(s, words) && SpelledIn(t, words) && s != [] && t != []
    requires s != t && Flatten(s) == Flatten(t)
    ensures NamesIn(messages, words)
    ensures Spell(s) in messages && Spell(t) in messages && Spell(s) != Spell(t)
    ensures |s| > 1 ==> Spell(s[1..]) in messages && Spell(s[1..]) != Spell(s)
    ensures |t| > 1 ==> Spell(t[1..]) in messages && Spell(t[1..]) != Spell(t)
  {
    assert s[0] in words && t[0] in words;
    var paths := [s, t] + (if |s| > 1 then [s[1..]] else []) + (if |t| > 1 then [t[1..]] else []);
    assert |Flatten(s[1..])| < |Flatten(s)| && |Flatten(t[1..])| < |Flatten(t)|;
    SameTail(s, t);
    messages := SpellAll(words, paths);
    assert paths[0] == s && paths[1] == t;
    if |s| > 1 {
      assert paths[2] == s[1..];
    }
    if |t| > 1 {
      assert paths[|paths| - 1] == t[1..];
    }
  }

  lemma SpellAll(words: set<string>, paths: seq<Path>) returns (messages: seq<string>)
    requires Vocabulary(words) && forall i :: 0 <= i < |paths| ==> paths[i] != [] && SpelledIn(paths[i], words)
    requires forall i, j :: 0 <= i < j < |paths| ==> paths[i] != paths[j]
    ensures |messages| == |paths| && forall i :: 0 <= i < |paths| ==> messages[i] == Spell(paths[i])
    ensures NamesIn(messages, words)
    ensures forall i, j :: 0 <= i < j < |paths| ==> messages[i] != messages[j]
  {
    messages := seq(|paths|, i requires 0 <= i < |paths| => Spell(paths[i]));
    forall i | 0 <= i < |paths|
      ensures Hierarchy(messages[i]) == [""] + paths[i] && ProperName(messages[i])
      ensures Hierarchy(messages[i])[1..] == paths[i]
    {
      SpellReads(words, paths[i]);
    }
  }

  /** Legacy names of different messages, all spelled in this vocabulary, are different. */
  ghost predicate LegacyNamesUnique(words: set<string>) {
    forall messages, p, q :: NamesIn(messages, words) && p in messages && q in messages && p != q ==>
      NameFor(messages, p, 1, "") != NameFor(messages, q, 1, "")
  }

  /** `resolveNamesLegacy` keeps its promise of unique names exactly for the vocabularies that can
      be read in one way only. */
  lemma LegacyNamesExact(words: set<string>)
    requires Vocabulary(words)
    ensures LegacyNamesUnique(words) <==> Decipherable(words)
  {
    if Decipherable(words) {
      forall messages, p, q | NamesIn(messages, words) && p in messages && q in messages && p != q
        ensures NameFor(messages, p, 1, "") != NameFor(messages, q, 1, "")
      {
        LegacyNamesDiffer(messages, words, p, q);
      }
    }
    if LegacyNamesUnique(words) {
      forall s: Path, t: Path | SpelledIn(s, words) && SpelledIn(t, words) && Flatten(s) == Flatten(t) ensures s == t {
        if s != t {
          var messages := TwoReadingsMeet(words, s, t);
          assert false;
        }
      }
    }
  }

  /** In particular `.ab.c` and `.a.bc` share a legacy name. */
  lemma LegacyNamesCanMeet() returns (messages: seq<string>, p: string, q: string)
    ensures ProperNames(messages) && p in messages && q in messages && p != q
    ensures NameFor(messages, p, 1, "") == NameFor(messages, q, 1, "")
  {
    p := "." + "ab" + "." + "c";
    q := "." + "a" + "." + "bc";
    messages := [p, q];
    var hp, hq := ["", "ab", "c"], ["", "a", "bc"];
    HierarchyOf(hp, p, "ab", "c");
    HierarchyOf(hq, q, "a", "bc");
    assert ProperName(p) && ProperName(q) && p[2] != q[2];
    ShortSlices(messages, p, q, hp, hq);
    ShortSlices(messages, q, p, hq, hp);
    JoinOfTwo("ab", "c");
    JoinOfTwo("a", "bc");
    assert hp[1..] == ["ab", "c"] && hq[1..] == ["a", "bc"];
    assert "ab" + "c" == "a" + "bc";
  }

  lemma JoinOfTwo(a: string, b: string)
    ensures Join([a, b], "") == a + b
  {
    assert [a, b][1..] == [b];
    assert Join([b], "") == b;
    assert a + "" + b == a + b;
  }

  /** Two names of two components that differ in the last one. */
  lemma ShortSlices(messages: seq<string>, p: string, q: string, hp: Path, hq: Path)
    requires ProperNames(messages) && p in messages && q in messages && p != q
    requires forall m :: m in messages ==> m == p || m == q
    requires Hierarchy(p) == hp && Hierarchy(q) == hq && |hp| == 3 && |hq| == 3 && hp[2] != hq[2]
    ensures Slice(messages, p, 1) == hp[1..]
  {
    DepthIsLeast(messages, p, 1);
    assert EndsIn(q, Suffix(hp, 0));
    assert Suffix(hp, 1)[0] == hp[2] && Suffix(hq, 1)[0] == hq[2];
    assert Unique(messages, p, 1);
  }

  lemma HierarchyOf(h: Path, name: string, a: string, b: string)
    requires h == ["", a, b] && name == "." + a + "." + b && '.' !in a && '.' !in b
    ensures Hierarchy(name) == h
  {
    assert h[1..] == [a, b] && [a, b][1..] == [b];
    assert Join([b], ".") == b;
    assert Join([a, b], ".") == a + "." + b;
    assert Join(h, ".") == "" + "." + Join([a, b], ".");
    assert "" + "." + (a + "." + b) == name;
    SplitOfJoin(h, '.');
  }
}
