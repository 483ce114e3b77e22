/** Byte strings, and the two library calls every other module leans on:
    `strings.Join` and `strings.Split` with a one-element separator. */
module Text {

  newtype byte = b: int | 0 <= b < 256

  type Str = seq<byte>

  datatype Option<+T> = None | Some(value: T)

  /** ASCII text as bytes. */
  function Bytes(s: string): (r: Str)
    ensures |r| == |s|
  {
    seq(|s|, k requires 0 <= k < |s| => (s[k] as int % 256) as byte)
  }

  const LOWER_LETTERS := "abcdefghijklmnopqrstuvwxyz"
  const UPPER_LETTERS := "ABCDEFGHIJKLMNOPQRSTUVWXYZ"

  lemma LetterAt(n: nat)
    requires n < 26
    ensures LOWER_LETTERS[n] as int == 97 + n && UPPER_LETTERS[n] as int == 65 + n
  {
  }

  function Join<T>(parts: seq<seq<T>>, sep: seq<T>): seq<T>
  {
    if |parts| == 0 then []
    else if |parts| == 1 then parts[0]
    else parts[0] + sep + Join(parts[1..], sep)
  }

  function Split<T(==)>(s: seq<T>, c: T): (parts: seq<seq<T>>)
    ensures |parts| >= 1
  {
    if s == [] then [[]]
    else
      var rest := Split(s[1..], c);
      if s[0] == c then [[]] + rest else [[s[0]] + rest[0]] + rest[1..]
  }

  function Flatten<T>(parts: seq<seq<T>>): seq<T>
  {
    if parts == [] then [] else parts[0] + Flatten(parts[1..])
  }

  function Count<T(==)>(s: seq<T>, c: T): nat
  {
    if s == [] then 0 else (if s[0] == c then 1 else 0) + Count(s[1..], c)
  }

  predicate HasSuffix<T(==)>(s: seq<T>, t: seq<T>)
  {
    |t| <= |s| && s[|s| - |t|..] == t
  }

  lemma Assoc<T>(a: seq<T>, b: seq<T>, c: seq<T>)
    ensures a + (b + c) == a + b + c
  {
  }

  lemma {:induction false} FlattenAppend<T>(a: seq<seq<T>>, b: seq<seq<T>>)
    ensures Flatten(a + b) == Flatten(a) + Flatten(b)
  {
    if a == [] {
      assert a + b == b;
    } else {
      assert (a + b)[1..] == a[1..] + b;
      FlattenAppend(a[1..], b);
    }
  }

  lemma {:induction false} CountAppend<T>(a: seq<T>, b: seq<T>, c: T)
    ensures Count(a + b, c) == Count(a, c) + Count(b, c)
  {
    if a == [] {
      assert a + b == b;
    } else {
      assert (a + b)[1..] == a[1..] + b;
      CountAppend(a[1..], b, c);
    }
  }

  lemma {:induction false} CountZero<T>(s: seq<T>, c: T)
    ensures Count(s, c) == 0 <==> c !in s
  {
    if s != [] {
      CountZero(s[1..], c);
      assert s == [s[0]] + s[1..];
    }
  }

  /** Splitting loses nothing: joining the parts again gives the text back. */
  lemma {:induction false} JoinOfSplit<T>(s: seq<T>, c: T)
    ensures Join(Split(s, c), [c]) == s
  {
    if s != [] {
      JoinOfSplit(s[1..], c);
      var rest := Split(s[1..], c);
      if s[0] == c {
        assert ([[]] + rest)[1..] == rest;
      } else {
        var first := [s[0]] + rest[0];
        var parts := [first] + rest[1..];
        if |rest| > 1 {
          assert parts[1..] == rest[1..];
          assert Join(parts, [c]) == first + [c] + Join(rest[1..], [c]);
          assert Join(rest, [c]) == rest[0] + [c] + Join(rest[1..], [c]);
        }
        assert Join(parts, [c]) == [s[0]] + Join(rest, [c]);
      }
    }
  }

  /** No part produced by splitting contains the separator. */
  lemma {:induction false} SplitPartsFree<T>(s: seq<T>, c: T)
    ensures forall p :: p in Split(s, c) ==> c !in p
  {
    if s != [] {
      SplitPartsFree(s[1..], c);
      assert Split(s[1..], c)[0] in Split(s[1..], c);
    }
  }

  lemma {:induction false} SplitFree<T>(s: seq<T>, c: T)
    requires c !in s
    ensures Split(s, c) == [s]
  {
    if s != [] {
      SplitFree(s[1..], c);
      assert [s[0]] + s[1..] == s;
    }
  }

  lemma {:induction false} SplitAppend<T>(a: seq<T>, c: T, t: seq<T>)
    requires c !in a
    ensures Split(a + [c] + t, c) == [a] + Split(t, c)
  {
    var s := a + [c] + t;
    if a == [] {
      assert s[1..] == t;
    } else {
      assert s[1..] == a[1..] + [c] + t;
      SplitAppend(a[1..], c, t);
      assert [s[0]] + a[1..] == a;
    }
  }

  /** Splitting inverts joining when there is a part and no part holds the separator. */
  lemma {:induction false} SplitOfJoin<T>(parts: seq<seq<T>>, c: T)
    requires |parts| >= 1
    requires forall p :: p in parts ==> c !in p
    ensures Split(Join(parts, [c]), c) == parts
  {
    assert parts[0] in parts;
    if |parts| == 1 {
      SplitFree(parts[0], c);
    } else {
      SplitOfJoin(parts[1..], c);
      SplitAppend(parts[0], c, Join(parts[1..], [c]));
    }
  }

  lemma {:induction false} SuffixOfAppend<T>(x: seq<T>, t: seq<T>)
    ensures HasSuffix(x + t, t)
    ensures (x + t)[..|x|] == x
  {
    assert (x + t)[|x|..] == t;
  }

  lemma SuffixIndexed<T>(s: seq<T>, t: seq<T>)
    requires |t| <= |s|
    ensures HasSuffix(s, t) <==> forall i :: 0 <= i < |t| ==> s[|s| - |t| + i] == t[i]
  {
    var d := s[|s| - |t|..];
    assert forall i :: 0 <= i < |t| ==> d[i] == s[|s| - |t| + i];
  }

  /** Splitting at one separator more. */
  lemma {:induction false} SplitConcat<T>(a: seq<T>, c: T, t: seq<T>)
    ensures Split(a + [c] + t, c) == Split(a, c) + Split(t, c)
  {
    var s := a + [c] + t;
    if a == [] {
      assert s[1..] == t;
    } else {
      assert s[1..] == a[1..] + [c] + t;
      SplitConcat(a[1..], c, t);
      FirstAndRest(Split(a[1..], c), Split(t, c));
    }
  }

  lemma FirstAndRest<T>(a: seq<T>, b: seq<T>)
    requires a != []
    ensures (a + b)[0] == a[0] && (a + b)[1..] == a[1..] + b
  {
  }

  lemma {:induction false} JoinConcat<T>(a: seq<seq<T>>, sep: seq<T>, b: seq<seq<T>>)
    requires a != [] && b != []
    ensures Join(a + b, sep) == Join(a, sep) + sep + Join(b, sep)
  {
    assert (a + b)[1..] == a[1..] + b;
    if |a| > 1 {
      JoinConcat(a[1..], sep, b);
      Assoc(a[0] + sep, Join(a[1..], sep) + sep, Join(b, sep));
      Assoc(a[0] + sep, Join(a[1..], sep), sep);
    } else {
      assert a[1..] + b == b;
    }
  }
}
