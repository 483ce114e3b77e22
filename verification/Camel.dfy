/** CamelCasing of protocol buffer names into Go identifiers. */
module Camel {
  import opened Text

  const UNDERSCORE: byte := 95
  const X: byte := 88

  predicate IsLower(c: byte) {
    97 <= c <= 122
  }

  predicate IsDigit(c: byte) {
    48 <= c <= 57
  }

  /** `c ^= ' '` on a lower-case letter clears its sixth bit, which is set. */
  function Capital(c: byte): byte {
    if IsLower(c) then c - 32 else c
  }

  /** A word and what follows it: an underscore before a lower-case letter goes, a digit is a word
      of its own, anything else starts a word with a capital. */
  function Words(s: Str): Str
    decreases |s|, 0
  {
    if s == [] then []
    else if s[0] == UNDERSCORE && |s| > 1 && IsLower(s[1]) then Words(s[1..])
    else if IsDigit(s[0]) then [s[0]] + Words(s[1..])
    else [Capital(s[0])] + Rest(s[1..])
  }

  /** The lower-case letters that continue a word, then more words. */
  function Rest(s: Str): Str
    decreases |s|, 1
  {
    if s != [] && IsLower(s[0]) then [s[0]] + Rest(s[1..]) else Words(s)
  }

  function CamelSpec(s: Str): Str {
    if s == [] then []
    else if s[0] == UNDERSCORE then [X] + Words(s[1..])
    else Words(s)
  }

  /** The definitions at an index of the text. */
  lemma WordsAt(s: Str, i: nat)
    requires i < |s|
    ensures Words(s[i..]) ==
      if s[i] == UNDERSCORE && i + 1 < |s| && IsLower(s[i + 1]) then Words(s[i + 1..])
      else if IsDigit(s[i]) then [s[i]] + Words(s[i + 1..])
      else [Capital(s[i])] + Rest(s[i + 1..])
    ensures Rest(s[i..]) == if IsLower(s[i]) then [s[i]] + Rest(s[i + 1..]) else Words(s[i..])
  {
    assert s[i..][1..] == s[i + 1..];
  }

  /** The inner loop: the rest of the word that starts at i. */
  method CopyLower(s: Str, i: nat, t: Str) returns (i': nat, t': Str)
    requires i < |s|
    ensures i <= i' < |s| && t' + Words(s[i' + 1..]) == t + Rest(s[i + 1..])
  {
    i', t' := i, t;
    while i' + 1 < |s| && IsLower(s[i' + 1])
      invariant i <= i' < |s|
      invariant t' + Rest(s[i' + 1..]) == t + Rest(s[i + 1..])
    {
      i' := i' + 1;
      WordsAt(s, i');
      Assoc(t', [s[i']], Rest(s[i' + 1..]));
      t' := t' + [s[i']];
    }
    if i' + 1 < |s| {
      WordsAt(s, i' + 1);
    }
  }

  /** One round of the outer loop. */
  method CopyWord(s: Str, i: nat, t: Str) returns (i': nat, t': Str)
    requires i < |s|
    ensures i < i' <= |s| && t' + Words(s[i'..]) == t + Words(s[i..])
  {
    WordsAt(s, i);
    var c := s[i];
    if c == UNDERSCORE && i + 1 < |s| && IsLower(s[i + 1]) {
      return i + 1, t;
    }
    if IsDigit(c) {
      Assoc(t, [c], Words(s[i + 1..]));
      return i + 1, t + [c];
    }
    if IsLower(c) {
      c := c - 32;
    }
    assert Words(s[i..]) == [c] + Rest(s[i + 1..]);
    Assoc(t, [c], Rest(s[i + 1..]));
    i', t' := CopyLower(s, i, t + [c]);
    i' := i' + 1;
  }

  /** `Camel`: nested loops over one index, a word at a time. */
  method Camel(s: Str) returns (t: Str)
    ensures t == CamelSpec(s)
  {
    if s == [] {
      return [];
    }
    t := [];
    var i := 0;
    if s[0] == UNDERSCORE {
      t := t + [X];
      i := i + 1;
    }
    assert s[0..] == s;
    while i < |s|
      invariant 0 <= i <= |s|
      invariant t + Words(s[i..]) == CamelSpec(s)
    {
      i, t := CopyWord(s, i, t);
    }
    assert s[i..] == [];
  }

  // ---- The output, position by position ----

  /** The upper-case letter in the place of a lower-case one. */
  function UpperOf(c: byte): byte
    requires IsLower(c)
  {
    UPPER_LETTERS[c as int - 'a' as int] as int as byte
  }

  /** What becomes of the byte at position i: a leading underscore becomes an X, any other before a
      lower-case letter goes, and a lower-case letter at the start or after an underscore or a
      digit becomes upper-case. */
  function CasedAt(s: Str, i: nat): Str
    requires i < |s|
  {
    if s[i] == UNDERSCORE && i == 0 then Bytes("X")
    else if s[i] == UNDERSCORE && i + 1 < |s| && IsLower(s[i + 1]) then []
    else if IsLower(s[i]) && (i == 0 || s[i - 1] == UNDERSCORE || IsDigit(s[i - 1])) then [UpperOf(s[i])]
    else [s[i]]
  }

  function CasedFrom(s: Str, i: nat): Str
    requires i <= |s|
    decreases |s| - i
  {
    if i == |s| then [] else CasedAt(s, i) + CasedFrom(s, i + 1)
  }

  /** Which bytes are letters, digits and the underscore. */
  lemma SignsMean(c: byte)
    ensures IsLower(c) <==> exists n: nat :: n < 26 && LOWER_LETTERS[n] == c as int as char
    ensures IsDigit(c) <==> c as int as char in "0123456789"
    ensures c == UNDERSCORE <==> c as int as char == '_'
  {
    if IsLower(c) {
      LetterAt(c as int - 97);
      assert LOWER_LETTERS[c as int - 97] == c as int as char;
    }
    if n: nat :| n < 26 && LOWER_LETTERS[n] == c as int as char {
      LetterAt(n);
    }
  }

  lemma CapitalIsUpper(c: byte)
    ensures IsLower(c) ==> Capital(c) == UpperOf(c) && LOWER_LETTERS[c as int - 'a' as int] as int == c as int
  {
    if IsLower(c) {
      LetterAt(c as int - 97);
    }
  }

  /** The byte that starts a word. */
  lemma StartsWord(s: Str, i: nat)
    requires i < |s| && (i == 0 ==> s[0] != UNDERSCORE)
    requires i > 0 && IsLower(s[i]) ==> s[i - 1] == UNDERSCORE || IsDigit(s[i - 1])
    ensures CasedAt(s, i) == if s[i] == UNDERSCORE && i + 1 < |s| && IsLower(s[i + 1]) then [] else [Capital(s[i])]
  {
    CapitalIsUpper(s[i]);
  }

  lemma CasedNext(s: Str, i: nat, here: Str)
    requires i < |s| && CasedAt(s, i) == here
    ensures CasedFrom(s, i) == here + CasedFrom(s, i + 1)
    ensures here == [] ==> CasedFrom(s, i) == CasedFrom(s, i + 1)
  {
  }

  lemma {:induction false} WordsByPosition(s: Str, i: nat)
    requires i <= |s| && (i == 0 && s != [] ==> s[0] != UNDERSCORE)
    requires 0 < i < |s| && IsLower(s[i]) ==> s[i - 1] == UNDERSCORE || IsDigit(s[i - 1])
    ensures Words(s[i..]) == CasedFrom(s, i)
    decreases |s| - i, 0
  {
    if i < |s| {
      WordsAt(s, i);
      StartsWord(s, i);
      CasedNext(s, i, CasedAt(s, i));
      if s[i] == UNDERSCORE && i + 1 < |s| && IsLower(s[i + 1]) {
        WordsByPosition(s, i + 1);
      } else if IsDigit(s[i]) {
        WordsByPosition(s, i + 1);
      } else {
        RestByPosition(s, i + 1);
      }
    }
  }

  lemma {:induction false} RestByPosition(s: Str, i: nat)
    requires 0 < i <= |s|
    requires i < |s| && IsLower(s[i]) ==> s[i - 1] != UNDERSCORE && !IsDigit(s[i - 1])
    ensures Rest(s[i..]) == CasedFrom(s, i)
    decreases |s| - i, 1
  {
    if i < |s| {
      WordsAt(s, i);
      if IsLower(s[i]) {
        RestByPosition(s, i + 1);
      } else {
        WordsByPosition(s, i);
      }
    }
  }

  /** The output is what each position of the name becomes, in order. */
  lemma {:induction false} CamelByPosition(s: Str)
    ensures CamelSpec(s) == CasedFrom(s, 0)
  {
    assert s[0..] == s;
    if s != [] && s[0] == UNDERSCORE {
      assert Bytes("X") == [X];
      WordsByPosition(s, 1);
    } else {
      WordsByPosition(s, 0);
    }
  }

  // ---- The fixed points ----

  /** No lower-case letter follows an underscore or a digit. */
  predicate Smooth(s: Str) {
    forall i :: 0 < i < |s| && IsLower(s[i]) ==> s[i - 1] != UNDERSCORE && !IsDigit(s[i - 1])
  }

  /** Smooth, and starting neither with an underscore nor with a lower-case letter. */
  predicate Cased(s: Str) {
    Smooth(s) && (s != [] ==> s[0] != UNDERSCORE && !IsLower(s[0]))
  }

  lemma SmoothCons(c: byte, s: Str)
    ensures Smooth([c] + s) <==>
      Smooth(s) && (s != [] && IsLower(s[0]) ==> c != UNDERSCORE && !IsDigit(c))
  {
    var t := [c] + s;
    assert forall i :: 0 <= i < |s| ==> t[i + 1] == s[i];
    if Smooth(t) {
      forall i | 0 < i < |s| && IsLower(s[i]) ensures s[i - 1] != UNDERSCORE && !IsDigit(s[i - 1]) {
        assert IsLower(t[i + 1]) && t[i + 1 - 1] == s[i - 1];
      }
      if s != [] && IsLower(s[0]) {
        assert IsLower(t[1]) && t[1 - 1] == c;
      }
    }
  }

  lemma {:induction false} WordsAreSmooth(s: Str)
    ensures Smooth(Words(s)) && (Words(s) != [] ==> !IsLower(Words(s)[0]))
    decreases |s|, 0
  {
    if s == [] {
    } else if s[0] == UNDERSCORE && |s| > 1 && IsLower(s[1]) {
      WordsAreSmooth(s[1..]);
    } else if IsDigit(s[0]) {
      WordsAreSmooth(s[1..]);
      SmoothCons(s[0], Words(s[1..]));
    } else {
      RestIsSmooth(s[1..]);
      SmoothCons(Capital(s[0]), Rest(s[1..]));
    }
  }

  lemma {:induction false} RestIsSmooth(s: Str)
    ensures Smooth(Rest(s)) && (Rest(s) != [] && IsLower(Rest(s)[0]) ==> s != [] && IsLower(s[0]))
    decreases |s|, 1
  {
    if s != [] && IsLower(s[0]) {
      RestIsSmooth(s[1..]);
      SmoothCons(s[0], Rest(s[1..]));
    } else {
      WordsAreSmooth(s);
    }
  }

  lemma {:induction false} SmoothIsKept(s: Str)
    requires Smooth(s)
    ensures Rest(s) == s
    ensures s == [] || !IsLower(s[0]) ==> Words(s) == s
  {
    if s != [] {
      assert [s[0]] + s[1..] == s;
      SmoothCons(s[0], s[1..]);
      SmoothIsKept(s[1..]);
      assert |s| > 1 ==> s[1..][0] == s[1];
    }
  }

  lemma OutputIsCased(s: Str)
    ensures Cased(CamelSpec(s))
  {
    if s != [] && s[0] == UNDERSCORE {
      WordsAreSmooth(s[1..]);
      SmoothCons(X, Words(s[1..]));
    } else {
      WordsAreSmooth(s);
    }
  }

  /** The names `Camel` leaves unchanged are exactly the cased ones, and exactly its outputs. */
  lemma FixedPoints(s: Str)
    ensures CamelSpec(s) == s <==> Cased(s)
    ensures Cased(s) <==> exists t :: CamelSpec(t) == s
  {
    OutputIsCased(s);
    if Cased(s) {
      SmoothIsKept(s);
    }
    forall t | CamelSpec(t) == s ensures Cased(s) {
      OutputIsCased(t);
    }
  }

  /** Idempotence, on all byte strings. */
  lemma Idempotent(s: Str)
    ensures CamelSpec(CamelSpec(s)) == CamelSpec(s)
  {
    FixedPoints(CamelSpec(s));
  }

  // ---- What is kept ----

  /** The bytes without regard to case. */
  function Fold(s: Str): Str {
    if s == [] then [] else [Capital(s[0])] + Fold(s[1..])
  }

  /** The text without the underscores that stand before a lower-case letter. */
  function Stripped(s: Str): Str {
    if s == [] then []
    else (if s[0] == UNDERSCORE && |s| > 1 && IsLower(s[1]) then [] else [s[0]]) + Stripped(s[1..])
  }

  lemma FoldCons(c: byte, s: Str)
    ensures Fold([c] + s) == [Capital(c)] + Fold(s)
  {
    assert ([c] + s)[1..] == s;
  }

  lemma {:induction false} WordsKeep(s: Str)
    ensures Fold(Words(s)) == Fold(Stripped(s))
    decreases |s|, 0
  {
    if s == [] {
    } else if s[0] == UNDERSCORE && |s| > 1 && IsLower(s[1]) {
      WordsKeep(s[1..]);
      assert [] + Stripped(s[1..]) == Stripped(s[1..]);
    } else {
      FoldCons(s[0], Stripped(s[1..]));
      if IsDigit(s[0]) {
        WordsKeep(s[1..]);
        FoldCons(s[0], Words(s[1..]));
      } else {
        RestKeeps(s[1..]);
        FoldCons(Capital(s[0]), Rest(s[1..]));
      }
    }
  }

  lemma {:induction false} RestKeeps(s: Str)
    ensures Fold(Rest(s)) == Fold(Stripped(s))
    decreases |s|, 1
  {
    if s != [] && IsLower(s[0]) {
      RestKeeps(s[1..]);
      FoldCons(s[0], Rest(s[1..]));
      FoldCons(s[0], Stripped(s[1..]));
    } else {
      WordsKeep(s);
    }
  }

  /** Up to case, the output is the input without the underscores before lower-case letters; a
      leading underscore has become an X. */
  lemma {:induction false} OnlyUnderscoresGo(s: Str)
    ensures Fold(CamelSpec(s)) ==
      if s != [] && s[0] == UNDERSCORE then [X] + Fold(Stripped(s[1..])) else Fold(Stripped(s))
  {
    if s != [] && s[0] == UNDERSCORE {
      WordsKeep(s[1..]);
      FoldCons(X, Words(s[1..]));
    } else {
      WordsKeep(s);
    }
  }
}
