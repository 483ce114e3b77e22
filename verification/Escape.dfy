/** Percent-decoding of path parameters (section 2.1 of RFC 3986), as the gateway does it:
    one loop that validates, then one that decodes, both over byte positions. */
module Escape {
  import opened Text

  const PERCENT: byte := 37
  const SLASH: byte := 47

  datatype Mode = Legacy | AllExceptReserved | AllExceptSlash | AllCharacters

  /** The result of `unescape`: the decoded text, or the malformed escape it stopped at. */
  datatype Decoded = Text(text: Str) | Malformed(escape: Str)

  predicate IsHex(c: byte) {
    48 <= c <= 57 || 97 <= c <= 102 || 65 <= c <= 70
  }

  function Unhex(c: byte): byte {
    if 48 <= c <= 57 then c - 48
    else if 97 <= c <= 102 then c - 97 + 10
    else if 65 <= c <= 70 then c - 65 + 10
    else 0
  }

  /** `unhex(h)<<4 | unhex(l)`: the shift leaves the low four bits clear, so `|` adds. */
  function HexByte(h: byte, l: byte): byte {
    Unhex(h) * 16 + Unhex(l)
  }

  /** The reserved characters of section 1.5 of RFC 6570. */
  predicate IsReserved(c: byte) {
    c == 33 || c == 35 || c == 36 || 38 <= c <= 44 || c == 47 || c == 58 || c == 59 ||
    c == 61 || c == 63 || c == 64 || c == 91 || c == 93
  }

  predicate ShouldUnescape(c: byte, mode: Mode) {
    match mode
    case AllExceptReserved => !IsReserved(c)
    case AllExceptSlash => c != SLASH
    case _ => true
  }

  // ---- The one-pass reference decoder ----

  predicate WellFormed(s: Str) {
    if s == [] then true
    else if s[0] == PERCENT then EscapeAt(s, 0) && WellFormed(s[3..])
    else WellFormed(s[1..])
  }

  predicate EscapeAt(s: Str, i: nat) {
    i + 2 < |s| && IsHex(s[i + 1]) && IsHex(s[i + 2])
  }

  function Decode(s: Str, mode: Mode): Str
    requires WellFormed(s)
  {
    if s == [] then []
    else if s[0] == PERCENT then Opening(s[..3], mode) + Decode(s[3..], mode)
    else [s[0]] + Decode(s[1..], mode)
  }

  /** What becomes of one well-formed escape: its byte, or itself. */
  function Opening(escape: Str, mode: Mode): Str
    requires |escape| == 3
  {
    var c := HexByte(escape[1], escape[2]);
    if ShouldUnescape(c, mode) then [c] else escape
  }

  /** Position i carries a `%` that two hex digits do not follow. */
  predicate BadAt(s: Str, i: nat) {
    i < |s| && s[i] == PERCENT && !EscapeAt(s, i)
  }

  /** The mode the decoder really uses: single segments are decoded in full. */
  function Effective(mode: Mode, multisegment: bool): Mode {
    if multisegment then mode else AllCharacters
  }

  /** Being well formed is a property of every `%` separately, whatever the step width. */
  lemma {:induction false} WellFormedMeans(s: Str)
    ensures WellFormed(s) <==> forall i: nat :: !BadAt(s, i)
  {
    if s != [] {
      if s[0] == PERCENT {
        if EscapeAt(s, 0) {
          WellFormedMeans(s[3..]);
          assert forall i: nat :: BadAt(s[3..], i) ==> BadAt(s, i + 3);
          assert forall i: nat :: BadAt(s, i) ==> i >= 3 && BadAt(s[3..], i - 3);
        } else {
          assert BadAt(s, 0);
        }
      } else {
        WellFormedMeans(s[1..]);
        assert forall i: nat :: BadAt(s[1..], i) ==> BadAt(s, i + 1);
        assert forall i: nat :: BadAt(s, i) ==> i >= 1 && BadAt(s[1..], i - 1);
      }
    }
  }

  lemma {:induction false} DecodeNoPercent(s: Str, mode: Mode)
    requires PERCENT !in s
    ensures WellFormed(s) && Decode(s, mode) == s
  {
    if s != [] {
      DecodeNoPercent(s[1..], mode);
    }
  }

  /** A kept escape may be copied a byte at a time: its digits are never `%`. */
  lemma DecodeAfterKeptPercent(s: Str, mode: Mode)
    requires s != [] && s[0] == PERCENT && WellFormed(s)
    ensures WellFormed(s[1..])
    ensures Decode(s[1..], mode) == s[1..3] + Decode(s[3..], mode)
  {
    var t := s[1..];
    assert t[1..] == s[2..] && t[1..][1..] == s[3..];
    assert WellFormed(t[1..]);
    assert WellFormed(t);
    assert Decode(t[1..], mode) == [s[2]] + Decode(s[3..], mode);
    assert Decode(t, mode) == [s[1]] + Decode(t[1..], mode);
    assert s[1..3] == [s[1]] + [s[2]];
  }

  /** How many bytes of s precede its first bad `%` (|s| when there is none). */
  function FirstBad(s: Str): nat {
    if s == [] then 0
    else if s[0] == PERCENT && !EscapeAt(s, 0) then 0
    else if s[0] == PERCENT then 3 + FirstBad(s[3..])
    else 1 + FirstBad(s[1..])
  }

  lemma {:induction false} FirstBadMeans(s: Str)
    ensures FirstBad(s) <= |s|
    ensures forall k: nat :: k < FirstBad(s) ==> !BadAt(s, k)
    ensures if WellFormed(s) then FirstBad(s) == |s| else BadAt(s, FirstBad(s))
  {
    if s == [] || BadAt(s, 0) {
    } else if s[0] == PERCENT {
      FirstBadMeans(s[3..]);
      forall k: nat | k < FirstBad(s) ensures !BadAt(s, k) {
        if k >= 3 {
          assert !BadAt(s[3..], k - 3);
        }
      }
    } else {
      FirstBadMeans(s[1..]);
      forall k: nat | k < FirstBad(s) ensures !BadAt(s, k) {
        if k >= 1 {
          assert !BadAt(s[1..], k - 1);
        }
      }
    }
  }

  /** `unescape` as a function of its arguments, for use in specifications. */
  function UnescapeSpec(s: Str, mode: Mode, multisegment: bool): Decoded {
    if mode == Legacy then Text(s)
    else if WellFormed(s) then Text(Decode(s, Effective(mode, multisegment)))
    else
      var rest := (FirstBadMeans(s); s[FirstBad(s)..]);
      Malformed(if |rest| > 3 then rest[..3] else rest)
  }

  /** What the validating pass sees at position i. */
  lemma ValidateAt(s: Str, i: nat)
    requires i < |s|
    ensures BadAt(s, i) ==> !WellFormed(s[i..]) && FirstBad(s[i..]) == 0
    ensures s[i] == PERCENT && EscapeAt(s, i) ==>
      (WellFormed(s[i..]) <==> WellFormed(s[i + 3..])) && FirstBad(s[i..]) == 3 + FirstBad(s[i + 3..])
    ensures s[i] != PERCENT ==>
      (WellFormed(s[i..]) <==> WellFormed(s[i + 1..])) && FirstBad(s[i..]) == 1 + FirstBad(s[i + 1..])
  {
    var rest := s[i..];
    assert rest[1..] == s[i + 1..];
    assert EscapeAt(rest, 0) <==> EscapeAt(s, i);
    if EscapeAt(s, i) {
      assert rest[3..] == s[i + 3..];
    }
  }

  /** What the decoding pass sees at position i; a kept escape is left one byte at a time. */
  lemma DecodeAt(s: Str, i: nat, mode: Mode)
    requires i < |s| && WellFormed(s[i..])
    ensures s[i] != PERCENT ==>
      WellFormed(s[i + 1..]) && Decode(s[i..], mode) == [s[i]] + Decode(s[i + 1..], mode)
    ensures s[i] == PERCENT ==> EscapeAt(s, i)
    ensures s[i] == PERCENT && ShouldUnescape(HexByte(s[i + 1], s[i + 2]), mode) ==>
      WellFormed(s[i + 3..]) && Decode(s[i..], mode) == [HexByte(s[i + 1], s[i + 2])] + Decode(s[i + 3..], mode)
    ensures s[i] == PERCENT && !ShouldUnescape(HexByte(s[i + 1], s[i + 2]), mode) ==>
      WellFormed(s[i + 1..]) && Decode(s[i..], mode) == [s[i]] + Decode(s[i + 1..], mode)
  {
    var rest := s[i..];
    assert rest[1..] == s[i + 1..];
    if s[i] == PERCENT {
      assert rest[3..] == s[i + 3..];
      DecodeAfterKeptPercent(rest, mode);
      assert rest[..3] == [rest[0]] + rest[1..3];
      assert Opening(rest[..3], mode) + Decode(rest[3..], mode) == Decode(rest, mode);
    }
  }

  /** The validating pass: it counts escapes and stops at the first malformed one. */
  method Validate(s: Str) returns (n: nat, i: nat)
    ensures i == FirstBad(s) && (WellFormed(s) <==> i == |s|)
    ensures WellFormed(s) && n == 0 ==> PERCENT !in s
  {
    n, i := 0, 0;
    assert s[0..] == s;
    FirstBadMeans(s);
    while i < |s|
      invariant 0 <= i <= |s|
      invariant WellFormed(s[i..]) <==> WellFormed(s)
      invariant FirstBad(s) == FirstBad(s[i..]) + i
      invariant n == 0 ==> forall k :: 0 <= k < i ==> s[k] != PERCENT
    {
      ValidateAt(s, i);
      if s[i] == PERCENT {
        n := n + 1;
        if i + 2 >= |s| || !IsHex(s[i + 1]) || !IsHex(s[i + 2]) {
          return;
        }
        i := i + 3;
      } else {
        i := i + 1;
      }
    }
  }

  /** The decoding pass; it steps 1 over the `%` of a kept escape, where validation stepped 3. */
  method DecodeLoop(s: Str, m: Mode) returns (t: Str)
    requires WellFormed(s)
    ensures t == Decode(s, m)
  {
    t := [];
    var i := 0;
    assert s[0..] == s;
    while i < |s|
      invariant 0 <= i <= |s|
      invariant WellFormed(s[i..])
      invariant t + Decode(s[i..], m) == Decode(s, m)
    {
      DecodeAt(s, i, m);
      if s[i] == PERCENT {
        var c := HexByte(s[i + 1], s[i + 2]);
        if ShouldUnescape(c, m) {
          Assoc(t, [c], Decode(s[i + 3..], m));
          t := t + [c];
          i := i + 3;
          continue;
        }
      }
      Assoc(t, [s[i]], Decode(s[i + 1..], m));
      t := t + [s[i]];
      i := i + 1;
    }
  }

  /** `unescape`: the validating pass and the decoding pass together compute exactly what the
      one-pass decoder computes, and no index leaves the text. */
  method Unescape(s: Str, mode: Mode, multisegment: bool) returns (r: Decoded)
    ensures r == UnescapeSpec(s, mode, multisegment)
  {
    if mode == Legacy {
      return Text(s);
    }
    var m := mode;
    if !multisegment {
      m := AllCharacters;
    }
    var n, i := Validate(s);
    if i < |s| {
      var rest := s[i..];
      if |rest| > 3 {
        rest := rest[..3];
      }
      return Malformed(rest);
    }
    FirstBadMeans(s);
    if n == 0 {
      DecodeNoPercent(s, m);
      return Text(s);
    }
    var t := DecodeLoop(s, m);
    return Text(t);
  }

  /** Outside legacy mode it fails exactly when some `%` lacks two hex digits, reporting the
      leftmost one; so the failure does not depend on how the loops step. */
  lemma FailsExactlyOnBadEscape(s: Str, mode: Mode, multisegment: bool)
    ensures UnescapeSpec(s, mode, multisegment).Malformed? <==> mode != Legacy && exists i: nat :: BadAt(s, i)
    ensures forall i: nat :: mode != Legacy && BadAt(s, i) && (forall k: nat :: k < i ==> !BadAt(s, k)) ==>
      UnescapeSpec(s, mode, multisegment) == Malformed(s[i..if i + 3 < |s| then i + 3 else |s|])
  {
    WellFormedMeans(s);
    FirstBadMeans(s);
    forall i: nat | mode != Legacy && BadAt(s, i) && (forall k: nat :: k < i ==> !BadAt(s, k))
      ensures UnescapeSpec(s, mode, multisegment) == Malformed(s[i..if i + 3 < |s| then i + 3 else |s|])
    {
      assert i == FirstBad(s);
    }
  }

  // ---- What decoding keeps ----

  lemma {:induction false} DecodeAppend(a: Str, b: Str, mode: Mode)
    requires WellFormed(a)
    ensures WellFormed(a + b) <==> WellFormed(b)
    ensures WellFormed(b) ==> Decode(a + b, mode) == Decode(a, mode) + Decode(b, mode)
  {
    if a == [] {
      assert a + b == b;
    } else if a[0] == PERCENT {
      assert (a + b)[3..] == a[3..] + b && (a + b)[..3] == a[..3];
      DecodeAppend(a[3..], b, mode);
      if WellFormed(b) {
        Assoc(Opening(a[..3], mode), Decode(a[3..], mode), Decode(b, mode));
      }
    } else {
      assert (a + b)[1..] == a[1..] + b;
      DecodeAppend(a[1..], b, mode);
      if WellFormed(b) {
        Assoc([a[0]], Decode(a[1..], mode), Decode(b, mode));
      }
    }
  }

  /** A bad escape stays bad when followed by a separator, which is not a hex digit. */
  lemma BadBefore(a: Str, c: byte, b: Str)
    requires !WellFormed(a) && !IsHex(c)
    ensures !WellFormed(a + [c] + b)
  {
    WellFormedMeans(a);
    var s := a + [c] + b;
    var i: nat :| BadAt(a, i);
    assert s[|a|] == c;
    assert BadAt(s, i);
    WellFormedMeans(s);
  }

  /** A text is well formed when both sides of a separator are. */
  lemma WellFormedAround(a: Str, c: byte, b: Str)
    requires c != PERCENT && !IsHex(c)
    ensures WellFormed(a + [c] + b) <==> WellFormed(a) && WellFormed(b)
  {
    if WellFormed(a) {
      assert ([c] + b)[1..] == b;
      Assoc(a, [c], b);
      DecodeAppend(a, [c] + b, AllCharacters);
    } else {
      BadBefore(a, c, b);
    }
  }

  lemma DecodeAtSlash(a: Str, b: Str, mode: Mode)
    requires WellFormed(a)
    ensures WellFormed(a + [SLASH] + b) <==> WellFormed(b)
    ensures WellFormed(b) ==> Decode(a + [SLASH] + b, mode) == Decode(a, mode) + [SLASH] + Decode(b, mode)
  {
    assert ([SLASH] + b)[1..] == b;
    assert a + [SLASH] + b == a + ([SLASH] + b);
    DecodeAppend(a, [SLASH] + b, mode);
  }

  function DecodeAll(cs: seq<Str>, mode: Mode): (r: seq<Str>)
    requires forall c :: c in cs ==> WellFormed(c)
    ensures |r| == |cs| && forall k :: 0 <= k < |cs| ==> r[k] == Decode(cs[k], mode)
  {
    seq(|cs|, k requires 0 <= k < |cs| => assert cs[k] in cs; Decode(cs[k], mode))
  }

  /** Decoding the text a deep wildcard captured is decoding its components one by one:
      both fail together, and the results agree. */
  lemma {:induction false} DecodeOfJoin(cs: seq<Str>, mode: Mode)
    ensures WellFormed(Join(cs, [SLASH])) <==> forall c :: c in cs ==> WellFormed(c)
    ensures (forall c :: c in cs ==> WellFormed(c)) ==>
      WellFormed(Join(cs, [SLASH])) && Decode(Join(cs, [SLASH]), mode) == Join(DecodeAll(cs, mode), [SLASH])
  {
    if |cs| == 0 {
    } else if |cs| == 1 {
      assert cs[0] in cs;
      assert forall c :: c in cs ==> c == cs[0];
    } else {
      var rest := Join(cs[1..], [SLASH]);
      DecodeOfJoin(cs[1..], mode);
      assert cs[0] in cs;
      assert forall c :: c in cs <==> c == cs[0] || c in cs[1..];
      if WellFormed(cs[0]) {
        DecodeAtSlash(cs[0], rest, mode);
        if WellFormed(rest) {
          assert DecodeAll(cs, mode)[1..] == DecodeAll(cs[1..], mode);
        }
      } else {
        BadBefore(cs[0], SLASH, rest);
      }
    }
  }

  /** The segment structure survives decoding, so that splitting the decoded capture at `/`
      gives back each component decoded, exactly when the mode opens no escaped slash in any of
      them; the two restricted modes never do. */
  lemma SegmentsSurvive(cs: seq<Str>, mode: Mode)
    requires |cs| >= 1
    requires forall c :: c in cs ==> WellFormed(c) && SLASH !in c
    ensures WellFormed(Join(cs, [SLASH]))
    ensures Split(Decode(Join(cs, [SLASH]), mode), SLASH) == DecodeAll(cs, mode)
      <==> forall c :: c in cs ==> Opened(c, mode, SLASH) == 0
    ensures mode == AllExceptSlash || mode == AllExceptReserved ==>
      Split(Decode(Join(cs, [SLASH]), mode), SLASH) == DecodeAll(cs, mode)
  {
    DecodeOfJoin(cs, mode);
    var ds := DecodeAll(cs, mode);
    forall k | 0 <= k < |cs|
      ensures SLASH !in ds[k] <==> Opened(cs[k], mode, SLASH) == 0
      ensures mode == AllExceptSlash || mode == AllExceptReserved ==> Opened(cs[k], mode, SLASH) == 0
    {
      assert cs[k] in cs;
      CountAfterDecode(cs[k], mode, SLASH);
      CountZero(cs[k], SLASH);
      CountZero(ds[k], SLASH);
      if !ShouldUnescape(SLASH, mode) {
        NoneOpened(cs[k], mode, SLASH);
      }
    }
    if forall c :: c in cs ==> Opened(c, mode, SLASH) == 0 {
      assert forall k :: 0 <= k < |cs| ==> cs[k] in cs;
      SplitOfJoin(ds, SLASH);
    }
    if Split(Join(ds, [SLASH]), SLASH) == ds {
      SplitPartsFree(Join(ds, [SLASH]), SLASH);
      assert forall k :: 0 <= k < |cs| ==> ds[k] in ds;
    }
  }

  /** How many escapes of the byte c the decoder opens in this mode. */
  function Opened(s: Str, mode: Mode, c: byte): nat
    requires WellFormed(s)
  {
    if s == [] then 0
    else if s[0] == PERCENT then
      var d := HexByte(s[1], s[2]);
      (if d == c && ShouldUnescape(d, mode) then 1 else 0) + Opened(s[3..], mode, c)
    else Opened(s[1..], mode, c)
  }

  /** Conservation: a byte that can be neither `%` nor a hex digit occurs after decoding as
      often as before, plus once for each escape of it that was opened. */
  lemma {:induction false} CountAfterDecode(s: Str, mode: Mode, c: byte)
    requires WellFormed(s) && c != PERCENT && !IsHex(c)
    ensures Count(Decode(s, mode), c) == Count(s, c) + Opened(s, mode, c)
  {
    if s == [] {
    } else if s[0] == PERCENT {
      CountAfterDecode(s[3..], mode, c);
      var d := HexByte(s[1], s[2]);
      assert s == s[..3] + s[3..];
      CountAppend(s[..3], s[3..], c);
      CountZero(s[..3], c);
      assert Count([d], c) == if d == c then 1 else 0;
      CountAppend(Opening(s[..3], mode), Decode(s[3..], mode), c);
    } else {
      CountAfterDecode(s[1..], mode, c);
      CountAppend([s[0]], Decode(s[1..], mode), c);
      assert Count([s[0]], c) == if s[0] == c then 1 else 0;
    }
  }

  /** Bytes a mode protects (every RFC 6570 reserved byte, or the slash) are neither lost nor made. */
  lemma {:induction false} KeptBytes(s: Str, mode: Mode, c: byte)
    requires WellFormed(s)
    requires (mode == AllExceptReserved && IsReserved(c)) || (mode == AllExceptSlash && c == SLASH)
    ensures Count(Decode(s, mode), c) == Count(s, c)
  {
    CountAfterDecode(s, mode, c);
    NoneOpened(s, mode, c);
  }

  lemma {:induction false} NoneOpened(s: Str, mode: Mode, c: byte)
    requires WellFormed(s) && !ShouldUnescape(c, mode)
    ensures Opened(s, mode, c) == 0
  {
    if s != [] {
      NoneOpened(if s[0] == PERCENT then s[3..] else s[1..], mode, c);
    }
  }

  // ---- Percent-encodings and what they are read as ----

  const LOWER_DIGITS := "0123456789abcdef"
  const UPPER_DIGITS := "0123456789ABCDEF"

  /** The reserved set of section 1.5 of RFC 6570. */
  const RESERVED := ":/?#[]@!$&'()*+,;="

  /** How one byte is written: as itself, or as an escape whose two digits are each in either case. */
  datatype Spelling = Bare | Escaped(highUpper: bool, lowUpper: bool)

  function Digit(n: nat, upper: bool): byte
    requires n < 16
  {
    (if upper then UPPER_DIGITS[n] else LOWER_DIGITS[n]) as int as byte
  }

  function Write(c: byte, how: Spelling): Str {
    match how
    case Bare => [c]
    case Escaped(high, low) => [PERCENT, Digit(c as int / 16, high), Digit(c as int % 16, low)]
  }

  /** A percent-encoding (section 2.1 of RFC 3986) of the text, byte by byte as chosen. */
  function Spell(s: Str, how: seq<Spelling>): Str
    requires |how| == |s|
  {
    if s == [] then [] else Write(s[0], how[0]) + Spell(s[1..], how[1..])
  }

  /** Only the percent sign must be escaped. */
  predicate PercentEscaped(s: Str, how: seq<Spelling>)
    requires |how| == |s|
  {
    s == [] || ((s[0] == PERCENT ==> how[0].Escaped?) && PercentEscaped(s[1..], how[1..]))
  }

  /** The bytes whose escapes a mode leaves alone. */
  predicate Protected(c: byte, mode: Mode) {
    match mode
    case AllExceptReserved => c as int as char in RESERVED
    case AllExceptSlash => c as int as char == '/'
    case _ => false
  }

  /** The encoded text with the escapes of protected bytes as they were written, and every other
      byte as itself. */
  function Shown(c: byte, how: Spelling, mode: Mode): Str {
    if Protected(c, mode) then Write(c, how) else [c]
  }

  function Seen(s: Str, how: seq<Spelling>, mode: Mode): Str
    requires |how| == |s|
  {
    if s == [] then [] else Shown(s[0], how[0], mode) + Seen(s[1..], how[1..], mode)
  }

  /** The hex digits are the characters of the two digit strings, and each has the value of its place. */
  lemma DigitsMean(c: byte)
    ensures IsHex(c) <==> c as int as char in LOWER_DIGITS || c as int as char in UPPER_DIGITS
    ensures IsHex(c) ==> Unhex(c) as int < 16 && (c == Digit(Unhex(c) as int, false) || c == Digit(Unhex(c) as int, true))
    ensures forall n: nat, upper :: n < 16 && c == Digit(n, upper) ==> Unhex(c) as int == n
    ensures !IsHex(c) ==> Unhex(c) == 0
  {
  }

  lemma ReservedMeans(c: byte)
    ensures IsReserved(c) <==> c as int as char in RESERVED
  {
  }

  lemma DigitsReadBack(c: byte, high: bool, low: bool)
    ensures IsHex(Digit(c as int / 16, high)) && IsHex(Digit(c as int % 16, low))
    ensures HexByte(Digit(c as int / 16, high), Digit(c as int % 16, low)) == c
  {
    DigitsMean(Digit(c as int / 16, high));
    DigitsMean(Digit(c as int % 16, low));
  }

  lemma EscapeIsRead(c: byte, high: bool, low: bool, rest: Str, mode: Mode)
    requires WellFormed(rest)
    ensures
      var e := Write(c, Escaped(high, low));
      WellFormed(e + rest) && Decode(e + rest, mode) == Shown(c, Escaped(high, low), mode) + Decode(rest, mode)
  {
    var e := Write(c, Escaped(high, low));
    DigitsReadBack(c, high, low);
    ReservedMeans(c);
    assert (e + rest)[..3] == e && (e + rest)[3..] == rest;
    assert Opening(e, mode) == Shown(c, Escaped(high, low), mode);
  }

  lemma ByteIsRead(c: byte, how: Spelling, rest: Str, mode: Mode)
    requires WellFormed(rest) && (c == PERCENT ==> how.Escaped?)
    ensures WellFormed(Write(c, how) + rest)
    ensures Decode(Write(c, how) + rest, mode) == Shown(c, how, mode) + Decode(rest, mode)
  {
    match how
    case Bare => assert ([c] + rest)[1..] == rest;
    case Escaped(high, low) => EscapeIsRead(c, high, low, rest, mode);
  }

  /** The decoder reads every percent-encoding, whatever case its digits are in, as the text with
      the escapes of protected bytes left as they were written and all others opened. */
  lemma {:induction false} DecodeOfEncode(s: Str, how: seq<Spelling>, mode: Mode)
    requires |how| == |s| && PercentEscaped(s, how)
    ensures WellFormed(Spell(s, how)) && Decode(Spell(s, how), mode) == Seen(s, how, mode)
  {
    if s != [] {
      DecodeOfEncode(s[1..], how[1..], mode);
      ByteIsRead(s[0], how[0], Spell(s[1..], how[1..]), mode);
    }
  }

  /** Nothing else is accepted: every accepted text is such an encoding. */
  lemma {:induction false} EncodingOf(e: Str) returns (s: Str, how: seq<Spelling>)
    requires WellFormed(e)
    ensures |how| == |s| && PercentEscaped(s, how) && Spell(s, how) == e
  {
    if e == [] {
      s, how := [], [];
    } else if e[0] != PERCENT {
      var s', how' := EncodingOf(e[1..]);
      s, how := [e[0]] + s', [Bare] + how';
    } else {
      var s', how' := EncodingOf(e[3..]);
      var c, first := EscapeIsWritten(e[..3]);
      s, how := [c] + s', [first] + how';
      assert e == e[..3] + e[3..];
    }
  }

  lemma HalvesOf(h: nat, l: nat)
    requires h < 16 && l < 16
    ensures h * 16 + l < 256 && (h * 16 + l) / 16 == h && (h * 16 + l) % 16 == l
  {
  }

  lemma EscapeIsWritten(escape: Str) returns (c: byte, how: Spelling)
    requires |escape| == 3 && escape[0] == PERCENT && IsHex(escape[1]) && IsHex(escape[2])
    ensures Write(c, how) == escape && how.Escaped?
  {
    DigitsMean(escape[1]);
    DigitsMean(escape[2]);
    var h, l := Unhex(escape[1]) as int, Unhex(escape[2]) as int;
    HalvesOf(h, l);
    c := (h * 16 + l) as byte;
    how := Escaped(escape[1] == Digit(h, true), escape[2] == Digit(l, true));
  }

  /** So in the mode of single segments decoding inverts every encoding, on all byte strings; in
      legacy mode it leaves everything as it is. */
  lemma {:induction false} UnescapeOfEncode(s: Str, how: seq<Spelling>, mode: Mode, multisegment: bool)
    requires |how| == |s| && PercentEscaped(s, how)
    ensures UnescapeSpec(Spell(s, how), mode, multisegment) == Text(
      if mode == Legacy then Spell(s, how) else if multisegment then Seen(s, how, mode) else s)
  {
    DecodeOfEncode(s, how, Effective(mode, multisegment));
    NothingProtected(s, how);
  }

  lemma {:induction false} NothingProtected(s: Str, how: seq<Spelling>)
    requires |how| == |s|
    ensures Seen(s, how, AllCharacters) == s
  {
    if s != [] {
      NothingProtected(s[1..], how[1..]);
    }
  }
}
