/** The log header, formatted by hand into a fixed scratch buffer. */
module Header {
  import opened Text
  import opened Digits

  const SIZE := 64

  /** `"IWEF"` */
  function SeverityChar(s: int): byte
    requires 0 <= s < 4
  {
    [73, 87, 69, 70][s]
  }

  /** Two zero-padded digits. */
  function Two(d: nat): (s: Str)
    ensures |s| == 2
  {
    [Digit(d / 10 % 10), Digit(d % 10)]
  }

  /** `twoDigits`: two places after what is already written, the rest of the buffer untouched. */
  method TwoDigits(tmp: array<byte>, i: nat, d: nat)
    requires i + 2 <= tmp.Length
    modifies tmp
    ensures tmp[..i + 2] == old(tmp[..i]) + Two(d) && tmp[i + 2..] == old(tmp[i + 2..])
  {
    tmp[i + 1] := Digit(d % 10);
    var rest := d / 10;
    tmp[i] := Digit(rest % 10);
  }

  /** The last place of a field, and the field without it. */
  lemma LastPlace(full: Str, m: nat, d: int, pad: byte)
    requires m > 0 && m <= |full| && full[..m] == Padded(m, d, pad)
    ensures full[m - 1] == if d > 0 then Digit(d % 10) else pad
    ensures full[..m - 1] == Padded(m - 1, if d > 0 then d / 10 else 0, pad)
  {
    assert full[..m][m - 1] == full[m - 1];
    assert full[..m][..m - 1] == full[..m - 1];
  }

  lemma FieldDone(tmp: array<byte>, i: nat, n: nat, full: Str)
    requires i + n <= tmp.Length && |full| == n && forall k :: 0 <= k < n ==> tmp[i + k] == full[k]
    ensures tmp[..i + n] == tmp[..i] + full
  {
    assert tmp[i..i + n] == full;
    assert tmp[..i + n] == tmp[..i] + tmp[i..i + n];
  }

  /** The padding loop of `nDigits`. */
  method PadLeft(tmp: array<byte>, i: nat, m: nat, pad: byte)
    requires i + m <= tmp.Length
    modifies tmp
    ensures forall k :: i <= k < i + m ==> tmp[k] == pad
    ensures forall k :: 0 <= k < tmp.Length && !(i <= k < i + m) ==> tmp[k] == old(tmp[k])
  {
    var j := m - 1;
    while j >= 0
      invariant -1 <= j < m
      invariant forall k :: i + j < k < i + m ==> tmp[k] == pad
      invariant forall k :: 0 <= k < tmp.Length && !(i <= k < i + m) ==> tmp[k] == old(tmp[k])
    {
      tmp[i + j] := pad;
      j := j - 1;
    }
  }

  lemma {:induction false} RepeatAll(c: byte, n: nat)
    ensures forall k :: 0 <= k < n ==> Repeat(c, n)[k] == c
  {
    if n > 0 {
      RepeatAll(c, n - 1);
    }
  }

  lemma PaddedBelow(m: nat, d: int, pad: byte)
    requires d <= 0
    ensures Padded(m, d, pad) == Padded(m, 0, pad)
  {
  }

  /** Places the number does not reach hold the padding. */
  lemma OnlyPad(full: Str, m: nat, d: int, pad: byte)
    requires m <= |full| && d <= 0 && full[..m] == Padded(m, d, pad)
    ensures forall k :: 0 <= k < m ==> full[k] == pad
  {
    PaddedBelow(m, d, pad);
    PaddedZero(m, pad);
    RepeatAll(pad, m);
    assert forall k :: 0 <= k < m ==> full[..m][k] == full[k];
  }

  /** The digit loop of `nDigits`. */
  method DigitsWhileAny(tmp: array<byte>, n: nat, i: nat, d: int, pad: byte, ghost full: Str) returns (j: int, rest: int)
    requires i + n <= tmp.Length && full == Padded(n, d, pad)
    modifies tmp
    ensures -1 <= j < n && (j >= 0 ==> rest <= 0) && full[..j + 1] == Padded(j + 1, rest, pad)
    ensures forall k :: j < k < n ==> tmp[i + k] == full[k]
    ensures forall k :: 0 <= k < tmp.Length && !(i <= k < i + n) ==> tmp[k] == old(tmp[k])
  {
    j, rest := n - 1, d;
    assert full[..n] == full;
    while j >= 0 && rest > 0
      invariant -1 <= j < n
      invariant full[..j + 1] == Padded(j + 1, rest, pad)
      invariant forall k :: j < k < n ==> tmp[i + k] == full[k]
      invariant forall k :: 0 <= k < tmp.Length && !(i <= k < i + n) ==> tmp[k] == old(tmp[k])
    {
      LastPlace(full, j + 1, rest, pad);
      tmp[i + j] := Digit(rest % 10);
      rest := rest / 10;
      j := j - 1;
    }
  }

  /** `nDigits`: digits from the right while any are left, then padding. */
  method NDigits(tmp: array<byte>, n: nat, i: nat, d: int, pad: byte)
    requires i + n <= tmp.Length
    modifies tmp
    ensures tmp[..i + n] == old(tmp[..i]) + Padded(n, d, pad) && tmp[i + n..] == old(tmp[i + n..])
  {
    ghost var full := Padded(n, d, pad);
    var j, rest := DigitsWhileAny(tmp, n, i, d, pad, full);
    if j >= 0 {
      OnlyPad(full, j + 1, rest, pad);
      PadLeft(tmp, i, j + 1, pad);
    }
    FieldDone(tmp, i, n, full);
  }

  /** `copy(tmp[i:], tmp[j:])` within one buffer, downwards: the source is read before it is
      overwritten although the two ranges may overlap. */
  method CopyDown(tmp: array<byte>, i: nat, j: nat) returns (n: nat)
    requires i <= j <= tmp.Length
    modifies tmp
    ensures n == tmp.Length - j
    ensures tmp[i..i + n] == old(tmp[j..])
    ensures forall k :: 0 <= k < i ==> tmp[k] == old(tmp[k])
  {
    ghost var was := tmp[..];
    n := 0;
    while j + n < tmp.Length
      invariant 0 <= n <= tmp.Length - j
      invariant tmp[i..i + n] == was[j..j + n]
      invariant tmp[j + n..] == was[j + n..]
      invariant tmp[..i] == was[..i]
    {
      assert tmp[j + n] == was[j + n..][0];
      tmp[i + n] := tmp[j + n];
      n := n + 1;
      assert tmp[j + n..] == was[j + n - 1..][1..];
    }
    assert was[j..j + n] == was[j..];
    assert forall k :: 0 <= k < i ==> tmp[k] == tmp[..i][k];
  }

  /** The digits of d from the right, down to position j. */
  method DigitsIntoTop(tmp: array<byte>, d: nat, i: nat) returns (j: nat)
    requires |Decimal(d)| <= tmp.Length - i
    modifies tmp
    ensures i <= j <= tmp.Length && tmp[j..] == Decimal(d)
    ensures forall k :: 0 <= k < i ==> tmp[k] == old(tmp[k])
  {
    ghost var full := Decimal(d);
    j := tmp.Length;
    var rest := d;
    ghost var m := |full|;
    assert full[..m] == full;
    while true
      invariant 1 <= m <= |full| && j == tmp.Length - |full| + m
      invariant full[..m] == Decimal(rest)
      invariant forall k :: m <= k < |full| ==> tmp[tmp.Length - |full| + k] == full[k]
      invariant forall k :: 0 <= k < i ==> tmp[k] == old(tmp[k])
      decreases m
    {
      j := j - 1;
      assert full[m - 1] == full[..m][m - 1];
      tmp[j] := Digit(rest % 10);
      m := m - 1;
      if rest / 10 == 0 {
        break;
      }
      assert full[..m] == full[..m + 1][..m];
      rest := rest / 10;
    }
    assert forall k :: 0 <= k < |full| ==> tmp[j..][k] == tmp[tmp.Length - |full| + k];
  }

  /** `someDigits`: the canonical decimal of d at i, built at the top of the buffer and copied down. */
  method SomeDigits(tmp: array<byte>, i: nat, d: nat) returns (n: nat)
    requires i + |Decimal(d)| <= tmp.Length
    modifies tmp
    ensures n == |Decimal(d)| && tmp[i..i + n] == Decimal(d)
    ensures forall k :: 0 <= k < i ==> tmp[k] == old(tmp[k])
  {
    var j := DigitsIntoTop(tmp, d, i);
    n := CopyDown(tmp, i, j);
  }

  // ---- The header ----

  /** Local time of the record. */
  datatype Clock = Clock(year: int, month: nat, day: nat, hour: nat, minute: nat, second: nat, nanosecond: nat)

  const DASH := Bytes("-")
  const SPACE := Bytes(" ")
  const COLON := Bytes(":")
  const DOT := Bytes(".")
  const CLOSE := Bytes("] ")

  function DateText(s: int, c: Clock): (h: Str)
    requires 0 <= s < 4
    ensures |h| == 12
  {
    [SeverityChar(s)] + Padded(4, c.year, ZERO) + DASH + Two(c.month) + DASH + Two(c.day) + SPACE
  }

  function TimeText(c: Clock): (h: Str)
    ensures |h| == 15
  {
    Two(c.hour) + COLON + Two(c.minute) + COLON + Two(c.second) + DOT + Padded(6, c.nanosecond / 1000, ZERO)
  }

  function PidText(pid: int): (h: Str)
    ensures |h| == 9
  {
    SPACE + Padded(7, pid, BLANK) + SPACE
  }

  /** The 36 fixed bytes. */
  function HeaderText(s: int, c: Clock, pid: int): (h: Str)
    requires 0 <= s < 4
    ensures |h| == 36
  {
    DateText(s, c) + TimeText(c) + PidText(pid)
  }

  /** A line number is a 64-bit int: at most 19 digits. */
  lemma LineFits(l: nat)
    requires l < 0x8000_0000_0000_0000
    ensures |Decimal(l)| <= 19
  {
    assert Pow10(19) == 10_000_000_000_000_000_000 by {
      Pow10Of19();
    }
    DecimalLength(l, 19);
  }

  lemma Pow10Of19()
    ensures Pow10(4) == 10_000 && Pow10(6) == 1_000_000 && Pow10(7) == 10_000_000
    ensures Pow10(19) == 10_000_000_000_000_000_000
  {
    assert Pow10(2) == 100;
    assert Pow10(4) == 10_000;
    assert Pow10(6) == 1_000_000;
    assert Pow10(7) == 10_000_000;
    assert Pow10(9) == 1_000_000_000;
    assert Pow10(11) == 100_000_000_000;
    assert Pow10(13) == 10_000_000_000_000;
    assert Pow10(15) == 1_000_000_000_000_000;
    assert Pow10(17) == 100_000_000_000_000_000;
  }

  lemma TwoReadsBack(d: nat)
    requires d < 100
    ensures Value(Two(d)) == d
  {
    var s := Two(d);
    assert s[..1] == [s[0]] && s[..1][..0] == [];
    assert Value(s[..1]) == 10 * Value([]) + DigitValue(s[0]);
  }

  /** The columns of a header. */
  predicate Laid(h: Str, s: int, c: Clock, pid: int)
    requires 0 <= s < 4
  {
    |h| == 36 && LaidDate(h, s, c) && LaidTime(h, c) && LaidPid(h, pid)
  }

  predicate LaidDate(h: Str, s: int, c: Clock)
    requires 0 <= s < 4 && |h| == 36
  {
    && h[0] == SeverityChar(s)
    && h[1..5] == Padded(4, c.year, ZERO) && h[6..8] == Two(c.month) && h[9..11] == Two(c.day)
    && h[5..6] == DASH && h[8..9] == DASH && h[11..12] == SPACE
  }

  predicate LaidTime(h: Str, c: Clock)
    requires |h| == 36
  {
    && h[12..14] == Two(c.hour) && h[15..17] == Two(c.minute) && h[18..20] == Two(c.second)
    && h[21..27] == Padded(6, c.nanosecond / 1000, ZERO)
    && h[14..15] == COLON && h[17..18] == COLON && h[20..21] == DOT
  }

  predicate LaidPid(h: Str, pid: int)
    requires |h| == 36
  {
    h[27..28] == SPACE && h[28..35] == Padded(7, pid, BLANK) && h[35..] == SPACE
  }

  lemma HeaderIsLaid(s: int, c: Clock, pid: int)
    requires 0 <= s < 4
    ensures Laid(HeaderText(s, c, pid), s, c, pid)
    ensures HeaderText(s, c, pid)[0] as int as char == "IWEF"[s]
  {
    var h := HeaderText(s, c, pid);
    assert h[..12] == DateText(s, c);
    assert h[12..27] == TimeText(c);
    assert h[27..] == PidText(pid);
    DateLaid(h[..12], s, c);
    TimeLaid(h[12..27], c);
  }

  lemma DateLaid(h: Str, s: int, c: Clock)
    requires 0 <= s < 4 && h == DateText(s, c)
    ensures h[0] == SeverityChar(s) && h[1..5] == Padded(4, c.year, ZERO) && h[6..8] == Two(c.month) && h[9..11] == Two(c.day)
    ensures h[5..6] == DASH && h[8..9] == DASH && h[11..12] == SPACE
  {
    var year, month, day := Padded(4, c.year, ZERO), Two(c.month), Two(c.day);
    Between([SeverityChar(s)], year, DASH + month + DASH + day + SPACE);
    Between([SeverityChar(s)] + year + DASH, month, DASH + day + SPACE);
    Between([SeverityChar(s)] + year + DASH + month + DASH, day, SPACE);
    assert h == [SeverityChar(s)] + year + (DASH + month + DASH + day + SPACE);
    assert h == [SeverityChar(s)] + year + DASH + month + (DASH + day + SPACE);
  }

  lemma Between(a: Str, b: Str, c: Str)
    ensures (a + b + c)[|a|..|a| + |b|] == b
  {
  }

  lemma TimeLaid(h: Str, c: Clock)
    requires h == TimeText(c)
    ensures h[..2] == Two(c.hour) && h[3..5] == Two(c.minute) && h[6..8] == Two(c.second)
    ensures h[9..15] == Padded(6, c.nanosecond / 1000, ZERO)
    ensures h[2..3] == COLON && h[5..6] == COLON && h[8..9] == DOT
  {
    var hour, minute, second, micros := Two(c.hour), Two(c.minute), Two(c.second), Padded(6, c.nanosecond / 1000, ZERO);
    Pieces(hour, COLON, minute, COLON, second + DOT + micros);
    assert h == hour + COLON + minute + COLON + (second + DOT + micros);
    assert h[6..] == second + DOT + micros;
    Between([], second, DOT + micros);
    assert h[6..][2..3] == DOT && h[6..][3..] == micros;
  }

  lemma Pieces(a: Str, b: Str, c: Str, d: Str, e: Str)
    ensures
      var s, i, j, k := a + b + c + d + e, |a|, |a| + |b|, |a| + |b| + |c|;
      s[..i] == a && s[i..j] == b && s[j..k] == c && s[k..k + |d|] == d && s[k + |d|..] == e
  {
  }

  /** Reading the fixed columns back gives severity, the last four digits of the year, month,
      day, time, microseconds and the last seven digits of the process id. */
  lemma {:induction false} HeaderReadsBack(h: Str, s: int, c: Clock, pid: nat)
    requires 0 <= s < 4 && c.year >= 0 && Laid(h, s, c, pid)
    requires c.month < 100 && c.day < 100 && c.hour < 100 && c.minute < 100 && c.second < 100 && c.nanosecond < 1_000_000_000
    ensures forall t :: 0 <= t < 4 && h[0] == SeverityChar(t) ==> t == s
    ensures Value(h[1..5]) == c.year % 10_000 && Value(h[6..8]) == c.month && Value(h[9..11]) == c.day
    ensures Value(h[12..14]) == c.hour && Value(h[15..17]) == c.minute && Value(h[18..20]) == c.second
    ensures Value(h[21..27]) == c.nanosecond / 1000 && Value(h[28..35]) == pid % 10_000_000
  {
    DateReadsBack(h, s, c);
    TimeReadsBack(h, c);
    Pow10Of19();
    PaddedReadsBack(7, pid, BLANK);
  }

  lemma DateReadsBack(h: Str, s: int, c: Clock)
    requires 0 <= s < 4 && |h| == 36 && c.year >= 0 && LaidDate(h, s, c) && c.month < 100 && c.day < 100
    ensures Value(h[1..5]) == c.year % 10_000 && Value(h[6..8]) == c.month && Value(h[9..11]) == c.day
  {
    Pow10Of19();
    PaddedReadsBack(4, c.year, ZERO);
    TwoReadsBack(c.month);
    TwoReadsBack(c.day);
  }

  lemma MicrosReadBack(nanosecond: nat)
    requires nanosecond < 1_000_000_000
    ensures Value(Padded(6, nanosecond / 1000, ZERO)) == nanosecond / 1000
  {
    Pow10Of19();
    PaddedReadsBack(6, nanosecond / 1000, ZERO);
  }

  lemma TimeReadsBack(h: Str, c: Clock)
    requires |h| == 36 && LaidTime(h, c)
    requires c.hour < 100 && c.minute < 100 && c.second < 100 && c.nanosecond < 1_000_000_000
    ensures Value(h[12..14]) == c.hour && Value(h[15..17]) == c.minute && Value(h[18..20]) == c.second
    ensures Value(h[21..27]) == c.nanosecond / 1000
  {
    MicrosReadBack(c.nanosecond);
    TwoReadsBack(c.hour);
    TwoReadsBack(c.minute);
    TwoReadsBack(c.second);
  }

  /** A buffer with its scratch space. */
  class Buffer {
    const tmp: array<byte>
    var text: Str

    constructor ()
      ensures tmp.Length == SIZE && fresh(tmp) && text == []
    {
      tmp := new byte[SIZE];
      text := [];
    }

    method Put(i: nat, c: byte)
      requires i < tmp.Length
      modifies tmp
      ensures tmp[..i + 1] == old(tmp[..i]) + [c] && tmp[i + 1..] == old(tmp[i + 1..])
    {
      tmp[i] := c;
    }

    /** The date part. */
    method FormatDate(s: int, c: Clock)
      requires 0 <= s < 4 && tmp.Length == SIZE
      modifies tmp
      ensures tmp[..12] == DateText(s, c)
    {
      Put(0, SeverityChar(s));
      NDigits(tmp, 4, 1, c.year, ZERO);
      Put(5, 45);
      TwoDigits(tmp, 6, c.month);
      Put(8, 45);
      TwoDigits(tmp, 9, c.day);
      Put(11, 32);
    }

    /** The time part, after the date. */
    method FormatTime(c: Clock)
      requires tmp.Length == SIZE
      modifies tmp
      ensures tmp[..27] == old(tmp[..12]) + TimeText(c)
    {
      TwoDigits(tmp, 12, c.hour);
      Put(14, 58);
      TwoDigits(tmp, 15, c.minute);
      Put(17, 58);
      TwoDigits(tmp, 18, c.second);
      Put(20, 46);
      NDigits(tmp, 6, 21, c.nanosecond / 1000, ZERO);
    }

    method FormatPid(pid: int)
      requires tmp.Length == SIZE
      modifies tmp
      ensures tmp[..36] == old(tmp[..27]) + PidText(pid)
    {
      Put(27, 32);
      NDigits(tmp, 7, 28, pid, BLANK);
      Put(35, 32);
    }

    /** The line number and its brackets, in the same scratch space. */
    method FormatLine(l: nat) returns (n: nat)
      requires tmp.Length == SIZE && l < 0x8000_0000_0000_0000
      modifies tmp
      ensures n + 3 <= SIZE && tmp[..n + 3] == COLON + Decimal(l) + CLOSE
    {
      Put(0, 58);
      LineFits(l);
      n := SomeDigits(tmp, 1, l);
      assert tmp[..n + 1] == COLON + Decimal(l);
      Put(n + 1, 93);
      Put(n + 2, 32);
    }

    /** `formatHeader`: whatever the scratch space held before, the 36 bytes are those of the
        header, each written once, and file and line follow. */
    method FormatHeader(severity: int, c: Clock, pid: int, file: Str, line: int)
      requires 0 <= severity && tmp.Length == SIZE && line < 0x8000_0000_0000_0000
      modifies this`text, tmp
      ensures text ==
        HeaderText(if severity > 3 then 0 else severity, c, pid) + file
        + (COLON + Decimal(if line < 0 then 0 else line) + CLOSE)
    {
      var l: nat := if line < 0 then 0 else line;
      var s := if severity > 3 then 0 else severity;
      text := [];
      FormatDate(s, c);
      FormatTime(c);
      FormatPid(pid);
      assert text + tmp[..36] == HeaderText(s, c, pid);
      text := text + tmp[..36];
      text := text + file;
      var n := FormatLine(l);
      text := text + tmp[..n + 3];
    }
  }
}
