/** Seek lines of the socket protocol: recognising the prefix and reading two
    unsigned numbers, as strncmp and sscanf do for
    "AESDCHAR_IOCSEEKTO:%u,%u" (section 7.21.6.7 of ISO/IEC 9899:2011). */
module SeekCommand {
  import opened ByteStream

  const PREFIX: Bytes := "AESDCHAR_IOCSEEKTO:"
  const UINT32 := 0x1_0000_0000
  const UINT64 := 0x1_0000_0000_0000_0000

  /** What the server does with a line. */
  datatype Dispatch = Text | Seek(cmd: nat, offset: nat) | Malformed

  predicate HasPrefix(line: Bytes) {
    PREFIX <= line
  }

  predicate IsDigit(c: char) {
    '0' <= c <= '9'
  }

  /** isspace in the C locale. */
  predicate IsSpace(c: char) {
    c == ' ' || (9 as char <= c <= 13 as char)
  }

  function SkipSpaces(s: Bytes): (r: Bytes)
    ensures |r| <= |s|
  {
    if s != [] && IsSpace(s[0]) then SkipSpaces(s[1..]) else s
  }

  /** How many digits `s` starts with. */
  function DigitRun(s: Bytes): (n: nat)
    ensures n <= |s| && forall i :: 0 <= i < n ==> IsDigit(s[i])
    ensures n < |s| ==> !IsDigit(s[n])
  {
    if s != [] && IsDigit(s[0]) then 1 + DigitRun(s[1..]) else 0
  }

  function Value(digits: Bytes): nat
    requires forall i :: 0 <= i < |digits| ==> IsDigit(digits[i])
  {
    if digits == [] then 0
    else
      assert IsDigit(digits[|digits|-1]);
      Value(digits[..|digits|-1]) * 10 + (digits[|digits|-1] as nat - '0' as nat)
  }

  // ---------------------------------------------------------------- what digits mean

  const DIGITS: Bytes := "0123456789"
  const WHITE: Bytes := [' ', 9 as char, 10 as char, 11 as char, 12 as char, 13 as char]

  function Pow10(n: nat): nat {
    if n == 0 then 1 else 10 * Pow10(n - 1)
  }

  /** The place of a digit among the ten. */
  function DigitOf(c: char): (d: nat)
    requires IsDigit(c)
    ensures d < 10 && DIGITS[d] == c
  {
    c as nat - '0' as nat
  }

  /** The number that decimal digits write, the first being worth most. */
  function Written(digits: Bytes): nat
    requires forall i :: 0 <= i < |digits| ==> IsDigit(digits[i])
  {
    if digits == [] then 0
    else DigitOf(digits[0]) * Pow10(|digits| - 1) + Written(digits[1..])
  }

  /** The digits of `b` are worth what they are alone, those of `a` before them
      ten times as much for each. */
  lemma {:induction false} ValueConcat(a: Bytes, b: Bytes)
    requires forall i :: 0 <= i < |a| ==> IsDigit(a[i])
    requires forall i :: 0 <= i < |b| ==> IsDigit(b[i])
    ensures forall i :: 0 <= i < |a + b| ==> IsDigit((a + b)[i])
    ensures Value(a + b) == Value(a) * Pow10(|b|) + Value(b)
  {
    hide Value;
    if b == [] {
      assert a + b == a;
      NoDigits();
    } else {
      var init := b[..|b|-1];
      ValueConcat(a, init);
      assert (a + b)[..|a + b|-1] == a + init;
      NextDigit(a + b);
      NextDigit(b);
      TenTimes(Value(a), Pow10(|init|));
    }
  }

  lemma NoDigits()
    ensures Value([]) == 0
  {
  }

  lemma NextDigit(digits: Bytes)
    requires digits != [] && forall i :: 0 <= i < |digits| ==> IsDigit(digits[i])
    ensures var n := |digits| - 1;
            IsDigit(digits[n]) && Value(digits) == Value(digits[..n]) * 10 + DigitOf(digits[n])
  {
    assert IsDigit(digits[|digits|-1]);
  }

  lemma TenTimes(v: nat, p: nat)
    ensures (v * p) * 10 == v * (10 * p)
  {
  }

  /** What the conversion computes from the digits is the number they write. */
  lemma {:induction false} ValueIsWritten(digits: Bytes)
    requires forall i :: 0 <= i < |digits| ==> IsDigit(digits[i])
    ensures Value(digits) == Written(digits)
  {
    if digits != [] {
      var first, rest := [digits[0]], digits[1..];
      assert digits == first + rest;
      ValueIsWritten(rest);
      ValueConcat(first, rest);
      assert first[..0] == [];
      assert Value(first) == DigitOf(digits[0]);
    }
  }

  /** Leading zeros do not matter. */
  lemma LeadingZero(digits: Bytes)
    requires forall i :: 0 <= i < |digits| ==> IsDigit(digits[i])
    ensures Value(['0'] + digits) == Value(digits)
  {
    ValueConcat(['0'], digits);
    assert ['0'][..0] == [];
    assert Value(['0']) == 0;
  }

  /** `n` is the 32-bit number that `value`, written with or without a minus
      sign, stands for; values beyond 64 bits saturate. */
  predicate StandsFor(negative: bool, value: nat, n: nat) {
    && n < UINT32
    && if value >= UINT64 then n == UINT32 - 1
       else if negative then (n + value) % UINT32 == 0
       else (value - n) % UINT32 == 0
  }

  lemma ToUint32StandsFor(negative: bool, value: nat)
    ensures StandsFor(negative, value, ToUint32(negative, value))
  {
    if negative && value < UINT64 {
      var n, m := (UINT64 - value) % UINT32, (UINT64 - value) / UINT32;
      assert UINT64 == UINT32 * UINT32;
      assert n + value == UINT32 * (UINT32 - m);
      Multiple(UINT32 - m);
    } else if value < UINT64 {
      assert value - value % UINT32 == UINT32 * (value / UINT32);
      Multiple(value / UINT32);
    }
  }

  lemma Multiple(m: int)
    ensures (UINT32 * m) % UINT32 == 0
  {
  }

  /** No other number below 2^32 stands for it. */
  lemma StandsForOne(negative: bool, value: nat, n: nat, other: nat)
    requires StandsFor(negative, value, n) && StandsFor(negative, value, other)
    ensures n == other
  {
    if value < UINT64 {
      var m := if negative then (n + value) / UINT32 else (value - n) / UINT32;
      var k := if negative then (other + value) / UINT32 else (value - other) / UINT32;
      assert if negative then n - other == UINT32 * (m - k) else other - n == UINT32 * (m - k);
      assert m == k;
    }
  }

  /** The 32-bit result of the library's strtoul-based conversion: values beyond
      64 bits saturate, a minus sign negates, and the result is truncated. */
  function ToUint32(negative: bool, value: nat): (r: nat)
    ensures r < UINT32
    ensures !negative && value < UINT32 ==> r == value
  {
    if value >= UINT64 then UINT32 - 1
    else if negative then (UINT64 - value) % UINT32
    else value % UINT32
  }

  /** The optional sign `s` starts with. */
  function SignOf(s: Bytes): (sign: Bytes)
    ensures sign <= s && (sign == [] || sign == ['+'] || sign == ['-'])
  {
    if s != [] && (s[0] == '+' || s[0] == '-') then [s[0]] else []
  }

  datatype Scan = NoMatch | Matched(value: nat, rest: Bytes)

  /** One %u conversion: white space, an optional sign, at least one digit. */
  function ScanUnsigned(s: Bytes): (r: Scan)
    ensures r.Matched? ==> r.value < UINT32
  {
    var t := SkipSpaces(s);
    var sign := SignOf(t);
    var u := t[|sign|..];
    var n := DigitRun(u);
    if n == 0 then NoMatch else Matched(ToUint32(sign == ['-'], Value(u[..n])), u[n..])
  }

  function DispatchOf(line: Bytes): (d: Dispatch)
    ensures d.Seek? ==> d.cmd < UINT32 && d.offset < UINT32
  {
    if !HasPrefix(line) then Text
    else
      match ScanUnsigned(line[|PREFIX|..])
      case NoMatch => Malformed
      case Matched(cmd, rest) =>
        if rest == [] || rest[0] != ',' then Malformed
        else
          match ScanUnsigned(rest[1..])
          case NoMatch => Malformed
          case Matched(offset, _) => Seek(cmd, offset)
  }

  // ---------------------------------------------------------------- printing

  /** Canonical decimal digits. */
  function Decimal(n: nat): (d: Bytes)
    ensures d != [] && forall i :: 0 <= i < |d| ==> IsDigit(d[i])
  {
    (if n < 10 then [] else Decimal(n / 10)) + [('0' as nat + n % 10) as char]
  }

  function Print(cmd: nat, offset: nat): Bytes {
    PREFIX + Decimal(cmd) + [','] + Decimal(offset) + [NEWLINE]
  }

  lemma {:induction false} ValueOfDecimal(n: nat)
    ensures Value(Decimal(n)) == n
  {
    var d := Decimal(n);
    if n >= 10 {
      ValueOfDecimal(n / 10);
      assert d[..|d|-1] == Decimal(n / 10);
    }
  }

  lemma {:induction false} DigitRunStops(d: Bytes, rest: Bytes)
    requires forall i :: 0 <= i < |d| ==> IsDigit(d[i])
    requires rest == [] || !IsDigit(rest[0])
    ensures DigitRun(d + rest) == |d|
  {
    if d == [] {
      assert d + rest == rest;
    } else {
      assert (d + rest)[1..] == d[1..] + rest;
      DigitRunStops(d[1..], rest);
    }
  }

  /** White space, an optional sign and digits: what %u accepts. */
  datatype Numeral = Numeral(spaces: Bytes, sign: Bytes, digits: Bytes) {
    predicate Valid() {
      && (forall i :: 0 <= i < |spaces| ==> spaces[i] in WHITE)
      && (sign == [] || sign == ['+'] || sign == ['-'])
      && digits != [] && (forall i :: 0 <= i < |digits| ==> IsDigit(digits[i]))
    }

    function Text(): Bytes {
      spaces + sign + digits
    }

    function Read(): nat
      requires Valid()
    {
      ToUint32(sign == ['-'], Value(digits))
    }

    /** `n` is the number written. */
    predicate Says(n: nat)
      requires Valid()
    {
      StandsFor(sign == ['-'], Written(digits), n)
    }

    lemma ReadIsSaid()
      requires Valid()
      ensures Says(Read())
    {
      ValueIsWritten(digits);
      ToUint32StandsFor(sign == ['-'], Value(digits));
    }
  }

  lemma {:induction false} SkipSpacesStops(spaces: Bytes, rest: Bytes)
    requires forall i :: 0 <= i < |spaces| ==> spaces[i] in WHITE
    requires rest != [] && !IsSpace(rest[0])
    ensures SkipSpaces(spaces + rest) == rest
  {
    if spaces == [] {
      assert spaces + rest == rest;
    } else {
      assert (spaces + rest)[1..] == spaces[1..] + rest;
      SkipSpacesStops(spaces[1..], rest);
    }
  }

  /** A numeral that no further digit follows is read whole, and nothing else is. */
  lemma ScanNumeral(w: Numeral, rest: Bytes)
    requires w.Valid() && (rest == [] || !IsDigit(rest[0]))
    ensures ScanUnsigned(w.Text() + rest) == Matched(w.Read(), rest)
  {
    hide ToUint32, Value, DigitRun, SkipSpaces;
    var u := w.digits + rest;
    var t := w.sign + u;
    assert IsDigit(w.digits[0]);
    assert t[0] == (if w.sign == [] then w.digits[0] else w.sign[0]);
    SkipSpacesStops(w.spaces, t);
    Assoc(w.spaces + w.sign, w.digits, rest);
    Assoc(w.spaces, w.sign, u);
    assert w.Text() + rest == w.spaces + t;
    assert SignOf(t) == w.sign && t[|w.sign|..] == u;
    DigitRunStops(w.digits, rest);
    assert u[..|w.digits|] == w.digits && u[|w.digits|..] == rest;
  }

  lemma {:induction false} SkippedSpaces(s: Bytes) returns (spaces: Bytes)
    ensures s == spaces + SkipSpaces(s)
    ensures forall i :: 0 <= i < |spaces| ==> spaces[i] in WHITE
  {
    if s != [] && IsSpace(s[0]) {
      spaces := SkippedSpaces(s[1..]);
      spaces := [s[0]] + spaces;
    } else {
      spaces := [];
    }
  }

  lemma TwoParts(s: Bytes, n: nat)
    requires n <= |s|
    ensures s == s[..n] + s[n..]
  {
  }

  /** Whatever a conversion matches is a numeral. */
  lemma ScanIsNumeral(s: Bytes) returns (w: Numeral)
    requires ScanUnsigned(s).Matched?
    ensures w.Valid() && s == w.Text() + ScanUnsigned(s).rest && ScanUnsigned(s).value == w.Read()
    ensures ScanUnsigned(s).rest == [] || !IsDigit(ScanUnsigned(s).rest[0])
  {
    hide ToUint32, Value, DigitRun, SkipSpaces, SignOf, IsSpace;
    var spaces := SkippedSpaces(s);
    var t := SkipSpaces(s);
    var u := t[|SignOf(t)|..];
    var n := DigitRun(u);
    w := Numeral(spaces, SignOf(t), u[..n]);
    TwoParts(t, |w.sign|);
    TwoParts(u, n);
    Assoc(spaces + w.sign, w.digits, u[n..]);
    Assoc(spaces, w.sign, u);
  }

  /** The line of a request whose numbers are written as `c` and `o`, with
      anything that does not extend the second number behind. */
  function SeekLine(c: Numeral, o: Numeral, rest: Bytes): Bytes {
    PREFIX + (c.Text() + ([','] + (o.Text() + rest)))
  }

  /** Lines of the seek form seek, to exactly the numbers written: the decimal
      numbers, a minus sign counting down from 2^32. */
  lemma SeekFormSeeks(c: Numeral, o: Numeral, rest: Bytes)
    requires c.Valid() && o.Valid() && (rest == [] || !IsDigit(rest[0]))
    ensures DispatchOf(SeekLine(c, o, rest)) == Seek(c.Read(), o.Read())
    ensures c.Says(c.Read()) && o.Says(o.Read())
  {
    hide Numeral.Read, Numeral.Text, Numeral.Says, ScanUnsigned;
    c.ReadIsSaid();
    o.ReadIsSaid();
    var second := o.Text() + rest;
    var first := c.Text() + ([','] + second);
    assert (PREFIX + first)[|PREFIX|..] == first;
    ScanNumeral(c, [','] + second);
    assert ([','] + second)[1..] == second;
    ScanNumeral(o, rest);
  }

  /** Only lines of the seek form seek. */
  lemma SeekersHaveSeekForm(line: Bytes) returns (c: Numeral, o: Numeral, rest: Bytes)
    requires DispatchOf(line).Seek?
    ensures c.Valid() && o.Valid() && (rest == [] || !IsDigit(rest[0]))
    ensures line == SeekLine(c, o, rest) && DispatchOf(line) == Seek(c.Read(), o.Read())
    ensures c.Says(DispatchOf(line).cmd) && o.Says(DispatchOf(line).offset)
  {
    hide Numeral.Read, Numeral.Text, Numeral.Says, ScanUnsigned, Numeral.Valid;
    var s := line[|PREFIX|..];
    c := ScanIsNumeral(s);
    var after := ScanUnsigned(s).rest;
    o := ScanIsNumeral(after[1..]);
    rest := ScanUnsigned(after[1..]).rest;
    c.ReadIsSaid();
    o.ReadIsSaid();
    assert after == [','] + after[1..];
    assert line == PREFIX + s;
  }

  /** A line is text exactly when it does not start with the word; of those that
      do, the ones not of the seek form are malformed. */
  lemma TextIff(line: Bytes)
    ensures DispatchOf(line).Text? <==> |line| < |PREFIX| || line[..|PREFIX|] != PREFIX
  {
  }

  function Canonical(n: nat): (w: Numeral)
    requires n < UINT32
    ensures w.Valid()
  {
    Numeral([], [], Decimal(n))
  }

  lemma CanonicalReads(n: nat)
    requires n < UINT32
    ensures Canonical(n).Text() == Decimal(n) && Canonical(n).Read() == n
  {
    ValueOfDecimal(n);
  }

  /** Printing any 32-bit request and dispatching the line gives that request
      back; the line is one command and is never taken for text. */
  lemma SeekRoundTrip(cmd: nat, offset: nat)
    requires cmd < UINT32 && offset < UINT32
    ensures DispatchOf(Print(cmd, offset)) == Seek(cmd, offset)
    ensures IsLine(Print(cmd, offset))
  {
    hide Decimal, Value, DispatchOf, ToUint32, ScanUnsigned;
    var c, o := Canonical(cmd), Canonical(offset);
    CanonicalReads(cmd);
    CanonicalReads(offset);
    SeekFormSeeks(c, o, [NEWLINE]);
    hide Numeral.Read, Numeral.Text, Canonical;
    assert Print(cmd, offset) == SeekLine(c, o, [NEWLINE]);
    PrintIsLine(cmd, offset);
  }

  lemma PrintIsLine(cmd: nat, offset: nat)
    ensures IsLine(Print(cmd, offset))
  {
    hide Decimal;
    var line := Print(cmd, offset);
    var n := |PREFIX| + |Decimal(cmd)|;
    assert line[..|line|-1] == PREFIX + Decimal(cmd) + [','] + Decimal(offset);
    forall i | 0 <= i < |line| - 1
      ensures line[i] != NEWLINE
    {
      if |PREFIX| <= i < n {
        assert line[i] == Decimal(cmd)[i - |PREFIX|];
      } else if n < i {
        assert line[i] == Decimal(offset)[i - n - 1];
      }
    }
  }
}
