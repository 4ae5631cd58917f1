/** The decimal printer for 64-bit numbers, two digits at a time from the back. */
module DecimalPrinter {
  const UINT64_RANGE: nat := 0x1_0000_0000_0000_0000

  const POWERS: seq<nat> := [
    10, 100, 1_000, 10_000, 100_000,
    1_000_000, 10_000_000, 100_000_000,
    1_000_000_000, 10_000_000_000, 100_000_000_000,
    1_000_000_000_000, 10_000_000_000_000, 100_000_000_000_000,
    1_000_000_000_000_000, 10_000_000_000_000_000, 100_000_000_000_000_000,
    1_000_000_000_000_000_000, 10_000_000_000_000_000_000]

  /** DIGIT_TABLE, the pairs 00 to 99, by rows of ten. */
  function DigitRow(tens: nat): string {
    match tens
    case 0 => "00010203040506070809"
    case 1 => "10111213141516171819"
    case 2 => "20212223242526272829"
    case 3 => "30313233343536373839"
    case 4 => "40414243444546474849"
    case 5 => "50515253545556575859"
    case 6 => "60616263646566676869"
    case 7 => "70717273747576777879"
    case 8 => "80818283848586878889"
    case _ => "90919293949596979899"
  }

  function Digit(d: nat): char
    requires d < 10
  {
    '0' + d as char
  }

  /** The decimal notation. */
  function Decimal(v: nat): (text: string)
    ensures text != []
  {
    if v < 10 then [Digit(v)] else Decimal(v / 10) + [Digit(v % 10)]
  }

  predicate IsDecimal(text: string) {
    forall i :: 0 <= i < |text| ==> '0' <= text[i] <= '9'
  }

  function Parse(text: string): nat
    requires IsDecimal(text)
  {
    if text == "" then 0 else 10 * Parse(text[..|text|-1]) + (text[|text|-1] - '0') as nat
  }

  function Power10(n: nat): (p: nat)
    ensures p > 0
  {
    if n == 0 then 1 else 10 * Power10(n - 1)
  }

  /** Reading the notation gives the number back; only zero starts with a zero. */
  lemma {:induction false} DecimalRoundTrip(v: nat)
    ensures IsDecimal(Decimal(v)) && Parse(Decimal(v)) == v
    ensures v > 0 ==> Decimal(v)[0] != '0'
  {
    if v >= 10 {
      DecimalRoundTrip(v / 10);
      var text := Decimal(v);
      assert text[..|text|-1] == Decimal(v / 10);
    } else {
      assert Decimal(v)[..0] == "";
    }
  }

  /** The number of digits says between which powers of ten the number lies. */
  lemma {:induction false} DecimalLength(v: nat)
    ensures v < Power10(|Decimal(v)|) && (v > 0 ==> Power10(|Decimal(v)| - 1) <= v)
  {
    if v >= 10 {
      DecimalLength(v / 10);
    }
  }

  lemma {:induction false} PowersAscend(a: nat, b: nat)
    requires a <= b
    ensures Power10(a) <= Power10(b)
  {
    if a < b {
      PowersAscend(a, b - 1);
    }
  }

  lemma PowersAre(i: nat)
    requires i < 19
    ensures |POWERS| == 19 && POWERS[i] == Power10(i + 1)
  {
    assert Power10(4) == 10_000 && Power10(8) == 100_000_000 && Power10(12) == 1_000_000_000_000;
    assert Power10(16) == 10_000_000_000_000_000 && Power10(19) == 10_000_000_000_000_000_000;
  }

  ghost predicate IsRow(row: string, tens: nat)
    requires tens < 10
  {
    |row| == 20 && forall u :: 0 <= u < 10 ==> row[2 * u] == Digit(tens) && row[2 * u + 1] == Digit(u)
  }

  lemma RowsHold(tens: nat)
    requires tens < 10
    ensures IsRow(DigitRow(tens), tens)
  {
    match tens
    case 0 => Row0();
    case 1 => Row1();
    case 2 => Row2();
    case 3 => Row3();
    case 4 => Row4();
    case 5 => Row5();
    case 6 => Row6();
    case 7 => Row7();
    case 8 => Row8();
    case 9 => Row9();
  }

  lemma Row0()
    ensures IsRow(DigitRow(0), 0)
  {
  }

  lemma Row1()
    ensures IsRow(DigitRow(1), 1)
  {
  }

  lemma Row2()
    ensures IsRow(DigitRow(2), 2)
  {
  }

  lemma Row3()
    ensures IsRow(DigitRow(3), 3)
  {
  }

  lemma Row4()
    ensures IsRow(DigitRow(4), 4)
  {
  }

  lemma Row5()
    ensures IsRow(DigitRow(5), 5)
  {
  }

  lemma Row6()
    ensures IsRow(DigitRow(6), 6)
  {
  }

  lemma Row7()
    ensures IsRow(DigitRow(7), 7)
  {
  }

  lemma Row8()
    ensures IsRow(DigitRow(8), 8)
  {
  }

  lemma Row9()
    ensures IsRow(DigitRow(9), 9)
  {
  }

  /** The two characters of DIGIT_TABLE for a number below 100. */
  method TablePair(r: nat) returns (tens: char, units: char)
    requires r < 100
    ensures tens == Digit(r / 10) && units == Digit(r % 10)
  {
    hide Digit, DigitRow;
    var i, j := 2 * r, 2 * r + 1;
    RowsHold(r / 10);
    assert i / 20 == j / 20 == r / 10 && i % 20 == 2 * (r % 10) && j % 20 == 2 * (r % 10) + 1;
    tens, units := DigitRow(i / 20)[i % 20], DigitRow(j / 20)[j % 20];
  }

  /** The number of decimal digits, but never more than 19. */
  method CountDigits(v: nat) returns (i: nat)
    requires v < UINT64_RANGE
    ensures i == if |Decimal(v)| < 19 then |Decimal(v)| else 19
  {
    hide Decimal;
    DecimalLength(v);
    i := 0;
    var again := true;
    while again
      invariant i <= 18 || !again
      invariant again ==> i == 0 || v >= Power10(i)
      invariant !again ==> 1 <= i <= 19 && (i > 1 ==> v >= Power10(i - 1)) && (i < 19 ==> v < Power10(i))
      decreases 19 - i, again
    {
      PowersAre(i);
      again := v >= POWERS[i];
      i := i + 1;
      again := again && i < 19;
    }
    LengthFromPowers(v, i);
  }

  lemma LengthFromPowers(v: nat, i: nat)
    requires 1 <= i <= 19 && (i > 1 ==> v >= Power10(i - 1)) && (i < 19 ==> v < Power10(i))
    ensures i == if |Decimal(v)| < 19 then |Decimal(v)| else 19
  {
    hide Power10;
    DecimalLength(v);
    var n := |Decimal(v)|;
    if n < i {
      PowersAscend(n, i - 1);
    } else if i < n && i < 19 {
      PowersAscend(i, n - 1);
    }
  }

  lemma TwoMoreDigits(v: nat)
    requires v >= 100
    ensures Decimal(v) == Decimal(v / 100) + [Digit(v % 100 / 10), Digit(v % 100 % 10)]
  {
    assert v / 10 / 10 == v / 100 && v / 10 % 10 == v % 100 / 10 && v % 100 % 10 == v % 10;
    assert Decimal(v) == Decimal(v / 10) + [Digit(v % 10)];
    assert Decimal(v / 10) == Decimal(v / 100) + [Digit(v / 10 % 10)];
  }

  lemma LastDigits(v: nat)
    requires v < 100
    ensures Decimal(v) == if v < 10 then [Digit(v)] else [Digit(v / 10), Digit(v % 10)]
  {
  }

  /** Memory holds the text from `from` on, and is otherwise as before. */
  ghost predicate Holds(memory: string, before: string, from: nat, text: string) {
    from + |text| <= |before| && memory == before[..from] + text + before[from + |text|..]
  }

  lemma PutInFront(memory: string, before: string, from: nat, text: string, c: char)
    requires from > 0 && Holds(memory, before, from, text)
    ensures Holds(memory[from - 1 := c], before, from - 1, [c] + text)
  {
  }

  lemma Resplit(front: string, a: char, b: char, text: string)
    ensures (front + [a, b]) + text == front + ([a] + ([b] + text))
    ensures [a, b] + text == [a] + ([b] + text)
  {
  }

  /**
   buffer is the place in memory that the pointer points to; there is at least one byte before it.
   The text ends where count_digits says. With up to 19 digits it starts at the buffer; the first
   of 20 digits goes to the byte before.
   */
  method Uint64ToString(value: nat, memory: array<char>, buffer: nat) returns (len: nat)
    requires value < UINT64_RANGE && 1 <= buffer && buffer + 20 <= memory.Length
    modifies memory
    ensures len == if |Decimal(value)| < 19 then |Decimal(value)| else 19
    ensures |Decimal(value)| <= len + 1
    ensures Holds(memory[..], old(memory[..]), buffer + len - |Decimal(value)|, Decimal(value) + ['\0'])
  {
    hide Decimal, Holds;
    ghost var before := memory[..];
    LengthIsAtMost20(value);
    if value == 0 {
      ZeroIsHeld(memory[..], buffer);
      memory[buffer] := '0';
      memory[buffer + 1] := '\0';
      return 1;
    }
    len := CountDigits(value);
    var cursor: int := len;
    EndIsHeld(memory[..], buffer + cursor);
    memory[buffer + cursor] := '\0';
    var rest := value;
    ghost var text: string := ['\0'];
    while rest >= 100
      invariant 0 < rest && Decimal(value) + ['\0'] == Decimal(rest) + text
      invariant cursor == len + 1 - |text| && cursor >= |Decimal(rest)| - 1
      invariant Holds(memory[..], before, buffer + cursor, text)
    {
      TwoMoreDigits(rest);
      var q := rest / 100;
      var r := rest - q * 100;
      var tens, units := TablePair(r);
      Resplit(Decimal(q), tens, units, text);
      cursor := PutPair(memory, buffer, cursor, tens, units, before, text);
      text := [tens] + ([units] + text);
      rest := q;
    }
    LastDigits(rest);
    if rest < 10 {
      PutInFront(memory[..], before, buffer + cursor, text, Digit(rest));
      cursor := cursor - 1;
      memory[buffer + cursor] := Digit(rest);
      text := [Digit(rest)] + text;
    } else {
      var tens, units := TablePair(rest);
      Resplit("", tens, units, text);
      cursor := PutPair(memory, buffer, cursor, tens, units, before, text);
      text := [tens] + ([units] + text);
    }
    assert text == Decimal(value) + ['\0'];
  }

  /** Two digits go in front of what is written. */
  method PutPair(memory: array<char>, buffer: nat, cursor: int, tens: char, units: char, ghost before: string, ghost text: string)
    returns (cursor': int)
    requires 2 <= buffer + cursor <= memory.Length && Holds(memory[..], before, buffer + cursor, text)
    modifies memory
    ensures cursor' == cursor - 2 && Holds(memory[..], before, buffer + cursor', [tens] + ([units] + text))
  {
    hide Holds;
    cursor' := cursor - 1;
    PutInFront(memory[..], before, buffer + cursor, text, units);
    memory[buffer + cursor'] := units;
    cursor' := cursor' - 1;
    PutInFront(memory[..], before, buffer + cursor - 1, [units] + text, tens);
    memory[buffer + cursor'] := tens;
  }

  lemma ZeroIsHeld(memory: string, buffer: nat)
    requires buffer + 2 <= |memory|
    ensures Holds(memory[buffer := '0'][buffer + 1 := '\0'], memory, buffer, Decimal(0) + ['\0'])
    ensures |Decimal(0)| == 1
  {
  }

  lemma EndIsHeld(memory: string, at: nat)
    requires at < |memory|
    ensures Holds(memory[at := '\0'], memory, at, ['\0'])
  {
  }

  lemma LengthIsAtMost20(v: nat)
    requires v < UINT64_RANGE
    ensures |Decimal(v)| <= 20
  {
    DecimalLength(v);
    assert Power10(8) == 100_000_000 && Power10(16) == 10_000_000_000_000_000;
    assert Power10(19) == 10_000_000_000_000_000_000;
    assert Power10(20) == 100_000_000_000_000_000_000;
    if |Decimal(v)| > 20 {
      PowersAscend(20, |Decimal(v)| - 1);
    }
  }

  /**
   The text a reader finds at the buffer, up to the terminator: the decimal notation for exactly the
   numbers below 10^19, else the last 19 digits.
   */
  lemma TextAtBuffer(value: nat, memory: string, before: string, buffer: nat, len: nat)
    requires value < UINT64_RANGE && buffer > 0 && len == (if |Decimal(value)| < 19 then |Decimal(value)| else 19)
    requires |Decimal(value)| <= buffer + len && Holds(memory, before, buffer + len - |Decimal(value)|, Decimal(value) + ['\0'])
    ensures memory[buffer + len] == '\0'
    ensures memory[buffer..buffer + len] == Decimal(value) <==> value < 10_000_000_000_000_000_000
    ensures memory[buffer..buffer + len] == Decimal(value)[|Decimal(value)| - len..]
  {
    hide Decimal, Power10;
    LastPart(memory, before, buffer + len - |Decimal(value)|, Decimal(value), len);
    IsNineteenDigits(value);
  }

  lemma LastPart(memory: string, before: string, from: nat, text: string, len: nat)
    requires len <= |text| && Holds(memory, before, from, text + ['\0'])
    ensures memory[from + |text|] == '\0' && memory[from + |text| - len..from + |text|] == text[|text| - len..]
  {
    assert memory[from..from + |text|] == text;
    assert memory[from + |text| - len..from + |text|] == memory[from..from + |text|][|text| - len..];
  }

  lemma TenToThe19()
    ensures Power10(19) == 10_000_000_000_000_000_000
  {
    assert Power10(8) == 100_000_000 && Power10(16) == 10_000_000_000_000_000;
  }

  lemma IsNineteenDigits(value: nat)
    requires value < UINT64_RANGE
    ensures |Decimal(value)| <= 20 && (|Decimal(value)| <= 19 <==> value < 10_000_000_000_000_000_000)
  {
    hide Power10;
    LengthIsAtMost20(value);
    DecimalLength(value);
    TenToThe19();
    if |Decimal(value)| <= 19 {
      PowersAscend(|Decimal(value)|, 19);
    }
  }
}
