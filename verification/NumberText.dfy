/** Printing numbers in bases 2 to 36 (src/common/util.c). */
module NumberText {
  import opened Wrappers
  import PhysicalMemory

  // ----- C arithmetic

  /** `a / b` and `a % b` truncate toward zero. */
  function Div(a: int, b: int): int
    requires b > 0
  {
    if a >= 0 then a / b else -((-a) / b)
  }

  function Mod(a: int, b: int): int
    requires b > 0
  {
    if a >= 0 then a % b else -((-a) % b)
  }

  /** `-num` in a signed type whose least value is -half. */
  function Negated(num: int, half: int): int {
    if num == -half then num else -num
  }

  function Abs(n: int): nat {
    if n < 0 then -n else n
  }

  // ----- Digits

  /** The character a digit is printed as; a negative digit gives a character below '0'. */
  function DigitChar(digit: int): char
    requires -36 < digit < 36
  {
    if digit > 9 then ('A' as int + digit - 10) as char else ('0' as int + digit) as char
  }

  /** The digits of a number, the lowest first. */
  function Low(n: int, base: int): (digits: seq<char>)
    requires 2 <= base <= 36
    ensures digits != []
    decreases Abs(n)
  {
    Shrinks(n, base);
    [DigitChar(Mod(n, base))] + if Div(n, base) == 0 then [] else Low(Div(n, base), base)
  }

  lemma Shrinks(n: int, base: int)
    requires base >= 2
    ensures -base < Mod(n, base) < base
    ensures Abs(Div(n, base)) * 2 <= Abs(n) && (Abs(n) > 0 ==> Abs(Div(n, base)) < Abs(n))
    ensures n >= 0 ==> Div(n, base) >= 0 && Mod(n, base) >= 0
    ensures n <= 0 ==> Div(n, base) <= 0 && Mod(n, base) <= 0
    ensures Div(n, base) == 0 ==> Mod(n, base) == n
  {
    Halves(Abs(n), base);
  }

  lemma Halves(m: nat, base: int)
    requires base >= 2
    ensures 0 <= m / base * 2 <= m && 0 <= m % base < base
    ensures m / base == 0 ==> m % base == m
  {
    QuotientLess(m, base, 2);
  }

  lemma QuotientLess(m: nat, base: int, least: int)
    requires 0 < least <= base
    ensures m / base * least <= m && m == m / base * base + m % base
    ensures m / base == 0 ==> m % base == m
  {
    var q := m / base;
    assert m == base * q + m % base;
    Product(q, least, base);
  }

  lemma {:induction false} Product(q: nat, a: int, b: int)
    requires a <= b
    ensures q * a <= q * b == b * q
  {
    if q > 0 {
      Product(q - 1, a, b);
      assert q * a == (q - 1) * a + a && q * b == (q - 1) * b + b;
    }
  }

  function Reversed<T>(s: seq<T>): (r: seq<T>)
    ensures |r| == |s| && forall i | 0 <= i < |s| :: r[i] == s[|s| - 1 - i]
  {
    if s == [] then [] else Reversed(s[1..]) + [s[0]]
  }

  /** What the unsigned printers write. */
  function Text(num: nat, base: int): (text: seq<char>)
    requires 2 <= base <= 36
  {
    Reversed(Low(num, base))
  }

  /** What the signed printers write. */
  function SignedText(num: int, base: int, half: int): (text: seq<char>)
    requires 2 <= base <= 36
  {
    if num < 0 then Reversed(Low(Negated(num, half), base) + ['-']) else Reversed(Low(num, base))
  }

  // ----- Reading a number back

  function DigitValue(c: char, base: int): Option<nat> {
    var d := if '0' <= c <= '9' then c as int - '0' as int
             else if 'A' <= c <= 'Z' then c as int - 'A' as int + 10
             else 36;
    if d < base then Some(d) else None
  }

  function Parse(s: seq<char>, base: int): Option<nat> {
    if s == [] then Some(0) else
    var head, last := Parse(s[..|s| - 1], base), DigitValue(s[|s| - 1], base);
    if head == None || last == None then None else Some(head.value * base + last.value)
  }

  function ParseSigned(s: seq<char>, base: int): Option<int> {
    if s != [] && s[0] == '-' then
      var n := Parse(s[1..], base);
      if n == None then None else Some(0 - n.value)
    else
      var n := Parse(s, base);
      if n == None then None else Some(n.value)
  }

  lemma DigitBack(digit: int, base: int)
    requires -base < digit < base && 2 <= base <= 36
    ensures DigitValue(DigitChar(digit), base) == if digit >= 0 then Some(digit) else None
    ensures DigitChar(digit) == '0' <==> digit == 0
    ensures digit >= 0 ==> DigitChar(digit) != '-'
  {}

  lemma DigitChars(digit: nat)
    requires digit < 36
    ensures DigitChar(digit) == "0123456789ABCDEFGHIJKLMNOPQRSTUVWXYZ"[digit]
  {}

  lemma ReversedStep(s: seq<char>)
    requires s != []
    ensures Reversed(s) == Reversed(s[1..]) + [s[0]] && Reversed(s)[..|s| - 1] == Reversed(s[1..])
    ensures |Reversed(s)| == |s| && Reversed(s)[|s| - 1] == s[0]
  {}

  /** Main result. Reading the printed digits gives the number back. */
  lemma {:induction false} ParseText(num: nat, base: int)
    requires 2 <= base <= 36
    ensures Parse(Text(num, base), base) == Some(num)
    decreases num
  {
    hide DigitValue, DigitChar, Reversed, Low, Div, Mod;
    Shrinks(num, base);
    DivModOf(num, base);
    DigitBack(Mod(num, base), base);
    LowSteps(num, base);
    ParseStep(Low(num, base), base);
    if Div(num, base) > 0 {
      ParseText(Div(num, base), base);
    }
  }

  lemma DivModOf(num: nat, base: int)
    requires base >= 2
    ensures num == Div(num, base) * base + Mod(num, base)
  {
    QuotientLess(num, base, 2);
  }

  lemma LowSteps(num: int, base: int)
    requires 2 <= base <= 36
    ensures Low(num, base) != [] && Low(num, base)[0] == DigitChar(Mod(num, base))
    ensures Low(num, base)[1..] == if Div(num, base) == 0 then [] else Low(Div(num, base), base)
  {}

  /** Reading digits written lowest first: the first of them counts least. */
  lemma ParseStep(low: seq<char>, base: int)
    requires low != []
    ensures var higher, last := Parse(Reversed(low[1..]), base), DigitValue(low[0], base);
            Parse(Reversed(low), base) ==
            if higher == None || last == None then None else Some(higher.value * base + last.value)
  {
    hide DigitValue, Reversed, Parse;
    ReversedStep(low);
    ParseLast(Reversed(low), base);
  }

  lemma ParseLast(s: seq<char>, base: int)
    requires s != []
    ensures var higher, last := Parse(s[..|s| - 1], base), DigitValue(s[|s| - 1], base);
            Parse(s, base) == if higher == None || last == None then None else Some(higher.value * base + last.value)
  {}

  /** A digit below zero spoils the text. */
  lemma {:induction false} NegativeSpoils(num: int, base: int)
    requires 2 <= base <= 36 && num < 0
    ensures Parse(Reversed(Low(num, base)), base) == None
    decreases Abs(num)
  {
    Shrinks(num, base);
    DigitBack(Mod(num, base), base);
    ReversedStep(Low(num, base));
    if Div(num, base) != 0 {
      assert Low(num, base)[1..] == Low(Div(num, base), base);
      NegativeSpoils(Div(num, base), base);
    }
  }

  /** The first character printed is '0' only for 0, and never '-'. */
  lemma {:induction false} NoLeadingZero(num: nat, base: int)
    requires 2 <= base <= 36
    ensures Text(num, base)[0] == '0' <==> num == 0
    ensures num == 0 ==> Text(num, base) == ['0']
    ensures Text(num, base)[0] != '-'
    decreases num
  {
    Shrinks(num, base);
    DigitBack(Mod(num, base), base);
    if Div(num, base) != 0 {
      NoLeadingZero(Div(num, base), base);
      assert Low(num, base)[1..] == Low(Div(num, base), base);
    }
  }

  /** Main result. Reading the text of a signed number gives it back if and only if it is not the least value of
      its type, whose negation overflows. */
  lemma ParseSignedText(num: int, base: int, half: int)
    requires 2 <= base <= 36 && half > 0 && -half <= num < half
    ensures ParseSigned(SignedText(num, base, half), base) == Some(num) <==> num != -half
  {
    if num >= 0 {
      NoLeadingZero(num, base);
      ParseText(num, base);
    } else {
      var low := Low(Negated(num, half), base);
      assert Reversed(low + ['-'])[1..] == Reversed(low);
      if num == -half {
        NegativeSpoils(num, base);
      } else {
        ParseText(-num, base);
      }
    }
  }

  // ----- How long a text is

  lemma {:induction false} LowLength(n: int, base: int, bits: nat)
    requires 2 <= base <= 36 && bits > 0 && Abs(n) <= PhysicalMemory.Ones(bits)
    ensures |Low(n, base)| <= bits
    decreases bits
  {
    Shrinks(n, base);
    if Div(n, base) != 0 {
      assert PhysicalMemory.Ones(bits) == PhysicalMemory.Ones(bits - 1) * 2 + 1;
      LowLength(Div(n, base), base, bits - 1);
    }
  }

  lemma {:induction false} LowBits(n: int, bits: nat)
    requires Abs(n) > PhysicalMemory.Ones(bits)
    ensures |Low(n, 2)| > bits
    decreases bits
  {
    Shrinks(n, 2);
    if bits > 0 {
      assert PhysicalMemory.Ones(bits) == PhysicalMemory.Ones(bits - 1) * 2 + 1;
      LowBits(Div(n, 2), bits - 1);
    }
  }

  /** An unsigned number of `bits` bits and its terminator fit bits + 1 characters. */
  lemma TextFits(num: nat, base: int, bits: nat)
    requires 2 <= base <= 36 && bits > 0 && num <= PhysicalMemory.Ones(bits)
    ensures |Text(num, base)| + 1 <= bits + 1
  {
    LowLength(num, base, bits);
  }

  /** A signed number of `bits` bits, its sign and its terminator fit bits + 1 characters if and only if it is not
      the least value printed in base 2. */
  lemma SignedTextFits(num: int, base: int, bits: nat)
    requires 2 <= base <= 36 && bits > 1
    requires var half := PhysicalMemory.Ones(bits - 1) + 1;
             -half <= num < half
    ensures var half := PhysicalMemory.Ones(bits - 1) + 1;
            |SignedText(num, base, half)| + 1 <= bits + 1 <==> !(num == -half && base == 2)
  {
    var half := PhysicalMemory.Ones(bits - 1) + 1;
    if num > -half {
      LowLength(num, base, bits - 1);
      LowLength(-num, base, bits - 1);
    } else if base == 2 {
      LowBits(num, bits - 1);
    } else {
      LeastLength(num, base, bits);
    }
  }

  lemma LeastLength(num: int, base: int, bits: nat)
    requires 3 <= base <= 36 && bits > 1 && num == -(PhysicalMemory.Ones(bits - 1) + 1)
    ensures |Low(num, base)| <= bits - 1
  {
    Shrinks(num, base);
    QuotientLess(Abs(num), base, 3);
    if Div(num, base) != 0 {
      assert PhysicalMemory.Ones(bits - 1) == PhysicalMemory.Ones(bits - 2) * 2 + 1;
      LowLength(Div(num, base), base, bits - 2);
    }
  }

  /** The buffers of console_print_u32 and console_print_u64, 33 and 65 characters, hold every number. */
  lemma BuffersHold(num: nat, base: int)
    requires 2 <= base <= 36
    ensures num < 0x1_0000_0000 ==> |Text(num, base)| + 1 <= 33
    ensures num < 0x1_0000_0000_0000_0000 ==> |Text(num, base)| + 1 <= 65
  {
    WordOnes();
    if num < 0x1_0000_0000 {
      TextFits(num, base, 32);
    }
    if num < 0x1_0000_0000_0000_0000 {
      TextFits(num, base, 64);
    }
  }

  lemma WordOnes()
    ensures PhysicalMemory.Ones(31) == 0x7FFF_FFFF && PhysicalMemory.Ones(32) == 0xFFFF_FFFF
    ensures PhysicalMemory.Ones(63) == 0x7FFF_FFFF_FFFF_FFFF && PhysicalMemory.Ones(64) == 0xFFFF_FFFF_FFFF_FFFF
  {
    assert PhysicalMemory.Ones(8) == 255;
    PhysicalMemory.OnesStep(8);
    PhysicalMemory.OnesStep(16);
    PhysicalMemory.OnesStep(24);
    PhysicalMemory.FullIsOnes();
    assert PhysicalMemory.Ones(32) == PhysicalMemory.Ones(31) * 2 + 1;
    assert PhysicalMemory.Ones(64) == PhysicalMemory.Ones(63) * 2 + 1;
  }

  /** The buffers of console_print_i32 and console_print_i64 hold every number but the least one in base 2. */
  lemma SignedBuffersHold(num: int, base: int)
    requires 2 <= base <= 36
    ensures -0x8000_0000 <= num < 0x8000_0000 ==>
              (|SignedText(num, base, 0x8000_0000)| + 1 <= 33 <==> !(num == -0x8000_0000 && base == 2))
    ensures -0x8000_0000_0000_0000 <= num < 0x8000_0000_0000_0000 ==>
              (|SignedText(num, base, 0x8000_0000_0000_0000)| + 1 <= 65 <==>
                 !(num == -0x8000_0000_0000_0000 && base == 2))
  {
    WordOnes();
    if -0x8000_0000 <= num < 0x8000_0000 {
      SignedTextFits(num, base, 32);
    }
    if -0x8000_0000_0000_0000 <= num < 0x8000_0000_0000_0000 {
      SignedTextFits(num, base, 64);
    }
  }

  // ----- The printers

  /** string_reverse: swaps in place from both ends. */
  method ReverseInPlace(buffer: array<char>, size: nat)
    requires size <= buffer.Length
    modifies buffer
    ensures buffer[..] == Reversed(old(buffer[..size])) + old(buffer[size..])
  {
    ghost var before := buffer[..];
    var j := 0;
    while j < size / 2
      invariant 0 <= j <= size / 2
      invariant forall k | 0 <= k < buffer.Length :: buffer[k] == TurnedAt(before, size, j, k)
    {
      ghost var previous := buffer[..];
      assert previous[j] == TurnedAt(before, size, j, j) && previous[size - j - 1] ==
               TurnedAt(before, size, j, size - j - 1);
      buffer[j], buffer[size - j - 1] := buffer[size - j - 1], buffer[j];
      j := j + 1;
      forall k | 0 <= k < buffer.Length
        ensures buffer[k] == TurnedAt(before, size, j, k)
      {
        assert previous[k] == TurnedAt(before, size, j - 1, k);
      }
    }
    AllTurned(before, size, buffer[..]);
  }

  /** What position `k` holds when the outer `j` pairs of the first `size` have been swapped. */
  ghost function TurnedAt(s: seq<char>, size: nat, j: nat, k: nat): char
    requires size <= |s| && j <= size / 2 && k < |s|
  {
    if k < j || size - j <= k < size then s[size - 1 - k] else s[k]
  }

  lemma AllTurned(s: seq<char>, size: nat, s': seq<char>)
    requires size <= |s| == |s'|
    requires forall k | 0 <= k < |s| :: s'[k] == TurnedAt(s, size, size / 2, k)
    ensures s' == Reversed(s[..size]) + s[size..]
  {
    var turned := Reversed(s[..size]) + s[size..];
    forall k | 0 <= k < |s|
      ensures s'[k] == turned[k]
    {
      assert s'[k] == TurnedAt(s, size, size / 2, k);
      if k < size {
        assert turned[k] == Reversed(s[..size])[k] == s[..size][size - 1 - k];
      }
    }
  }

  /** The do/while digit loop, the lowest digit first. */
  method WriteDigits(destination: array<char>, num: int, base: int) returns (i: nat)
    requires 2 <= base <= 36 && |Low(num, base)| <= destination.Length
    modifies destination
    ensures i == |Low(num, base)| && destination[..i] == Low(num, base)
  {
    var rest, more := num, true;
    i := 0;
    while more
      invariant i <= destination.Length && (more || rest == 0)
      invariant destination[..i] + Remaining(rest, base, more) == Low(num, base)
      decreases more, Abs(rest)
    {
      assert |Low(num, base)| == i + |Low(rest, base)|;
      rest := WriteDigit(destination, i, rest, base);
      i := i + 1;
      more := rest != 0;
    }
  }

  /** One turn: the lowest digit is written and divided off. */
  method WriteDigit(destination: array<char>, i: nat, num: int, base: int) returns (rest: int)
    requires 2 <= base <= 36 && i < destination.Length
    modifies destination
    ensures destination[..i + 1] + Remaining(rest, base, rest != 0) == old(destination[..i]) + Low(num, base)
    ensures rest == 0 || Abs(rest) < Abs(num)
  {
    RemainingStep(destination[..i], num, base);
    Shrinks(num, base);
    destination[i] := DigitChar(Mod(num, base));
    rest := Div(num, base);
  }

  /** The digits the loop has still to write. */
  ghost function Remaining(n: int, base: int, more: bool): seq<char>
    requires 2 <= base <= 36
  {
    if more then Low(n, base) else []
  }

  lemma RemainingStep(written: seq<char>, n: int, base: int)
    requires 2 <= base <= 36
    ensures -base < Mod(n, base) < base
    ensures written + Low(n, base) == written + [DigitChar(Mod(n, base))] + Remaining(Div(n, base), base,
            Div(n, base) != 0)
  {
    Shrinks(n, base);
  }

  /** string_from_u32 and string_from_u64. */
  method FromUnsigned(destination: array<char>, num: nat, base: int) returns (length: nat)
    requires 2 <= base <= 36 && |Text(num, base)| < destination.Length
    modifies destination
    ensures length == |Text(num, base)|
    ensures destination[..length] == Text(num, base) && destination[length] == '\0'
  {
    length := WriteDigits(destination, num, base);
    ReverseInPlace(destination, length);
    destination[length] := '\0';
  }

  /** `destination[length++] = '-'`. */
  method AppendSign(destination: array<char>, length: nat) returns (length': nat)
    requires length < destination.Length
    modifies destination
    ensures length' == length + 1 && destination[..length'] == old(destination[..length]) + ['-']
  {
    destination[length] := '-';
    length' := length + 1;
  }

  /** string_from_i32 with half 2^31, string_from_i64 with half 2^63. */
  method FromSigned(destination: array<char>, num: int, base: int, half: int) returns (length: nat)
    requires 2 <= base <= 36 && half > 0 && -half <= num < half
    requires |SignedText(num, base, half)| < destination.Length
    modifies destination
    ensures length == |SignedText(num, base, half)|
    ensures destination[..length] == SignedText(num, base, half) && destination[length] == '\0'
  {
    var isSigned := num < 0;
    var rest := if isSigned then Negated(num, half) else num;
    length := WriteDigits(destination, rest, base);
    if isSigned {
      length := AppendSign(destination, length);
    }
    ReverseInPlace(destination, length);
    destination[length] := '\0';
  }
}
