/**
The log stream (guest-verona-rt/include/public/logging.h): a fixed buffer with a position, and
the conversion of integers to text without library support.
*/
module Logging {
  import opened Words

  const BUFFER_SIZE: nat := 1024

  /** IntegerBase */
  type Base = b: int | b == 10 || b == 16 witness 10

  // --- Digits ----------------------------------------------------------------------

  function DigitChar(digit: nat): char
    requires digit < 16
  {
    if digit < 10 then '0' + digit as char else 'a' + (digit - 10) as char
  }

  lemma DigitTable(digit: nat)
    requires digit < 16
    ensures DigitChar(digit) == "0123456789abcdef"[digit]
  {
  }

  /** Quotient and remainder by the base, with constant divisors. */
  function Over(v: nat, b: Base): (q: nat)
    ensures v > 0 ==> q < v
  {
    if b == 10 then v / 10 else v / 16
  }

  function Last(v: nat, b: Base): (r: nat)
    ensures r < b && v == Over(v, b) * b + r
  {
    if b == 10 then v % 10 else v % 16
  }

  /** The digits of a positive number, most significant first; none for 0. */
  function Digits(v: nat, b: Base): string {
    if v == 0 then [] else Digits(Over(v, b), b) + [DigitChar(Last(v, b))]
  }

  lemma LastDigit(v: nat, b: Base, suffix: string)
    requires v > 0
    ensures Digits(v, b) + suffix == Digits(Over(v, b), b) + ([DigitChar(Last(v, b))] + suffix)
    ensures |Digits(v, b)| == |Digits(Over(v, b), b)| + 1
  {
  }

  function Numeral(v: nat, b: Base): string {
    if v == 0 then "0" else Digits(v, b)
  }

  function DigitValue(c: char): nat {
    if '0' <= c <= '9' then c as nat - '0' as nat else if 'a' <= c <= 'f' then c as nat - 'a' as nat + 10 else 0
  }

  function Parse(text: string, b: Base): nat {
    if text == [] then 0 else Parse(text[..|text| - 1], b) * b + DigitValue(text[|text| - 1])
  }

  lemma {:induction false} ParseDigits(v: nat, b: Base)
    ensures Parse(Digits(v, b), b) == v
    ensures v > 0 ==> Digits(v, b) != [] && Digits(v, b)[0] != '0'
  {
    if v > 0 {
      var rest := Digits(Over(v, b), b);
      ParseDigits(Over(v, b), b);
      assert Digits(v, b)[..|rest|] == rest;
    }
  }

  /** What is printed parses back to the value, and has no leading zero. */
  lemma NumeralRoundTrip(v: nat, b: Base)
    ensures Parse(Numeral(v, b), b) == v
    ensures |Numeral(v, b)| > 1 ==> Numeral(v, b)[0] != '0'
    ensures forall c :: c in Numeral(v, b) ==> DigitValue(c) < b && DigitChar(DigitValue(c)) == c
  {
    ParseDigits(v, b);
    DigitsOnly(v, b);
    assert Parse("0"[..0], b) == 0;
  }

  lemma {:induction false} DigitsOnly(v: nat, b: Base)
    ensures forall c :: c in Digits(v, b) ==> DigitValue(c) < b && DigitChar(DigitValue(c)) == c
  {
    if v > 0 { DigitsOnly(Over(v, b), b); }
  }

  function Power(b: nat, n: nat): nat {
    if n == 0 then 1 else b * Power(b, n - 1)
  }

  lemma {:induction false} DigitsShort(v: nat, b: Base, n: nat)
    requires v < Power(b, n)
    ensures |Digits(v, b)| <= n
  {
    if v > 0 && n > 0 {
      assert Over(v, b) < Power(b, n - 1);
      DigitsShort(Over(v, b), b, n - 1);
    }
  }

  /** The space that is checked up front is enough: 16 hexadecimal digits, 19 or 20 decimal ones. */
  lemma NumeralLength(v: Word)
    ensures |Numeral(v, 16)| <= 16
    ensures |Numeral(v, 10)| <= 20
    ensures v <= 0x8000_0000_0000_0000 ==> |Numeral(v, 10)| <= 19
  {
    assert Power(16, 8) == 0x1_0000_0000;
    assert Power(10, 10) == 10_000_000_000;
    PowerSum(16, 8, 8);
    PowerSum(10, 10, 10);
    PowerSum(10, 10, 9);
    assert Power(10, 9) == 1_000_000_000;
    DigitsShort(v, 16, 16);
    DigitsShort(v, 10, 20);
    if v <= 0x8000_0000_0000_0000 { DigitsShort(v, 10, 19); }
  }

  lemma {:induction false} PowerSum(b: nat, m: nat, n: nat)
    ensures Power(b, m + n) == Power(b, m) * Power(b, n)
  {
    if m > 0 {
      PowerSum(b, m - 1, n);
      assert b * (Power(b, m - 1) * Power(b, n)) == (b * Power(b, m - 1)) * Power(b, n);
    }
  }

  // --- What each write adds --------------------------------------------------------

  datatype Item =
    | Text(text: string)
    | Pointer(address: Word)
    | SignedInteger(value: int)
    | UnsignedInteger(number: Word)

  predicate IsInt64(value: int) {
    -0x8000_0000_0000_0000 <= value < 0x8000_0000_0000_0000
  }

  function SignedNumeral(value: int): string {
    if value < 0 then "-" + Numeral(-value, 10) else Numeral(value, 10)
  }

  function ParseSigned(text: string): int {
    if text != [] && text[0] == '-' then 0 - Parse(text[1..], 10) else Parse(text, 10)
  }

  /** A string is cut to the space left; a number is written whole, or not at all for lack of space. */
  function Written(content: string, item: Item): string {
    var space := BUFFER_SIZE - |content|;
    match item
    case Text(text) => if |text| <= space then content + text else content + text[..if space < 0 then 0 else space]
    case Pointer(address) => if space < 18 then content else content + "0x" + Numeral(address, 16)
    case SignedInteger(value) => if space < 20 then content else content + SignedNumeral(value)
    case UnsignedInteger(number) => if space < 20 then content else content + Numeral(number, 10)
  }

  /** Every write only extends the text and stays within the buffer. */
  lemma WriteExtends(content: string, item: Item)
    requires |content| <= BUFFER_SIZE && (item.SignedInteger? ==> IsInt64(item.value))
    ensures content <= Written(content, item) && |Written(content, item)| <= BUFFER_SIZE
  {
    match item
    case Pointer(address) => NumeralLength(address);
    case SignedInteger(value) => NumeralLength(if value < 0 then -value else value);
    case UnsignedInteger(number) => NumeralLength(number);
    case Text(_) =>
  }

  /** A signed number parses back, its sign included. */
  lemma SignedRoundTrip(value: int)
    ensures var text := SignedNumeral(value);
            && text != []
            && (text[0] == '-' <==> value < 0)
            && value == ParseSigned(text)
  {
    var size := if value < 0 then -value else value;
    NumeralRoundTrip(size, 10);
    ParseDigits(size, 10);
    assert Numeral(size, 10)[0] in Numeral(size, 10);
    if value < 0 { assert ("-" + Numeral(-value, 10))[1..] == Numeral(-value, 10); }
  }

  /** What comes after the earlier text parses to the value. */
  predicate AddsSigned(before: string, after: string, value: int) {
    |after| > |before| && after[..|before|] == before && ParseSigned(after[|before|..]) == value
  }

  lemma SignedText(before: string, value: int)
    ensures before + SignedNumeral(value)
         == before + (if value < 0 then "-" else "") + Numeral(if value < 0 then -value else value, 10)
    ensures AddsSigned(before, before + SignedNumeral(value), value)
  {
    SignedRoundTrip(value);
    assert (before + SignedNumeral(value))[|before|..] == SignedNumeral(value);
  }

  class LoggerStream {
    const buffer: array<char>
    var position: nat

    ghost predicate Valid()
      reads this`position
    {
      buffer.Length == BUFFER_SIZE && position <= BUFFER_SIZE
    }

    ghost function Contents(): string
      requires Valid()
      reads this`position, buffer
    {
      buffer[..position]
    }

    constructor ()
      ensures Valid() && Contents() == [] && fresh(buffer)
    {
      buffer := new char[BUFFER_SIZE](_ => '\0');
      position := 0;
    }

    function RemainingSpace(): nat
      requires Valid()
      reads this`position
    {
      buffer.Length - position
    }

    method Append(input: string) returns (ok: bool)
      requires Valid()
      modifies this`position, buffer
      ensures Valid() && ok == (|input| <= BUFFER_SIZE - |old(Contents())|)
      ensures Contents() == if ok then old(Contents()) + input else old(Contents())
    {
      if RemainingSpace() < |input| { return false; }
      for i := 0 to |input|
        invariant position == old(position)
        invariant buffer[..position] == old(buffer[..position])
        invariant buffer[position..position + i] == input[..i]
      {
        buffer[position + i] := input[i];
      }
      assert buffer[..position + |input|] == buffer[..position] + buffer[position..position + |input|];
      position := position + |input|;
      return true;
    }

    /** The start of the reserved range; nothing is reserved if it does not fit. */
    method Reserve(size: nat) returns (ok: bool, start: nat)
      requires Valid()
      modifies this`position
      ensures Valid() && ok == (size <= BUFFER_SIZE - old(position)) && start == old(position)
      ensures position == if ok then old(position) + size else old(position)
    {
      start := position;
      if RemainingSpace() < size { return false, start; }
      position := position + size;
      return true, start;
    }

    static method CountDigits(value: Word, b: Base) returns (n: nat)
      ensures n == |Digits(value, b)|
    {
      n := 0;
      var rest: nat := value;
      while rest != 0
        invariant n + |Digits(rest, b)| == |Digits(value, b)|
      {
        n := n + 1;
        rest := Over(rest, b);
      }
    }

    /** Fills a reserved range from its end. */
    method FillDigits(value: Word, b: Base, start: nat, n: nat)
      requires Valid() && start + n == position && n == |Digits(value, b)|
      modifies buffer
      ensures Contents() == old(buffer[..start]) + Digits(value, b)
    {
      var current, rest: nat := start + n, value;
      while rest != 0
        invariant current == start + |Digits(rest, b)| && start <= current <= start + n
        invariant Digits(rest, b) + buffer[current..start + n] == Digits(value, b)
        invariant buffer[..start] == old(buffer[..start])
      {
        current := current - 1;
        ghost var suffix := buffer[current + 1..start + n];
        LastDigit(rest, b, suffix);
        buffer[current] := DigitChar(Last(rest, b));
        assert buffer[current..start + n] == [DigitChar(Last(rest, b))] + suffix;
        rest := Over(rest, b);
      }
      assert buffer[..start + n] == buffer[..start] + buffer[start..start + n];
    }

    method LogU64(value: Word, b: Base)
      requires Valid()
      modifies this`position, buffer
      ensures Valid()
      ensures Contents() == if |Numeral(value, b)| <= BUFFER_SIZE - |old(Contents())|
                            then old(Contents()) + Numeral(value, b) else old(Contents())
    {
      if value == 0 {
        var _ := Append("0");
        return;
      }
      var n := CountDigits(value, b);
      var ok, start := Reserve(n);
      if !ok { return; }
      FillDigits(value, b, start, n);
    }

    method PutText(text: string)
      requires Valid()
      modifies this`position, buffer
      ensures Valid() && Contents() == Written(old(Contents()), Text(text))
      ensures exists k: nat :: k <= |text| && Contents() == old(Contents()) + text[..k] &&
                               (k == |text| || |Contents()| == BUFFER_SIZE)
    {
      var length := |text|;
      if length > RemainingSpace() { length := RemainingSpace(); }
      var _ := Append(text[..length]);
      assert Contents() == old(Contents()) + text[..length];
    }

    method PutPointer(address: Word)
      requires Valid()
      modifies this`position, buffer
      ensures Valid() && Contents() == Written(old(Contents()), Pointer(address))
      ensures var old' := old(Contents());
              if |old'| + 18 > BUFFER_SIZE then Contents() == old'
              else |Contents()| > |old'| + 2 && Contents()[..|old'| + 2] == old' + "0x" &&
                   Parse(Contents()[|old'| + 2..], 16) == address
    {
      if RemainingSpace() < 18 { return; }
      NumeralLength(address);
      NumeralRoundTrip(address, 16);
      var _ := Append("0x");
      LogU64(address, 16);
      assert Contents()[|old(Contents())| + 2..] == Numeral(address, 16);
    }

    method PutSigned(value: int)
      requires Valid() && IsInt64(value)
      modifies this`position, buffer
      ensures Valid() && Contents() == Written(old(Contents()), SignedInteger(value))
      ensures if |old(Contents())| + 20 > BUFFER_SIZE then Contents() == old(Contents())
              else AddsSigned(old(Contents()), Contents(), value)
    {
      if RemainingSpace() < 20 { return; }
      SignedText(old(Contents()), value);
      PutSign(value);
      var positive: Word := if value >= 0 then value else Wrap(-value);
      NumeralLength(positive);
      LogU64(positive, 10);
    }

    method PutSign(value: int)
      requires Valid() && |Contents()| + 20 <= BUFFER_SIZE
      modifies this`position, buffer
      ensures Valid() && Contents() == old(Contents()) + if value < 0 then "-" else ""
    {
      if value < 0 {
        var _ := Append("-");
      }
    }

    method PutUnsigned(number: Word)
      requires Valid()
      modifies this`position, buffer
      ensures Valid() && Contents() == Written(old(Contents()), UnsignedInteger(number))
      ensures var old' := old(Contents());
              if |old'| + 20 > BUFFER_SIZE then Contents() == old'
              else |Contents()| > |old'| && Contents()[..|old'|] == old' && Parse(Contents()[|old'|..], 10) == number
    {
      if RemainingSpace() < 20 { return; }
      NumeralLength(number);
      NumeralRoundTrip(number, 10);
      LogU64(number, 10);
      assert Contents()[|old(Contents())|..] == Numeral(number, 10);
    }

    /** The entry that is output; the buffer starts over. */
    method Flush() returns (entry: string)
      requires Valid()
      modifies this`position
      ensures Valid() && entry == old(Contents()) && Contents() == []
    {
      entry := buffer[..position];
      position := 0;
    }
  }

  // --- Runs of writes --------------------------------------------------------------

  function WrittenAll(content: string, items: seq<Item>): string {
    if items == [] then content else Written(WrittenAll(content, items[..|items| - 1]), items[|items| - 1])
  }

  /** Over any sequence of writes the position stays in the buffer and earlier text is never changed. */
  lemma {:induction false} WritesOnlyExtend(content: string, items: seq<Item>, k: nat)
    requires |content| <= BUFFER_SIZE && k <= |items|
    requires forall item :: item in items && item.SignedInteger? ==> IsInt64(item.value)
    ensures |WrittenAll(content, items)| <= BUFFER_SIZE
    ensures WrittenAll(content, items[..k]) <= WrittenAll(content, items)
    decreases |items|
  {
    if items != [] {
      var shorter := items[..|items| - 1];
      WritesOnlyExtend(content, shorter, if k < |items| then k else k - 1);
      WriteExtends(WrittenAll(content, shorter), items[|items| - 1]);
      if k < |items| { assert shorter[..k] == items[..k]; } else { assert items[..k] == items; }
    }
  }
}
