/**
  The one command a client can send instead of data (decode_ioctl_command): a fixed prefix,
  then two numbers that `sscanf` reads with the format "%u,%u".
 */
module SeekCommand {
  import opened ByteStrings
  import opened MachineInts

  const COMMA: byte := 44
  const PLUS: byte := 43
  const MINUS: byte := 45
  const SPACE: byte := 32
  const ZERO: byte := 48

  /** "AESDCHAR_IOCSEEKTO:" */
  const PREFIX: Bytes :=
    [65, 69, 83, 68, 67, 72, 65, 82, 95, 73, 79, 67, 83, 69, 69, 75, 84, 79, 58]

  datatype Seek = Seek(command: uint32, offset: uint32)

  predicate IsDigit(b: byte) {
    ZERO <= b <= ZERO + 9
  }

  /** isspace in the C locale. */
  predicate IsSpace(b: byte) {
    b == SPACE || 9 <= b <= 13
  }

  predicate AllDigits(s: Bytes) {
    forall i :: 0 <= i < |s| ==> IsDigit(s[i])
  }

  predicate AllSpaces(s: Bytes) {
    forall i :: 0 <= i < |s| ==> IsSpace(s[i])
  }

  predicate StartsWithDigit(s: Bytes) {
    s != [] && IsDigit(s[0])
  }

  function SpaceCount(s: Bytes): (n: nat)
    ensures n <= |s| && AllSpaces(s[..n])
    ensures n < |s| ==> !IsSpace(s[n])
  {
    if s == [] || !IsSpace(s[0]) then 0
    else
      var n := SpaceCount(s[1..]) + 1;
      assert s[..n] == [s[0]] + s[1..][..n - 1];
      n
  }

  function DigitCount(s: Bytes): (n: nat)
    ensures n <= |s| && AllDigits(s[..n])
    ensures n < |s| ==> !IsDigit(s[n])
  {
    if s == [] || !IsDigit(s[0]) then 0
    else
      var n := DigitCount(s[1..]) + 1;
      assert s[..n] == [s[0]] + s[1..][..n - 1];
      n
  }

  function SignCount(s: Bytes): (n: nat)
    ensures n <= |s|
  {
    if s != [] && (s[0] == PLUS || s[0] == MINUS) then 1 else 0
  }

  /** The number that decimal digits spell. */
  function Decimal(digits: Bytes): nat
    requires AllDigits(digits)
  {
    if digits == [] then 0
    else 10 * Decimal(digits[..|digits| - 1]) + (digits[|digits| - 1] as int - ZERO as int)
  }

  /**
    What `%u` stores.  The conversion is the one of `strtoul` on a 64-bit `unsigned long`:
    too large a magnitude becomes the largest value, a minus sign negates; the result is then
    cut to an `unsigned int`.
   */
  function Stored(negative: bool, magnitude: nat): uint32 {
    var long := if magnitude >= SIZE_MODULUS then SIZE_MODULUS - 1
                else if negative && magnitude > 0 then SIZE_MODULUS - magnitude
                else magnitude;
    long % UINT_MODULUS
  }

  /** The characters that the command and its numbers are made of, in ASCII. */
  lemma Characters(b: byte)
    ensures IsDigit(b) <==> '0' as int <= b as int <= '9' as int
    ensures IsSpace(b) <==> b as int in {9, 10, 11, 12, 13, ' ' as int}
    ensures PLUS as int == '+' as int && MINUS as int == '-' as int && COMMA as int == ',' as int
  {
  }

  // ---------- what the digits and the sign mean ----------

  function Pow10(k: nat): nat {
    if k == 0 then 1 else 10 * Pow10(k - 1)
  }

  /** A digit spells itself. */
  lemma DecimalOfDigit(d: byte)
    requires d <= 9
    ensures Decimal([48 + d]) == d as int
  {
  }

  /** Digits in front of others count as many times ten as there are digits behind them. */
  lemma {:induction false} DecimalAppend(a: Bytes, b: Bytes)
    requires AllDigits(a) && AllDigits(b)
    ensures AllDigits(a + b) && Decimal(a + b) == Decimal(a) * Pow10(|b|) + Decimal(b)
    decreases |b|
  {
    if b == [] {
      assert a + b == a;
    } else {
      var front, last := b[..|b| - 1], b[|b| - 1];
      assert (a + b)[..|a + b| - 1] == a + front && (a + b)[|a + b| - 1] == last;
      DecimalAppend(a, front);
      TimesTen(Decimal(a), Pow10(|front|), Decimal(front));
      assert Pow10(|b|) == 10 * Pow10(|front|);
    }
  }

  lemma TimesTen(x: nat, p: nat, y: nat)
    ensures 10 * (x * p + y) == x * (10 * p) + 10 * y
  {
  }

  /** The positional sum: each digit times the power of ten of its place. */
  function PlaceSum(digits: Bytes, k: nat): nat
    requires AllDigits(digits) && k <= |digits|
  {
    if k == 0 then 0
    else PlaceSum(digits, k - 1) + (digits[k - 1] as int - '0' as int) * Pow10(|digits| - k)
  }

  /** What any digits spell, leading zeros included, is their positional sum. */
  lemma DecimalIsPlaceSum(digits: Bytes)
    requires AllDigits(digits)
    ensures Decimal(digits) == PlaceSum(digits, |digits|)
  {
    DecimalOfFront(digits, |digits|);
    assert digits[..|digits|] == digits;
  }

  lemma {:induction false} DecimalOfFront(digits: Bytes, k: nat)
    requires AllDigits(digits) && k <= |digits|
    ensures Decimal(digits[..k]) * Pow10(|digits| - k) == PlaceSum(digits, k)
  {
    if k > 0 {
      DecimalOfFront(digits, k - 1);
      assert digits[..k][..k - 1] == digits[..k - 1];
      var front, d, p := Decimal(digits[..k - 1]), digits[k - 1] as int - 48, Pow10(|digits| - k);
      assert Pow10(|digits| - (k - 1)) == 10 * p;
      Distribute(front, d, p);
      hide Decimal, Pow10;
    }
  }

  lemma Distribute(x: nat, d: nat, p: nat)
    ensures (10 * x + d) * p == x * (10 * p) + d * p
  {
  }

  /**
    What is stored of a magnitude below 2^64 is it or, with a minus sign, its negation, modulo
    2^32; of a larger one the largest value, whatever the sign.
   */
  lemma StoredIs(negative: bool, magnitude: nat)
    ensures magnitude >= 0x1_0000_0000_0000_0000 ==> Stored(negative, magnitude) == 0xFFFF_FFFF
    ensures magnitude < 0x1_0000_0000_0000_0000 ==>
              (if negative then magnitude + Stored(negative, magnitude) else magnitude - Stored(negative, magnitude))
              % 0x1_0000_0000 == 0
  {
    if magnitude < SIZE_MODULUS {
      var long := if negative && magnitude > 0 then SIZE_MODULUS - magnitude else magnitude;
      assert long == UINT_MODULUS * (long / UINT_MODULUS) + long % UINT_MODULUS;
      MultipleOf(long / UINT_MODULUS);
      MultipleOf(UINT_MODULUS - long / UINT_MODULUS);
    }
  }

  datatype Scanned = Scanned(value: uint32, rest: Bytes)

  /** `%u`: white space, an optional sign, and as many digits as there are, at least one. */
  function ScanUnsigned(s: Bytes): Option<Scanned> {
    var t := s[SpaceCount(s)..];
    var u := t[SignCount(t)..];
    var n := DigitCount(u);
    if n == 0 then None
    else Some(Scanned(Stored(SignCount(t) == 1 && t[0] == MINUS, Decimal(u[..n])), u[n..]))
  }

  function Decode(message: Bytes): Option<Seek> {
    if PREFIX <= message then
      match ScanUnsigned(message[|PREFIX|..])
      case None => None
      case Some(first) =>
        if first.rest != [] && first.rest[0] == COMMA then
          match ScanUnsigned(first.rest[1..])
          case None => None
          case Some(second) => Some(Seek(first.value, second.value))
        else None
    else None
  }

  // ---------- what is accepted ----------

  /** A numeral as `%u` reads it. */
  datatype Numeral = Numeral(spaces: Bytes, sign: Bytes, digits: Bytes) {
    ghost predicate Valid() {
      && AllSpaces(spaces)
      && (sign == [] || sign == [PLUS] || sign == [MINUS])
      && digits != [] && AllDigits(digits)
    }

    function Text(): Bytes {
      spaces + sign + digits
    }

    function Value(): uint32
      requires AllDigits(digits)
    {
      Stored(sign == [MINUS], Decimal(digits))
    }
  }

  lemma SpaceCountIs(s: Bytes, n: nat)
    requires n <= |s| && AllSpaces(s[..n]) && (n < |s| ==> !IsSpace(s[n]))
    ensures SpaceCount(s) == n
  {
    hide SpaceCount;
    var k := SpaceCount(s);
    assert forall i :: 0 <= i < n ==> s[..n][i] == s[i];
    assert forall i :: 0 <= i < k ==> s[..k][i] == s[i];
    if k != n {
      assert false;
    }
  }

  lemma DigitCountIs(s: Bytes, n: nat)
    requires n <= |s| && AllDigits(s[..n]) && (n < |s| ==> !IsDigit(s[n]))
    ensures DigitCount(s) == n
  {
    hide DigitCount;
    var k := DigitCount(s);
    assert forall i :: 0 <= i < n ==> s[..n][i] == s[i];
    assert forall i :: 0 <= i < k ==> s[..k][i] == s[i];
    if k != n {
      assert false;
    }
  }

  lemma NumeralParts(x: Numeral, rest: Bytes)
    ensures var s, t, u := x.Text() + rest, x.sign + x.digits + rest, x.digits + rest;
            && s == x.spaces + t && s[..|x.spaces|] == x.spaces && s[|x.spaces|..] == t
            && t[|x.sign|..] == u
            && u[..|x.digits|] == x.digits && u[|x.digits|..] == rest
  {
    assert x.Text() + rest == x.spaces + (x.sign + x.digits + rest);
  }

  /** A numeral that no further digit follows is scanned as it stands. */
  lemma ScanNumeral(x: Numeral, rest: Bytes)
    requires x.Valid() && !StartsWithDigit(rest)
    ensures ScanUnsigned(x.Text() + rest) == Some(Scanned(x.Value(), rest))
  {
    var s, t, u := x.Text() + rest, x.sign + x.digits + rest, x.digits + rest;
    hide SpaceCount, DigitCount, Decimal, Stored, Numeral.Text;
    NumeralParts(x, rest);
    assert s[|x.spaces|] == t[0];
    SpaceCountIs(s, |x.spaces|);
    assert SignCount(t) == |x.sign|;
    DigitCountIs(u, |x.digits|);
  }

  lemma Rejoin(s: Bytes, k: nat, j: nat, n: nat)
    requires k + j + n <= |s|
    ensures var t := s[k..]; var u := t[j..]; s == s[..k] + t[..j] + u[..n] + u[n..]
  {
  }

  /** And whatever is scanned is such a numeral. */
  lemma ScannedNumeral(s: Bytes) returns (x: Numeral)
    requires ScanUnsigned(s).Some?
    ensures var r := ScanUnsigned(s).value; x.Valid() && s == x.Text() + r.rest && x.Value() == r.value
    ensures !StartsWithDigit(ScanUnsigned(s).value.rest)
  {
    hide SpaceCount, DigitCount, Decimal, Stored;
    var k := SpaceCount(s);
    var t := s[k..];
    var j := SignCount(t);
    var u := t[j..];
    var n := DigitCount(u);
    Rejoin(s, k, j, n);
    x := Numeral(s[..k], t[..j], u[..n]);
  }

  /** The message is the prefix, a numeral, a comma, a numeral, and anything but a digit. */
  ghost predicate Spells(message: Bytes, a: Numeral, b: Numeral, rest: Bytes) {
    && a.Valid() && b.Valid() && !StartsWithDigit(rest)
    && message == PREFIX + (a.Text() + ([COMMA] + (b.Text() + rest)))
  }

  /** A message is a seek exactly when it spells one; nothing else is a command. */
  lemma DecodeIff(message: Bytes, seek: Seek)
    ensures Decode(message) == Some(seek) <==>
            exists a, b, rest :: Spells(message, a, b, rest) && seek == Seek(a.Value(), b.Value())
  {
    hide Numeral.Text, Numeral.Value, Decode;
    if Decode(message).Some? {
      var a, b, rest := DecodedNumerals(message);
      DecodeNumerals(a, b, rest);
    }
    forall a, b, rest | Spells(message, a, b, rest)
      ensures Decode(message) == Some(Seek(a.Value(), b.Value()))
    {
      DecodeNumerals(a, b, rest);
    }
  }

  lemma DecodedNumerals(message: Bytes) returns (a: Numeral, b: Numeral, rest: Bytes)
    requires Decode(message).Some?
    ensures Spells(message, a, b, rest)
  {
    hide ScanUnsigned, Numeral.Valid, Numeral.Text, Numeral.Value;
    var body := message[|PREFIX|..];
    a := ScannedNumeral(body);
    var more := ScanUnsigned(body).value.rest;
    b := ScannedNumeral(more[1..]);
    rest := ScanUnsigned(more[1..]).value.rest;
    assert message == PREFIX + body && more == [COMMA] + more[1..];
  }

  lemma DecodeNumerals(a: Numeral, b: Numeral, rest: Bytes)
    requires a.Valid() && b.Valid() && !StartsWithDigit(rest)
    ensures Decode(PREFIX + (a.Text() + ([COMMA] + (b.Text() + rest)))) == Some(Seek(a.Value(), b.Value()))
  {
    hide ScanUnsigned, Decimal, Stored;
    var more := [COMMA] + (b.Text() + rest);
    var message := PREFIX + (a.Text() + more);
    assert message[|PREFIX|..] == a.Text() + more;
    assert more[1..] == b.Text() + rest;
    ScanNumeral(a, more);
    ScanNumeral(b, rest);
  }

  /** Every seek begins with the command's text. */
  lemma CommandText(message: Bytes)
    requires Decode(message).Some?
    ensures [Code('A'), Code('E'), Code('S'), Code('D'), Code('C'), Code('H'), Code('A'), Code('R'), Code('_'),
             Code('I'), Code('O'), Code('C'), Code('S'), Code('E'), Code('E'), Code('K'), Code('T'), Code('O'),
             Code(':')] <= message
  {
    hide ScanUnsigned;
  }

  lemma OneAndMinusOne()
    ensures Stored(false, 1) == 1 && Stored(true, 1) == 0xFFFF_FFFF
    ensures Decimal([48, 49]) == 1 && Decimal([49]) == 1
  {
    assert [48, 49] == [48 + 0] + [48 + 1];
    DecimalAppend([48 + 0], [48 + 1]);
    DecimalOfDigit(0);
    DecimalOfDigit(1);
  }

  /** After the text, "01, -1x" is the pair of 1 and the largest number. */
  lemma ReadsAs()
    ensures var text := [Code('0'), Code('1'), Code(','), Code(' '), Code('-'), Code('1'), Code('x')];
            Decode(PREFIX + text) == Some(Seek(1, 0xFFFF_FFFF))
  {
    hide Decode, Decimal, Stored;
    OneAndMinusOne();
    var a, b := Numeral([], [], [48, 49]), Numeral([SPACE], [MINUS], [49]);
    assert b.sign == [MINUS] && a.sign != [MINUS] by {
      assert |a.sign| == 0;
    }
    assert a.Value() == 1 && b.Value() == 0xFFFF_FFFF;
    DecodeNumerals(a, b, [120]);
    hide *;
    TextOf();
  }

  lemma TextOf()
    ensures var a, b := Numeral([], [], [48, 49]), Numeral([SPACE], [MINUS], [49]);
            a.Text() + ([COMMA] + (b.Text() + [120])) == [48, 49, 44, 32, 45, 49, 120]
  {
  }

  // ---------- printing and reading back ----------

  function Print(n: nat): (s: Bytes)
    ensures s != [] && AllDigits(s)
  {
    var last := [ZERO + (n % 10) as byte];
    if n < 10 then last else Print(n / 10) + last
  }

  lemma {:induction false} DecimalOfPrint(n: nat)
    ensures Decimal(Print(n)) == n
  {
    var s := Print(n);
    if n >= 10 {
      DecimalOfPrint(n / 10);
      assert s[..|s| - 1] == Print(n / 10);
    }
  }

  /** The text a client sends to seek to (command, offset). */
  function PrintSeek(seek: Seek): Bytes {
    PREFIX + (Print(seek.command) + ([COMMA] + Print(seek.offset)))
  }

  /** Printing a seek and decoding it gives the seek back, for any two 32-bit numbers. */
  lemma DecodePrinted(seek: Seek)
    ensures Decode(PrintSeek(seek)) == Some(seek)
  {
    hide Decode, Print, Decimal;
    var a, b := Numeral([], [], Print(seek.command)), Numeral([], [], Print(seek.offset));
    DecimalOfPrint(seek.command);
    DecimalOfPrint(seek.offset);
    assert a.Text() == Print(seek.command) && b.Text() + [] == Print(seek.offset);
    assert !StartsWithDigit([]);
    DecodeNumerals(a, b, []);
  }
}
