/** Rational numbers encoded as Solidity numbers, and prices encoded as unsigned integers. */
module AbiNumber {
  import opened AbiTypeName
  import opened Arith
  import opened Bits
  import opened Numerals
  import opened Options

  // ---------------------------------------------------------------- values

  /** The value in units of the last of `n` decimals. */
  function Shifted(value: real, n: nat): (r: real)
    ensures value >= 0.0 ==> r >= 0.0
  {
    value * Pow(10, n) as real
  }

  /** The value in units of the last decimal, rounded down. */
  function Scaled(value: real, decimals: nat): int {
    Shifted(value, decimals).Floor
  }

  function Low(t: AbiType): int
    requires t.Valid()
  {
    -(if t.signed then Pow2(t.bitSize - 1) else 0)
  }

  function High(t: AbiType): int
    requires t.Valid()
  {
    if t.signed then Pow2(t.bitSize - 1) - 1 else Pow2(t.bitSize) - 1
  }

  predicate Fits(n: int, t: AbiType)
    requires t.Valid()
  {
    Low(t) <= n <= High(t)
  }

  lemma {:induction false} Pow2Bytes(k: nat)
    ensures Pow2(8 * k) == Pow(256, k)
  {
    if k > 0 {
      Pow2Bytes(k - 1);
      var n := 8 * (k - 1);
      Pow2Add(n, 8);
      assert Pow2(8) == 256;
    }
  }

  lemma TypeRange(t: AbiType)
    requires t.Valid()
    ensures Pow2(t.bitSize) == 2 * Pow2(t.bitSize - 1) && Pow2(t.bitSize) == Pow(256, t.bitSize / 8)
  {
    Pow2Bytes(t.bitSize / 8);
  }

  /** Two's complement. */
  function ToWord(n: int, t: AbiType): (word: nat)
    requires t.Valid() && Fits(n, t)
    ensures word < Pow(256, t.bitSize / 8)
  {
    TypeRange(t);
    if t.signed && n < 0 then n + Pow2(t.bitSize) else n
  }

  function FromWord(word: nat, t: AbiType): int
    requires t.Valid()
  {
    if t.signed && word >= Pow2(t.bitSize - 1) then word - Pow2(t.bitSize) else word
  }

  /** The number that hexadecimal text stands for in a type: big-endian two's complement. */
  function DecodeAbi(hex: string, t: AbiType): int
    requires t.Valid()
  {
    FromWord(Value(256, Unhex(hex)), t)
  }

  /** What is encoded, if the type name is valid and the value fits the type. */
  function AbiEncoding(value: real, abiType: string): Option<string> {
    match ParseAbiType(abiType)
    case None => None
    case Some(t) =>
      var n := Scaled(value, t.decimals);
      if Fits(n, t) then Some(ToHex(ToWord(n, t), t.bitSize / 8)) else None
  }

  // ---------------------------------------------------------------- the code

  method ValidateRange(n: int, t: AbiType) returns (ok: bool)
    requires t.Valid()
    ensures ok <==> if t.signed then 0 - Pow2(t.bitSize - 1) <= n < Pow2(t.bitSize - 1) else 0 <= n < Pow2(t.bitSize)
    ensures ok <==> Fits(n, t)
  {
    if t.signed {
      var maxPositive := Pow2(t.bitSize - 1);
      maxPositive := maxPositive - 1;
      var maxNegative: int := Pow2(t.bitSize - 1);
      maxNegative := -maxNegative;
      return !(n > maxPositive || n < maxNegative);
    }
    if n < 0 { return false; }
    var maxValue := Pow2(t.bitSize);
    maxValue := maxValue - 1;
    return !(n > maxValue);
  }

  /** The bytes without leading zeros, copied to the end of a zeroed buffer. */
  method IntToHex(value: nat, byteSize: nat) returns (hex: string)
    requires value < Pow(256, byteSize)
    ensures hex == ToHex(value, byteSize)
  {
    PaddedIsFixed(256, value, byteSize);
    FixedValue(256, value, byteSize);
    var bytes := Minimal(256, value);
    var start := byteSize - |bytes|;
    var paddedBytes := new nat[byteSize](_ => 0);
    forall i | 0 <= i < |bytes| {
      paddedBytes[start + i] := bytes[i];
    }
    assert paddedBytes[..] == Zeros(start) + bytes;
    return HexOf(paddedBytes[..]);
  }

  lemma ScaledZero(value: real)
    ensures Scaled(value, 0) == value.Floor
  {
    assert Pow(10, 0) == 1;
    assert Shifted(value, 0) == value;
  }

  /** The rational number times the scale, divided down to an integer. */
  method ScaledInt(value: real, decimals: nat) returns (intVal: int)
    ensures intVal == Scaled(value, decimals)
  {
    hide Pow;
    var rat := value;
    if decimals > 0 {
      rat := rat * Pow(10, decimals) as real;
      assert rat == Shifted(value, decimals);
    } else {
      ScaledZero(value);
    }
    intVal := rat.Floor;
  }

  method AbiNumberEncoder(value: real, abiType: string) returns (r: Option<string>)
    ensures r == AbiEncoding(value, abiType)
  {
    hide ParseAbiType, Scaled, Fits, Pow, Pow2, ToHex;
    var typeInfo := ParseAbiType(abiType);
    if typeInfo.None? { return None; }
    var t := typeInfo.value;
    var intVal := ScaledInt(value, t.decimals);
    var ok := ValidateRange(intVal, t);
    if !ok { return None; }
    ghost var word := ToWord(intVal, t);
    if t.signed && intVal < 0 {
      var twosPower := Pow2(t.bitSize);
      intVal := intVal + twosPower;
    }
    assert intVal == word;
    var hex := IntToHex(intVal, t.bitSize / 8);
    return Some(hex);
  }

  // ---------------------------------------------------------------- what is encoded

  /**
   Encoding succeeds exactly when the type is valid and the scaled value, rounded down, fits it; the
   text then has two digits for every byte and decodes to that value.
   */
  lemma EncodingDecodes(value: real, abiType: string)
    ensures AbiEncoding(value, abiType).Some? <==>
              ParseAbiType(abiType).Some?
              && Fits(Scaled(value, ParseAbiType(abiType).value.decimals), ParseAbiType(abiType).value)
    ensures AbiEncoding(value, abiType).Some? ==>
              var t, hex := ParseAbiType(abiType).value, AbiEncoding(value, abiType).value;
              && |hex| == t.bitSize / 4 && DecodeAbi(hex, t) == Scaled(value, t.decimals)
              && Value(256, Unhex(hex)) == Scaled(value, t.decimals) + (if Scaled(value, t.decimals) < 0 then Pow2(t.bitSize) else 0)
  {
    hide ParseAbiType, Scaled, Pow2;
    if AbiEncoding(value, abiType).Some? {
      var t := ParseAbiType(abiType).value;
      var n := Scaled(value, t.decimals);
      TypeRange(t);
      ToHexDecodes(ToWord(n, t), t.bitSize / 8);
    }
  }

  /** The scaled value is the one multiple of the unit at or below the value. */
  lemma ScaledIsFloor(value: real, decimals: nat)
    ensures var unit := Pow(10, decimals) as real;
            Scaled(value, decimals) as real <= value * unit < Scaled(value, decimals) as real + 1.0
  {
  }

  // ---------------------------------------------------------------- encoding a price

  /** Rounding to the nearest integer, halves to the even one, as numbers are printed. */
  function RoundHalfEven(x: real): (n: nat)
    requires x >= 0.0
    ensures -0.5 <= x - n as real <= 0.5
  {
    var n := x.Floor;
    var rest := x - n as real;
    if rest < 0.5 || (rest == 0.5 && n % 2 == 0) then n else n + 1
  }

  function Magnitude(x: real): (r: real)
    ensures r >= 0.0
  {
    if x < 0.0 then -x else x
  }

  /**
   A number printed with `n` decimals, split at its point. There is no point without decimals; a negative number
   of them is no format, and what is printed then has none either.
   */
  function FormatFixed(number: real, n: int): seq<string> {
    if n < 0 then ["%!-"] else
      var units := RoundHalfEven(Shifted(Magnitude(number), n));
      DivPow(units, n);
      FixedValue(10, units % Pow(10, n), n);
      var whole := (if number < 0.0 then "-" else "") + Printed(units / Pow(10, n));
      if n == 0 then [whole] else [whole, DecimalText(Fixed(10, units % Pow(10, n), n))]
  }

  lemma DivPow(units: nat, n: nat)
    ensures units / Pow(10, n) >= 0 && 0 <= units % Pow(10, n) < Pow(10, n)
    ensures units == (units / Pow(10, n)) * Pow(10, n) + units % Pow(10, n)
  {
    hide Pow;
    DivNat(units, Pow(10, n));
  }

  /** The number in units of the last decimal, rounded to nearest. */
  function PriceUnits(number: real, exponent: int): int
    requires exponent >= -18
  {
    var units := RoundHalfEven(Shifted(Magnitude(number), 18 + exponent));
    if number < 0.0 then 0 - units else units
  }

  /** The nearest number of units of the last decimal, an even one if two are equally near. */
  lemma UnitsAreNearest(number: real, exponent: int)
    requires exponent > -18
    ensures var off := number * Pow(10, 18 + exponent) as real - PriceUnits(number, exponent) as real;
            -0.5 <= off <= 0.5 && (off == 0.5 || off == -0.5 ==> PriceUnits(number, exponent) % 2 == 0)
  {
    hide RoundHalfEven, Shifted, Magnitude, Pow;
    HalvesToEven(Shifted(Magnitude(number), 18 + exponent));
    ShiftedSign(number, 18 + exponent);
  }

  lemma ShiftedSign(number: real, n: nat)
    ensures number * Pow(10, n) as real == if number < 0.0 then 0.0 - Shifted(Magnitude(number), n) else Shifted(Magnitude(number), n)
  {
    hide Pow;
    Negate(number, Pow(10, n) as real);
  }

  lemma HalvesToEven(x: real)
    requires x >= 0.0
    ensures var off := x - RoundHalfEven(x) as real; -0.5 <= off <= 0.5 && (off == 0.5 || off == -0.5 ==> RoundHalfEven(x) % 2 == 0)
  {
  }

  lemma Negate(x: real, y: real)
    ensures (0.0 - x) * y == 0.0 - x * y
  {
  }

  predicate IsInteger(s: string) {
    s != [] && AllDigits(if s[0] == '-' then s[1..] else s)
  }

  function ParseInteger(s: string): int
    requires IsInteger(s)
  {
    if s[0] == '-' then 0 - ParseDecimal(s[1..]) else ParseDecimal(s)
  }

  lemma DecimalTextConcat(a: string, b: string)
    requires AllDigits(a) && AllDigits(b)
    ensures AllDigits(a + b) && ParseDecimal(a + b) == ParseDecimal(a) * Pow(10, |b|) + ParseDecimal(b)
  {
    assert DecimalDigits(a + b) == DecimalDigits(a) + DecimalDigits(b);
    ValueConcat(10, DecimalDigits(a), DecimalDigits(b));
  }

  /** The printed digits, read without the point. */
  lemma FormatReads(number: real, n: nat)
    requires n > 0
    ensures var parts := FormatFixed(number, n);
            && |parts| == 2 && |parts[1]| == n && IsInteger(parts[0] + parts[1])
            && ParseInteger(parts[0] + parts[1]) == PriceUnits(number, n - 18)
  {
    hide Pow, RoundHalfEven, Shifted, Printed, ParseDecimal;
    var units := RoundHalfEven(Shifted(Magnitude(number), n));
    DivPow(units, n);
    FixedParses(units % Pow(10, n), n);
    var whole, decimals := Printed(units / Pow(10, n)), DecimalText(Fixed(10, units % Pow(10, n), n));
    DecimalTextConcat(whole, decimals);
    var text := FormatFixed(number, n)[0] + FormatFixed(number, n)[1];
    SignedDigits(whole + decimals);
    assert text == if number < 0.0 then "-" + (whole + decimals) else whole + decimals;
  }

  lemma SignedDigits(digits: string)
    requires AllDigits(digits) && digits != []
    ensures IsInteger(digits) && ParseInteger(digits) == ParseDecimal(digits)
    ensures IsInteger("-" + digits) && ParseInteger("-" + digits) == 0 - ParseDecimal(digits)
  {
    hide ParseDecimal;
    assert ("-" + digits)[1..] == digits;
    assert IsDigit(digits[0]);
  }

  lemma FixedParses(v: nat, n: nat)
    requires v < Pow(10, n)
    ensures Digits(10, Fixed(10, v, n)) && |Fixed(10, v, n)| == n
    ensures ParseDecimal(DecimalText(Fixed(10, v, n))) == v
  {
    FixedValue(10, v, n);
  }

  /** The text of a price, an error, or a crash. */
  datatype PriceText = Encoded(hex: string) | Failed | Crashed

  /** What a packer of numbers makes of the price; there is nothing to pack without decimals. */
  function EncodedPrice(number: real, exponent: int, pack: int -> Option<string>): PriceText {
    if exponent <= -18 then Crashed
    else match pack(PriceUnits(number, exponent)) case Some(hex) => Encoded(hex) case None => Failed
  }

  /** `EncodePrice`: the number is printed with `18 + exponent` decimals, and the digits are read without the point. */
  method EncodePrice(number: real, exponent: int, pack: int -> Option<string>) returns (r: PriceText)
    ensures r == EncodedPrice(number, exponent, pack)
    ensures r == Crashed <==> exponent <= -18
    ensures r.Encoded? ==> exponent > -18 && pack(PriceUnits(number, exponent)) == Some(r.hex)
    ensures r == Failed ==> exponent > -18 && pack(PriceUnits(number, exponent)) == None
  {
    hide ParseInteger, IsInteger, PriceUnits;
    var newExponent := 18 + exponent;
    var parts := FormatFixed(number, newExponent);
    if |parts| < 2 { return Crashed; }
    FormatReads(number, newExponent);
    // As many decimals were printed as are asked for: none has to be cut off.
    assert |parts[1]| == newExponent;
    var bigIntNumber := ParseInteger(parts[0] + parts[1]);
    var packed := pack(bigIntNumber);
    r := if packed.Some? then Encoded(packed.value) else Failed;
  }

  lemma Cancel(v: real, a: real, b: real)
    requires a > 0.0
    ensures v / a * (a * b) == v * b
  {
    assert v / a * a == v;
    assert v / a * (a * b) == (v / a * a) * b;
  }

  lemma ShiftUnits(number: real, k: nat)
    requires k <= 18
    ensures Shifted(number / Pow(10, k) as real, 18) == Shifted(number, 18 - k)
  {
    hide Pow;
    PowAdd(10, k, 18 - k);
    var a, b := Pow(10, k), Pow(10, 18 - k);
    assert Pow(10, 18) as real == a as real * b as real;
    Cancel(number, a as real, b as real);
  }

  lemma WholeUnits(val: nat, n: nat)
    ensures Shifted(val as real, n) == (val * Pow(10, n)) as real
  {
    assert val as real * Pow(10, n) as real == (val * Pow(10, n)) as real;
  }

  lemma SmallPowers()
    ensures Pow(10, 3) == 1000 && Pow(256, 2) == 0x1_0000
  {
    assert Pow(10, 0) == 1 && Pow(10, 1) == 10 && Pow(10, 2) == 100;
    assert Pow(256, 0) == 1 && Pow(256, 1) == 256;
  }

  const TWO_256 := 0x1_0000_0000_0000_0000_0000_0000_0000_0000_0000_0000_0000_0000_0000_0000_0000_0000

  lemma LargePowers()
    ensures Pow(10, 18) == 1_000_000_000_000_000_000
    ensures Pow(256, 32) == TWO_256
  {
    hide Pow;
    SmallPowers();
    PowAdd(10, 3, 3);
    PowAdd(10, 6, 6);
    PowAdd(10, 12, 6);
    PowAdd(256, 2, 2);
    PowAdd(256, 4, 4);
    PowAdd(256, 8, 8);
    PowAdd(256, 16, 16);
  }

  lemma PriceFits(val: nat, k: nat)
    requires val < 0x20_0000_0000_0000 && k <= 18
    ensures val * Pow(10, 18 - k) < Pow(256, 32)
  {
    hide Pow;
    LargePowers();
    PowAdd(10, k, 18 - k);
    var p := Pow(10, 18 - k);
    MulMonotone(1, Pow(10, k), p);
    MulMonotone(val, 0x20_0000_0000_0000, p);
  }

  lemma UnsignedEncoding(value: real, abiType: string, t: AbiType, n: nat)
    requires ParseAbiType(abiType) == Some(t) && !t.signed && Scaled(value, t.decimals) == n && n < Pow(256, t.bitSize / 8)
    ensures AbiEncoding(value, abiType) == Some(ToHex(n, t.bitSize / 8))
  {
    hide Scaled, ParseAbiType, Pow, Pow2, ToHex;
    TypeRange(t);
  }

  /** A packer that encodes the unsigned numbers of 256 bits as the specification says. */
  ghost predicate PacksUnsigned(pack: int -> Option<string>) {
    forall n | 0 <= n < Pow(256, 32) :: pack(n) == Some(ToHex(n, 32))
  }

  /** The digits after the last decimal round down. */
  predicate RoundsDown(x: real) {
    var rest := x - x.Floor as real;
    rest < 0.5 || (rest == 0.5 && x.Floor % 2 == 0)
  }

  lemma RoundsToFloor(x: real)
    requires x >= 0.0
    ensures x.Floor >= 0 && (RoundHalfEven(x) == x.Floor <==> RoundsDown(x)) && x.Floor <= RoundHalfEven(x)
  {
  }

  lemma SameHex(m: nat, n: nat)
    requires m < Pow(256, 32) && n < Pow(256, 32)
    ensures ToHex(m, 32) == ToHex(n, 32) <==> m == n
  {
    hide ToHex, Pow;
    ToHexDecodes(m, 32);
    ToHexDecodes(n, 32);
  }

  /**
   The encoding of a price agrees with that of the price times ten to the exponent, for exponents from -17 to 0
   and as long as the price fits, exactly if its 18th decimal is not rounded up.
   */
  lemma EncodersAgree(number: real, exponent: int, pack: int -> Option<string>)
    requires number >= 0.0 && -17 <= exponent <= 0 && PacksUnsigned(pack)
    requires PriceUnits(number, exponent) < Pow(256, 32)
    ensures AbiEncoding(number / Pow(10, -exponent) as real, "ufixed256x18").Some?
    ensures EncodedPrice(number, exponent, pack) == Encoded(AbiEncoding(number / Pow(10, -exponent) as real, "ufixed256x18").value)
       <==> RoundsDown(Shifted(number, 18 + exponent))
  {
    hide AbiEncoding, ParseAbiType, Pow, ToHex, RoundHalfEven, Shifted, RoundsDown;
    ParseUfixed();
    ShiftUnits(number, -exponent);
    var x := Shifted(number, 18 + exponent);
    RoundsToFloor(x);
    var t := AbiType(256, 18, false);
    UnsignedEncoding(number / Pow(10, -exponent) as real, "ufixed256x18", t, x.Floor);
    SameHex(PriceUnits(number, exponent), x.Floor);
  }

  /** So they agree on every whole price below 2^53. */
  lemma WholePricesAgree(val: nat, exponent: int, pack: int -> Option<string>)
    requires val < 0x20_0000_0000_0000 && -17 <= exponent <= 0 && PacksUnsigned(pack)
    ensures AbiEncoding(val as real / Pow(10, -exponent) as real, "ufixed256x18").Some?
    ensures EncodedPrice(val as real, exponent, pack)
         == Encoded(AbiEncoding(val as real / Pow(10, -exponent) as real, "ufixed256x18").value)
  {
    hide AbiEncoding, Pow, ToHex, Shifted, EncodedPrice;
    WholeUnits(val, 18 + exponent);
    PriceFits(val, -exponent);
    EncodersAgree(val as real, exponent, pack);
  }
}
