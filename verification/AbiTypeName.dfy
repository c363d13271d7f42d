/** The names of Solidity's number types. */
module AbiTypeName {
  import opened Bits
  import opened Numerals
  import opened Options

  /** What follows the sign: the digits of the size and, for fixed point, those of the decimals. */
  datatype Parts = Parts(bits: string, decimals: Option<string>)

  predicate IsNumeral(s: string) {
    s != "" && AllDigits(s)
  }

  predicate WellFormed(p: Parts) {
    IsNumeral(p.bits) && (p.decimals.Some? ==> IsNumeral(p.decimals.value))
  }

  const INT := "int"
  const FIXED := "fixed"

  function Spell(p: Parts): string {
    match p.decimals
    case None => INT + p.bits
    case Some(d) => FIXED + (p.bits + ['x'] + d)
  }

  /** The number of digits a text begins with. */
  function LeadingDigits(s: string): (n: nat)
    ensures n <= |s| && AllDigits(s[..n]) && (n < |s| ==> !IsDigit(s[n]))
  {
    if s == "" || !IsDigit(s[0]) then 0 else
      var n := 1 + LeadingDigits(s[1..]);
      assert s[..n] == [s[0]] + s[1..][..n - 1];
      n
  }

  function SplitFixed(tail: string): Option<Parts> {
    var n := LeadingDigits(tail);
    if n > 0 && n < |tail| && tail[n] == 'x' && IsNumeral(tail[n + 1..])
    then Some(Parts(tail[..n], Some(tail[n + 1..]))) else None
  }

  /** The two patterns a name is matched against. */
  function Split(s: string): Option<Parts> {
    if |s| >= 3 && s[..3] == INT then
      if IsNumeral(s[3..]) then Some(Parts(s[3..], None)) else None
    else if |s| >= 5 && s[..5] == FIXED then SplitFixed(s[5..])
    else None
  }

  lemma {:induction false} LeadingDigitsStop(a: string, c: char, b: string)
    requires AllDigits(a) && !IsDigit(c)
    ensures LeadingDigits(a + [c] + b) == |a|
  {
    if a == "" {
      assert a + [c] + b == [c] + b;
    } else {
      assert a[0] in a;
      LeadingDigitsStop(a[1..], c, b);
      assert (a + [c] + b)[1..] == a[1..] + [c] + b;
    }
  }

  lemma FixedFinds(bits: string, d: string)
    requires IsNumeral(bits) && IsNumeral(d)
    ensures SplitFixed(bits + ['x'] + d) == Some(Parts(bits, Some(d)))
  {
    LeadingDigitsStop(bits, 'x', d);
    var tail := bits + ['x'] + d;
    assert tail[..|bits|] == bits && tail[|bits| + 1..] == d;
  }

  lemma SplitFinds(p: Parts)
    requires WellFormed(p)
    ensures Split(Spell(p)) == Some(p)
  {
    hide SplitFixed, IsNumeral;
    var s := Spell(p);
    match p.decimals
    case None =>
      assert s[..3] == INT && s[3..] == p.bits;
    case Some(d) =>
      FixedFinds(p.bits, d);
      assert s[..5] == FIXED && s[5..] == p.bits + ['x'] + d;
      assert s[0] == 'f' && s[..3][0] == 'f';
  }

  /** A name matches exactly if it is spelled from well-formed parts, and these are the ones found. */
  lemma SplitSpelled(s: string, p: Parts)
    ensures Split(s) == Some(p) <==> WellFormed(p) && s == Spell(p)
  {
    hide SplitFixed, IsNumeral;
    if WellFormed(p) && s == Spell(p) {
      SplitFinds(p);
    }
    if Split(s) == Some(p) {
      if |s| >= 3 && s[..3] == INT {
        assert s == s[..3] + s[3..];
      } else {
        assert s == s[..5] + s[5..];
        FixedSpelled(s[5..], p);
      }
    }
  }

  lemma FixedSpelled(tail: string, p: Parts)
    requires SplitFixed(tail) == Some(p)
    ensures WellFormed(p) && p.decimals.Some? && tail == p.bits + ['x'] + p.decimals.value
  {
  }

  datatype AbiType = AbiType(bitSize: nat, decimals: nat, signed: bool) {
    predicate Valid() {
      0 < bitSize <= 256 && bitSize % 8 == 0
    }
  }

  /** `strconv.Atoi` of digits: they must fit 64 bits. */
  function Atoi(s: string): Option<nat>
    requires AllDigits(s)
  {
    if ParseDecimal(s) < TWO_63 then Some(ParseDecimal(s)) else None
  }

  function TypeOf(p: Parts, signed: bool): (t: Option<AbiType>)
    requires WellFormed(p)
    ensures t.Some? ==> t.value.Valid()
  {
    var bits := Atoi(p.bits);
    var decimals := if p.decimals.Some? then Atoi(p.decimals.value) else Some(0);
    if bits.None? || decimals.None? then None else
      var t := AbiType(bits.value, decimals.value, signed);
      if t.Valid() then Some(t) else None
  }

  /** `parseAbiType`: a leading `u` makes the type unsigned. */
  function ParseAbiType(s: string): (t: Option<AbiType>)
    ensures t.Some? ==> t.value.Valid()
  {
    var unsigned := s != "" && s[0] == 'u';
    var parts := Split(if unsigned then s[1..] else s);
    if parts.None? then None else
      SplitSpelled(if unsigned then s[1..] else s, parts.value);
      TypeOf(parts.value, !unsigned)
  }

  /** Parts are a type exactly if the size is a multiple of 8 from 8 to 256, and the decimals fit 63 bits. */
  lemma TypeIs(p: Parts, signed: bool)
    requires WellFormed(p)
    ensures var bits := ParseDecimal(p.bits);
            var decimals := if p.decimals.Some? then ParseDecimal(p.decimals.value) else 0;
            TypeOf(p, signed) == if 8 <= bits <= 256 && bits % 8 == 0 && decimals < 0x8000_0000_0000_0000
                                 then Some(AbiType(bits, decimals, signed)) else None
  {
    hide ParseDecimal;
  }

  /** Every name spelled from well-formed parts is read as what it says. */
  lemma ParseSpelled(p: Parts, unsigned: bool)
    requires WellFormed(p)
    ensures ParseAbiType((if unsigned then "u" else "") + Spell(p)) == TypeOf(p, !unsigned)
  {
    hide Split, TypeOf, WellFormed;
    SplitFinds(p);
    var s := (if unsigned then "u" else "") + Spell(p);
    if unsigned {
      assert s[1..] == Spell(p);
    } else {
      assert s == Spell(p);
      assert s[0] == 'i' || s[0] == 'f';
    }
  }

  /** No other name is a type. */
  lemma OnlySpelledParse(s: string)
    requires ParseAbiType(s).Some?
    ensures exists p :: WellFormed(p) && (s == Spell(p) || s == "u" + Spell(p))
  {
    hide Split, TypeOf, Spell, WellFormed;
    var unsigned := s != "" && s[0] == 'u';
    var name := if unsigned then s[1..] else s;
    var p := Split(name).value;
    SplitSpelled(name, p);
    assert unsigned ==> s == "u" + name;
  }

  lemma ParseUfixed()
    ensures ParseAbiType("ufixed256x18") == Some(AbiType(256, 18, false))
  {
    hide ParseAbiType, Split;
    var p := Parts("256", Some("18"));
    assert "u" + Spell(p) == "ufixed256x18";
    ParseSpelled(p, true);
    DigitsOf256();
    DigitsOf18();
  }

  lemma DigitsOf256()
    ensures AllDigits("256") && ParseDecimal("256") == 256
  {
    var ds := DecimalDigits("256");
    assert ds[..2][..1][..0] == [] && ds[..2][..1][0] == 2 && ds[..2][1] == 5 && ds[2] == 6;
    assert Value(10, ds[..2][..1]) == 2;
    assert Value(10, ds[..2]) == 25;
  }

  lemma DigitsOf18()
    ensures AllDigits("18") && ParseDecimal("18") == 18
  {
    var ds := DecimalDigits("18");
    assert ds[..1][..0] == [] && ds[..1][0] == 1 && ds[1] == 8;
    assert Value(10, ds[..1]) == 1;
  }
}
