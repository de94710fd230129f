/**
 * The size label of a staged file: below one kilobyte the exact byte count,
 * otherwise the size in KB, MB or GB with two decimals. The two-decimal
 * text is floating-point formatting and is kept symbolic here.
 */
module ByteUnits {

  const Kilobyte: nat := 1024
  const Megabyte: nat := Kilobyte * 1024
  const Gigabyte: nat := Megabyte * 1024

  datatype Unit = Bytes | KB | MB | GB

  /** The number of bytes one of `u` stands for. */
  function Scale(u: Unit): (n: nat)
    ensures u == Bytes ==> n == 1
    ensures u == KB ==> n == 1024
    ensures u == MB ==> n == 1024 * 1024
    ensures u == GB ==> n == 1024 * 1024 * 1024
  {
    match u
    case Bytes => 1
    case KB => Kilobyte
    case MB => Megabyte
    case GB => Gigabyte
  }

  /** The text after the number. */
  function Suffix(u: Unit): string
  {
    match u
    case Bytes => " bytes"
    case KB => " KB"
    case MB => " MB"
    case GB => " GB"
  }

  /** The units in ascending order of size. */
  function Rank(u: Unit): nat
  {
    match u
    case Bytes => 0
    case KB => 1
    case MB => 2
    case GB => 3
  }

  /**
   * The unit `converterBytes` picks: the largest unit, up to GB, of which
   * the size holds at least one whole. Below GB the size is then under 1024
   * of that unit.
   */
  function UnitFor(bytes: nat): (u: Unit)
    ensures u == Bytes || Scale(u) <= bytes
    ensures u != GB ==> bytes < Kilobyte * Scale(u)
  {
    if bytes < Kilobyte then Bytes
    else if bytes < Megabyte then KB
    else if bytes < Gigabyte then MB
    else GB
  }

  /** A bigger size never gets a smaller unit. */
  lemma UnitForMonotone(a: nat, b: nat)
    requires a <= b
    ensures Rank(UnitFor(a)) <= Rank(UnitFor(b))
  {
  }

  /** The number part of a label. */
  datatype Amount =
    | Whole(digits: string)                   // `bytes + ""`: the decimal digits
    | TwoDecimals(bytes: nat, divisor: nat)   // `(bytes / divisor).toFixed(2)`, not formatted here

  datatype SizeLabel = SizeLabel(amount: Amount, suffix: string)

  /** `converterBytes`: the label of a size of `bytes` bytes. */
  function ConverterBytes(bytes: nat): (r: SizeLabel)
    ensures r.suffix == Suffix(UnitFor(bytes))
    ensures r.amount.Whole? <==> bytes < Kilobyte
    ensures r.amount.Whole? ==> IsDecimal(r.amount.digits) && DecimalValue(r.amount.digits) == bytes
    ensures r.amount.TwoDecimals? ==>
      r.amount.bytes == bytes && r.amount.divisor == Scale(UnitFor(bytes)) && r.amount.divisor <= bytes
  {
    var u := UnitFor(bytes);
    if u == Bytes then
      DecimalRoundTrip(bytes);
      SizeLabel(Whole(DecimalString(bytes)), Suffix(u))
    else
      SizeLabel(TwoDecimals(bytes, Scale(u)), Suffix(u))
  }

  /** A label below one kilobyte is the decimal count followed by " bytes". */
  lemma SmallSizeText(bytes: nat)
    requires bytes < Kilobyte
    ensures ConverterBytes(bytes) == SizeLabel(Whole(DecimalString(bytes)), " bytes")
  {
  }

  /** 512 bytes read "512 bytes". */
  lemma SmallSizeExample()
    ensures ConverterBytes(512) == SizeLabel(Whole("512"), " bytes")
  {
    assert DecimalString(512) == DecimalString(51) + "2";
    assert DecimalString(51) == DecimalString(5) + "1";
  }

  function DigitChar(d: nat): (c: char)
    requires d < 10
    ensures '0' <= c <= '9'
  {
    "0123456789"[d]
  }

  function DigitValue(c: char): (d: nat)
    requires '0' <= c <= '9'
    ensures d < 10
  {
    (c as int - '0' as int) as nat
  }

  /** The text is a decimal numeral as JavaScript writes an integer: digits, no leading zero. */
  predicate IsDecimal(s: string)
  {
    |s| > 0 &&
    (forall i :: 0 <= i < |s| ==> '0' <= s[i] <= '9') &&
    (|s| > 1 ==> s[0] != '0')
  }

  /** How JavaScript writes a non-negative integer in decimal. */
  function DecimalString(n: nat): (s: string)
    ensures |s| > 0
    decreases n
  {
    if n < 10 then [DigitChar(n)]
    else DecimalString(n / 10) + [DigitChar(n % 10)]
  }

  /** The number a string of decimal digits denotes. */
  function DecimalValue(s: string): nat
    requires forall i :: 0 <= i < |s| ==> '0' <= s[i] <= '9'
  {
    if s == [] then 0
    else 10 * DecimalValue(s[..|s| - 1]) + DigitValue(s[|s| - 1])
  }

  /** Reading back the written digits gives the number, and the text is a decimal numeral. */
  lemma {:induction false} DecimalRoundTrip(n: nat)
    ensures IsDecimal(DecimalString(n))
    ensures DecimalValue(DecimalString(n)) == n
    decreases n
  {
    var s := DecimalString(n);
    if n < 10 {
      assert s == [DigitChar(n)] && s[..0] == [];
    } else {
      var q, d := n / 10, n % 10;
      assert n == 10 * q + d && q >= 1;
      DecimalRoundTrip(q);
      var t := DecimalString(q);
      assert s == t + [DigitChar(d)];
      assert s[..|s| - 1] == t;
      assert DigitValue(DigitChar(d)) == d;
      assert |t| == 1 ==> t[0] != '0';
      assert s[0] == t[0];
    }
  }
}
