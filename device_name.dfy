/** The devfs name of a misc device: the prefix `tenstorrent`, a slash and
    the ordinal in decimal, as `MiscPool::next` formats it with
    `"{prefix}/{ordinal}"`. Parsing a name back is the partner that shows
    the formatting loses nothing: distinct ordinals get distinct names. */
module DeviceName {

  import opened KernelTypes

  /** `TtMisc::DEVICE_PREFIX`. */
  const DEVICE_PREFIX: string := "tenstorrent"

  predicate IsDigit(c: char) { '0' <= c <= '9' }

  predicate IsDigits(s: string) { forall i :: 0 <= i < |s| ==> IsDigit(s[i]) }

  /** A decimal numeral as `Display` for an unsigned integer writes it: at
      least one digit, and no leading zero unless the value is zero. */
  predicate IsNumeral(s: string) { |s| >= 1 && IsDigits(s) && (s[0] == '0' ==> |s| == 1) }

  function DigitChar(d: nat): (c: char)
    requires d < 10
    ensures IsDigit(c) && c as int - '0' as int == d
  {
    ('0' as int + d) as char
  }

  /** The decimal numeral of `n`. */
  function Decimal(n: nat): (s: string)
    ensures IsNumeral(s)
    ensures s[0] == '0' <==> n == 0
    decreases n
  {
    if n < 10 then [DigitChar(n)] else Decimal(n / 10) + [DigitChar(n % 10)]
  }

  /** The value of a string of decimal digits (the empty string reads as 0). */
  function ParseDecimal(s: string): nat
    requires IsDigits(s)
  {
    if s == [] then 0
    else ParseDecimal(s[..|s| - 1]) * 10 + (s[|s| - 1] as int - '0' as int)
  }

  /** The name under which ordinal `ordinal` is registered: the prefix, a
      slash, and the canonical decimal numeral of the ordinal. */
  function Name(ordinal: nat): (r: string)
    ensures |r| > |DEVICE_PREFIX| + 1
    ensures r[..|DEVICE_PREFIX| + 1] == DEVICE_PREFIX + "/"
    ensures IsNumeral(r[|DEVICE_PREFIX| + 1..])
  {
    DEVICE_PREFIX + "/" + Decimal(ordinal)
  }

  /** Recovers the ordinal from a device name; `None` for anything `Name` never produces. */
  function ParseName(s: string): (r: Option<nat>)
  {
    var n := |DEVICE_PREFIX| + 1;
    if |s| > n && s[..n] == DEVICE_PREFIX + "/" && IsNumeral(s[n..]) then Some(ParseDecimal(s[n..]))
    else None
  }

  lemma {:induction false} DecimalRoundTrip(n: nat)
    ensures ParseDecimal(Decimal(n)) == n
    decreases n
  {
    if n >= 10 {
      var s := Decimal(n);
      assert s[..|s| - 1] == Decimal(n / 10);
      DecimalRoundTrip(n / 10);
    }
  }

  lemma {:induction false} ParseZeroIsZeros(s: string)
    requires IsDigits(s) && ParseDecimal(s) == 0
    ensures forall i :: 0 <= i < |s| ==> s[i] == '0'
    decreases |s|
  {
    if s != [] {
      ParseZeroIsZeros(s[..|s| - 1]);
      assert forall i :: 0 <= i < |s| - 1 ==> s[i] == s[..|s| - 1][i];
    }
  }

  lemma {:induction false} ParseDecimalRoundTrip(s: string)
    requires IsNumeral(s)
    ensures Decimal(ParseDecimal(s)) == s
    decreases |s|
  {
    if |s| > 1 {
      var p := s[..|s| - 1];
      assert p[0] == s[0];
      ParseDecimalRoundTrip(p);
      if ParseDecimal(p) == 0 {
        ParseZeroIsZeros(p);
        assert false;
      }
      var n := ParseDecimal(s);
      assert n / 10 == ParseDecimal(p) && n % 10 == s[|s| - 1] as int - '0' as int;
      assert s == p + [s[|s| - 1]];
    }
  }

  /** Parsing a formatted name gives back its ordinal. */
  lemma NameRoundTrip(ordinal: nat)
    ensures ParseName(Name(ordinal)) == Some(ordinal)
  {
    var n := |DEVICE_PREFIX| + 1;
    var s := Name(ordinal);
    assert s[..n] == DEVICE_PREFIX + "/";
    assert s[n..] == Decimal(ordinal);
    DecimalRoundTrip(ordinal);
  }

  /** Every name `ParseName` accepts is the name of the ordinal it yields. */
  lemma ParseNameRoundTrip(s: string)
    requires ParseName(s).Some?
    ensures Name(ParseName(s).value) == s
  {
    var n := |DEVICE_PREFIX| + 1;
    ParseDecimalRoundTrip(s[n..]);
    assert s == s[..n] + s[n..];
  }

  /** Two devices never share a devfs name; and a name holds no NUL byte, as a `CString` must not. */
  lemma NameInjective(a: nat, b: nat)
    ensures Name(a) == Name(b) <==> a == b
    ensures forall i :: 0 <= i < |Name(a)| ==> Name(a)[i] != '\0'
  {
    NameRoundTrip(a);
    NameRoundTrip(b);
    var d := Decimal(a);
    assert forall i :: 0 <= i < |d| ==> IsDigit(d[i]);
  }
}
