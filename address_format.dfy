/** `ip_to_string`: the dotted-decimal text of an address, each octet written in
    decimal as `str` writes an integer, joined by dots. */
module AddressFormat {
  import opened Wrappers
  import opened Bytes
  import opened Delimited

  predicate IsDigit(c: char)
  {
    '0' <= c <= '9'
  }

  predicate AllDigits(s: string)
  {
    forall i :: 0 <= i < |s| ==> IsDigit(s[i])
  }

  function DigitChar(d: nat): (c: char)
    requires d < 10
    ensures IsDigit(c) && c as int - '0' as int == d
  {
    ('0' as int + d) as char
  }

  /** `str(n)` for a non-negative integer: its decimal digits, most significant
      first; the only numeral that starts with `0` is `0` itself. */
  function DecimalString(n: nat): (s: string)
    ensures |s| >= 1 && AllDigits(s)
    ensures s[0] == '0' <==> n == 0
    ensures n == 0 ==> s == "0"
    decreases n
  {
    if n < 10 then [DigitChar(n)] else DecimalString(n / 10) + [DigitChar(n % 10)]
  }

  /** The number a string of decimal digits denotes. */
  function DecimalValue(s: string): nat
    requires AllDigits(s)
  {
    if |s| == 0 then 0
    else DecimalValue(s[..|s| - 1]) * 10 + (s[|s| - 1] as int - '0' as int)
  }

  /** Reading the decimal numeral of `n` gives `n`. */
  lemma {:induction false} DecimalRoundTrip(n: nat)
    ensures DecimalValue(DecimalString(n)) == n
    decreases n
  {
    if n >= 10 {
      var s := DecimalString(n);
      DecimalRoundTrip(n / 10);
      assert s[..|s| - 1] == DecimalString(n / 10);
    }
  }

  /** An octet is at most three digits long. */
  lemma OctetDigits(x: byte)
    ensures |DecimalString(x)| <= 3
  {
    if x >= 10 {
      assert DecimalString(x) == DecimalString(x / 10) + [DigitChar(x % 10)];
    }
  }

  /** `str(x) for x in ip`. */
  function OctetStrings(ip: Bytes): (r: seq<string>)
    ensures |r| == |ip|
    ensures forall i :: 0 <= i < |ip| ==> r[i] == DecimalString(ip[i])
  {
    seq(|ip|, i requires 0 <= i < |ip| => DecimalString(ip[i]))
  }

  /** `ip_to_string`: one numeral per octet, with a dot between consecutive ones. Only
      the empty address gives the empty text. */
  function IpToString(ip: Bytes): (s: string)
    ensures s == [] <==> |ip| == 0
  {
    Join(OctetStrings(ip), '.')
  }

  /** A numeral for one octet: one or more digits, denoting at most 255. */
  function ParseOctet(s: string): Option<byte>
  {
    if |s| >= 1 && AllDigits(s) && DecimalValue(s) < 0x100 then Some(DecimalValue(s)) else None
  }

  function ParseOctets(parts: seq<string>): (r: Option<Bytes>)
    ensures r.Some? ==> |r.value| == |parts|
  {
    if |parts| == 0 then Some([])
    else
      match ParseOctet(parts[0])
      case None => None
      case Some(x) =>
        match ParseOctets(parts[1..])
        case None => None
        case Some(rest) => Some([x] + rest)
  }

  /** The reading of dotted-decimal text that `ip_to_string` is the writer for. */
  function ParseIp(s: string): Option<Bytes>
  {
    ParseOctets(Split(s, '.'))
  }

  lemma {:induction false} ParseOctetStrings(ip: Bytes)
    ensures ParseOctets(OctetStrings(ip)) == Some(ip)
  {
    if |ip| > 0 {
      var parts := OctetStrings(ip);
      DecimalRoundTrip(ip[0]);
      assert parts[1..] == OctetStrings(ip[1..]);
      ParseOctetStrings(ip[1..]);
      assert [ip[0]] + ip[1..] == ip;
    }
  }

  /** Address round trip: the text of a non-empty address reads back as that address. */
  lemma IpRoundTrip(ip: Bytes)
    requires |ip| >= 1
    ensures ParseIp(IpToString(ip)) == Some(ip)
  {
    var parts := OctetStrings(ip);
    forall i | 0 <= i < |parts|
      ensures '.' !in parts[i]
    {
      assert AllDigits(parts[i]);
    }
    SplitJoin(parts, '.');
    ParseOctetStrings(ip);
  }

  /** Different addresses have different texts. */
  lemma IpToStringInjective(a: Bytes, b: Bytes)
    requires IpToString(a) == IpToString(b)
    ensures a == b
  {
    if |a| > 0 && |b| > 0 {
      IpRoundTrip(a);
      IpRoundTrip(b);
    }
  }

  /** A four-octet address is at most 15 characters long: four numerals of at
      most three digits and three dots. */
  lemma IpToStringLength(ip: Bytes)
    requires |ip| == 4
    ensures |IpToString(ip)| <= 15
  {
    var parts := OctetStrings(ip);
    forall i | 0 <= i < |parts|
      ensures |parts[i]| <= 3
    {
      OctetDigits(ip[i]);
    }
    JoinLengthBound(parts, '.', 3);
  }

  /** The address 93.184.216.34 as `ip_to_string` writes it. */
  lemma ExampleAddress(ip: Bytes)
    requires ip == [93, 184, 216, 34]
    ensures IpToString(ip) == "93.184.216.34"
  {
    var parts := OctetStrings(ip);
    assert parts[0] == "93" && parts[1] == "184" && parts[2] == "216" && parts[3] == "34";
    assert Join(parts[1..][1..][1..], '.') == "34";
    assert Join(parts[1..][1..], '.') == "216" + ['.'] + "34" == "216.34";
    assert Join(parts[1..], '.') == "184" + ['.'] + "216.34" == "184.216.34";
    assert Join(parts, '.') == "93" + ['.'] + "184.216.34";
  }
}
