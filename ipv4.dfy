/** ip_address_v4: a 32-bit address held in host byte order, its well-known
    constants, and its dotted-decimal text form as inet_pton/inet_ntop
    (POSIX.1-2008) read and print it. */
module IpV4 {
  import opened Outcomes
  import opened Numeric
  import opened ByteOrder
  import opened Fields
  import opened Errors

  /** m_value, in host byte order. */
  datatype IpAddressV4 = IpAddressV4(value: U32)

  const INADDR_ANY: U32 := 0
  const INADDR_LOOPBACK: U32 := 0x7F00_0001
  const INADDR_BROADCAST: U32 := 0xFFFF_FFFF

  function Any(): IpAddressV4 { IpAddressV4(INADDR_ANY) }
  function Localhost(): IpAddressV4 { IpAddressV4(INADDR_LOOPBACK) }
  function Broadcast(): IpAddressV4 { IpAddressV4(INADDR_BROADCAST) }

  /** The default constructor. */
  function Default(): IpAddressV4 { IpAddressV4(0) }

  /** A dotted part inet_pton accepts: one to three decimal digits, no
      leading zero (which would read as octal elsewhere), at most 255. */
  predicate IsOctet(t: string)
  {
    1 <= |t| <= 3 && AllDigits(t, 10) && (|t| > 1 ==> t[0] != '0') && ToNat(t, 10) <= 255
  }

  /** inet_pton(AF_INET): exactly four dotted parts, each an octet; the
      address in network byte order. */
  function InetPton4(s: string): Option<Bytes4>
  {
    var parts := Split(s, '.');
    if |parts| == 4 && IsOctet(parts[0]) && IsOctet(parts[1]) && IsOctet(parts[2]) && IsOctet(parts[3])
    then Some([ToNat(parts[0], 10), ToNat(parts[1], 10), ToNat(parts[2], 10), ToNat(parts[3], 10)])
    else None
  }

  /** inet_ntop(AF_INET): the four bytes in decimal, joined with dots. */
  function InetNtop4(b: Bytes4): string
  {
    Join(Parts(b), '.')
  }

  const ParseMessage := "Failed to convert text to an IPv4 address."
  const FormatMessage := "Failed to convert IPv4 from binary to the text representation."

  /** The ip_address_v4(string_view) constructor: inet_pton into an in_addr,
      then ntohl of its S_addr. */
  function Parse(s: string): Result<IpAddressV4, Exception>
  {
    match InetPton4(s)
    case None => Failure(InvalidArgument(ParseMessage))
    case Some(b) => Success(IpAddressV4(Ntohl(LoadHost32(b))))
  }

  /** What inet_ntop prints for the in_addr whose S_addr is htonl(m_value). */
  function Text(a: IpAddressV4): string
  {
    InetNtop4(StoreHost32(Htonl(a.value)))
  }

  /** The size of string()'s buffer, which inet_ntop must fit with its NUL. */
  const BufferSize := 17

  /** string(): inet_ntop into a 17-byte buffer, which never overflows, so
      the runtime_error branch cannot be taken. */
  function ToString(a: IpAddressV4): (r: Result<string, Exception>)
    ensures r == Success(Text(a))
    ensures 7 <= |r.value| <= 15
  {
    TextLength(a);
    var t := Text(a);
    if |t| + 1 > BufferSize then Failure(RuntimeError(FormatMessage)) else Success(t)
  }

  /** The decimal parts of the text are the address bytes, most significant
      first. */
  lemma TextIsNetworkOrder(a: IpAddressV4)
    ensures Text(a) == InetNtop4(BigEndian32(a.value))
  {
    NetworkLayout(a.value, [0, 0, 0, 0], 0, [0, 0]);
  }

  lemma OctetNumeral(x: Byte)
    ensures IsOctet(FromNat(x, 10)) && ToNat(FromNat(x, 10), 10) == x
    ensures Canonical(FromNat(x, 10), 10) && '.' !in FromNat(x, 10)
  {
    FromNatCanonical(x, 10);
    assert Pow(10, 3) == 1000;
    FromNatLength(x, 10, 3);
    var t := FromNat(x, 10);
    forall i | 0 <= i < |t| ensures t[i] != '.' {
      assert t[i] in Digits[..10];
    }
  }

  /** The four decimal parts inet_ntop prints for b. */
  function Parts(b: Bytes4): seq<string>
  {
    [FromNat(b[0], 10), FromNat(b[1], 10), FromNat(b[2], 10), FromNat(b[3], 10)]
  }

  /** Each part is the canonical numeral of its byte, and inet_ntop joins
      them with dots. */
  lemma PartsFacts(b: Bytes4)
    ensures var f := Parts(b);
      && |f| == 4 && Separable(f, '.') && InetNtop4(b) == Join(f, '.')
      && forall i :: 0 <= i < 4 ==> IsOctet(f[i]) && ToNat(f[i], 10) == b[i] && Canonical(f[i], 10)
  {
    var f := Parts(b);
    forall i | 0 <= i < 4
      ensures IsOctet(f[i]) && ToNat(f[i], 10) == b[i] && Canonical(f[i], 10)
      ensures f[i] != [] && '.' !in f[i]
    {
      assert f[i] == FromNat(b[i], 10);
      OctetNumeral(b[i]);
    }
  }

  lemma TextLength(a: IpAddressV4)
    ensures 7 <= |Text(a)| <= 15
  {
    TextIsNetworkOrder(a);
    var f := Parts(BigEndian32(a.value));
    PartsFacts(BigEndian32(a.value));
    JoinFour(f, '.');
    assert 1 <= |f[0]| <= 3 && 1 <= |f[1]| <= 3 && 1 <= |f[2]| <= 3 && 1 <= |f[3]| <= 3;
  }

  /** inet_pton reads back exactly the bytes inet_ntop printed. */
  lemma {:induction false} PtonNtop(b: Bytes4)
    ensures InetPton4(InetNtop4(b)) == Some(b)
  {
    var f := Parts(b);
    PartsFacts(b);
    SplitJoin(f, '.');
    assert Split(InetNtop4(b), '.') == f;
    assert IsOctet(f[0]) && IsOctet(f[1]) && IsOctet(f[2]) && IsOctet(f[3]);
    assert [ToNat(f[0], 10), ToNat(f[1], 10), ToNat(f[2], 10), ToNat(f[3], 10)] == b;
  }

  /** Formatting then parsing gives back every address: the ntohl in the
      constructor cancels the htonl in string(). */
  lemma {:induction false} ParseText(a: IpAddressV4)
    ensures Parse(Text(a)) == Success(a)
  {
    TextIsNetworkOrder(a);
    var b := BigEndian32(a.value);
    PtonNtop(b);
    NetworkLayout(a.value, b, 0, [0, 0]);
    BigEndian32RoundTrip(a.value, b);
  }

  /** Dotted text whose parts carry no leading zero. */
  predicate NoLeadingZeros(s: string)
  {
    var parts := Split(s, '.');
    forall i :: 0 <= i < |parts| ==> |parts[i]| > 1 ==> parts[i][0] != '0'
  }

  lemma DecimalCanonical(t: string)
    requires 1 <= |t| && AllDigits(t, 10) && (|t| > 1 ==> t[0] != '0')
    ensures Canonical(t, 10)
  {
    forall i | 0 <= i < |t| ensures t[i] in Digits[..10] {
      assert IsDigit(t[i], 10);
      var d := t[i] as int - '0' as int;
      assert Digits[..10][d] == t[i];
    }
  }

  /** The parsed address prints as inet_ntop prints the parsed bytes. */
  lemma TextOfParsed(s: string)
    requires Parse(s).Success?
    ensures Text(Parse(s).value) == InetNtop4(InetPton4(s).value)
  {
    var b := InetPton4(s).value;
    var a := Parse(s).value;
    NetworkLayout(a.value, b, 0, [0, 0]);
    BigEndian32RoundTrip(a.value, b);
    TextIsNetworkOrder(a);
  }

  /** Accepted text is four octets joined with dots, whose values are the
      bytes inet_pton writes ... */
  lemma PtonParts(s: string)
    requires InetPton4(s).Some?
    ensures var parts := Split(s, '.');
      && |parts| == 4 && s == Join(parts, '.')
      && forall i :: 0 <= i < 4 ==> IsOctet(parts[i]) && ToNat(parts[i], 10) == InetPton4(s).value[i]
  {
    JoinSplit(s, '.');
  }

  /** ... and any four octets joined with dots are accepted, with their
      values as the bytes. */
  lemma PtonAcceptsOctets(parts: seq<string>)
    requires |parts| == 4
    requires IsOctet(parts[0]) && IsOctet(parts[1]) && IsOctet(parts[2]) && IsOctet(parts[3])
    ensures InetPton4(Join(parts, '.'))
      == Some([ToNat(parts[0], 10), ToNat(parts[1], 10), ToNat(parts[2], 10), ToNat(parts[3], 10)])
  {
    forall i | 0 <= i < 4 ensures parts[i] != [] && '.' !in parts[i] {
      assert IsOctet(parts[i]) by {
        assert i == 0 || i == 1 || i == 2 || i == 3;
      }
      OctetChars(parts[i], '.');
    }
    SplitJoin(parts, '.');
  }

  /** An octet holds decimal digits only. */
  lemma OctetChars(t: string, c: char)
    requires IsOctet(t) && DigitValue(c) >= 10
    ensures c !in t
  {
  }

  /** inet_ntop prints back exactly the text inet_pton accepted: an octet
      has no leading zero, so it is the numeral of its own value. */
  lemma NtopPton(s: string)
    requires InetPton4(s).Some?
    ensures InetNtop4(InetPton4(s).value) == s
  {
    var parts := Split(s, '.');
    var f := Parts(InetPton4(s).value);
    PartsFacts(InetPton4(s).value);
    PtonParts(s);
    forall i | 0 <= i < 4 ensures f[i] == parts[i] {
      DecimalCanonical(parts[i]);
      ToNatCanonical(parts[i], 10);
    }
    assert f == parts;
  }

  /** Text with a part that has a leading zero is refused. */
  lemma LeadingZeroRejected(s: string)
    requires !NoLeadingZeros(s)
    ensures Parse(s).Failure?
  {
    if InetPton4(s).Some? {
      PtonParts(s);
    }
  }

  /** Parsing then formatting returns every accepted text unchanged. */
  lemma TextParse(s: string)
    requires Parse(s).Success?
    ensures Text(Parse(s).value) == s
  {
    TextOfParsed(s);
    NtopPton(s);
  }

  /** Text that is not four dotted octets is refused with invalid_argument;
      accepted text gives the address whose bytes, most significant first,
      are the ones inet_pton wrote (ntohl undoes the network order). */
  lemma ParseOutcome(s: string)
    ensures Parse(s).Failure? <==> InetPton4(s).None?
    ensures Parse(s).Failure? ==> Parse(s).error == InvalidArgument(ParseMessage)
    ensures Parse(s).Success? ==> BigEndian32(Parse(s).value.value) == InetPton4(s).value
  {
    if InetPton4(s).Some? {
      var b := InetPton4(s).value;
      NetworkLayout(0, b, 0, [0, 0]);
      BigEndian32RoundTrip(0, b);
    }
  }

  /** The parsed text is the whole view: a NUL is no part of an address, so
      text holding one is refused. */
  lemma ParseRejectsNul(s: string)
    requires '\0' in s
    ensures Parse(s).Failure?
  {
    if InetPton4(s).Some? {
      var parts := Split(s, '.');
      SplitCharacters(s, '.', '\0');
      var i :| 0 <= i < |parts| && '\0' in parts[i];
      assert IsOctet(parts[i]) by {
        assert i == 0 || i == 1 || i == 2 || i == 3;
      }
      OctetChars(parts[i], '\0');
      assert false;
    }
  }

  // ---------------------------------------------------------------------
  // The constructor as written: inet_pton reads a C string
  // ---------------------------------------------------------------------

  /** The ip_address_v4(string_view) constructor as written: inet_pton is
      handed ip.data(), which it reads as a C string, so it sees the view's
      characters followed by whatever lies after the view in memory
      (`following`), up to the first NUL. */
  function ConstructAsWritten(view: string, following: string): Result<IpAddressV4, Exception>
  {
    Parse(CString(view + following))
  }

  /** A view of a whole std::string or string literal is followed by its
      terminating NUL, and then the constructor parses exactly the view. */
  lemma ConstructFromString(view: string, rest: string)
    requires '\0' !in view
    ensures ConstructAsWritten(view, "\0" + rest) == Parse(view)
  {
    assert view + ("\0" + rest) == view + "\0" + rest;
    CStringTerminated(view, rest);
  }

  /** A NUL inside the view ends the text: the characters after it are
      ignored, where the whole view would be refused. */
  lemma ConstructStopsAtNul(v: string, w: string, following: string)
    requires '\0' !in v
    ensures ConstructAsWritten(v + "\0" + w, following) == Parse(v)
    ensures Parse(v + "\0" + w).Failure?
  {
    assert v + "\0" + w + following == v + "\0" + (w + following);
    CStringTerminated(v, w + following);
    assert (v + "\0" + w)[|v|] == '\0';
    ParseRejectsNul(v + "\0" + w);
  }

  /** The view "1.2.3", cut from the text "1.2.3.4", is no address, but the
      constructor reads on past its end and yields 1.2.3.4. */
  lemma ConstructReadsPastView(view: string, following: string)
    requires view == "1.2.3" && following == ".4\0"
    ensures Parse(view).Failure?
    ensures ConstructAsWritten(view, following) == Success(IpAddressV4(0x0102_0304))
  {
    RejectsThreeParts();
    assert view + following == "1.2.3.4" + "\0" + "";
    CStringTerminated("1.2.3.4", "");
    SampleRoundTrip();
  }

  /** A leading zero in the first part is refused: "01.2.3.4". */
  lemma RejectsLeadingZeroFirst()
    ensures Parse("01.2.3.4").Failure?
  {
    assert "01.2.3.4" == "01" + ['.'] + "2.3.4";
    SplitAtSeparator("01", '.', "2.3.4");
    assert Split("01.2.3.4", '.')[0] == "01";
    LeadingZeroRejected("01.2.3.4");
  }

  /** A leading zero in the last part is refused: "1.2.3.04". */
  lemma RejectsLeadingZeroLast()
    ensures Parse("1.2.3.04").Failure?
  {
    assert "1.2.3.04" == "1" + ['.'] + ("2" + ['.'] + ("3" + ['.'] + "04"));
    SplitAtSeparator("1", '.', "2.3.04");
    SplitAtSeparator("2", '.', "3.04");
    SplitAtSeparator("3", '.', "04");
    SplitNoSeparator("04", '.');
    assert Split("1.2.3.04", '.')[3] == "04";
    LeadingZeroRejected("1.2.3.04");
  }

  /** A part above 255 is refused: "999.1.1.1". */
  lemma RejectsLargePart()
    ensures Parse("999.1.1.1").Failure?
  {
    SplitAtSeparator("999", '.', "1.1.1");
    assert "999.1.1.1" == "999" + ['.'] + "1.1.1";
    NotAnOctet();
  }

  lemma NotAnOctet()
    ensures !IsOctet("999")
  {
    var s := "999";
    assert s[..2] == "99" && s[..2][..1] == "9" && s[..2][..1][..0] == "";
    assert ToNat(s[..2][..1], 10) == 9;
    assert ToNat(s[..2], 10) == 99;
    assert ToNat(s, 10) == 999;
  }

  /** Text without dots is refused: "not-an-ip". */
  lemma RejectsName()
    ensures Parse("not-an-ip").Failure?
  {
    SplitNoSeparator("not-an-ip", '.');
  }

  /** Three parts are refused: "1.2.3". */
  lemma RejectsThreeParts()
    ensures Parse("1.2.3").Failure?
  {
    assert "1.2.3" == "1" + ['.'] + ("2" + ['.'] + "3");
    SplitAtSeparator("1", '.', "2.3");
    SplitAtSeparator("2", '.', "3");
    SplitNoSeparator("3", '.');
  }

  /** An empty part is refused: "1..3.4". */
  lemma RejectsEmptyPart()
    ensures Parse("1..3.4").Failure?
  {
    assert "1..3.4" == "1" + ['.'] + ("" + ['.'] + "3.4");
    SplitAtSeparator("1", '.', ".3.4");
    SplitAtSeparator("", '.', "3.4");
  }

  /** The constants are 0.0.0.0, 127.0.0.1 and 255.255.255.255. */
  lemma AnyText()
    ensures Text(Any()) == "0.0.0.0"
  {
    Constant(Any(), [0, 0, 0, 0]);
  }

  lemma LocalhostText()
    ensures Text(Localhost()) == "127.0.0.1"
  {
    assert FromNat(127, 10) == FromNat(12, 10) + "7" == FromNat(1, 10) + "2" + "7";
    Constant(Localhost(), [127, 0, 0, 1]);
  }

  lemma BroadcastText()
    ensures Text(Broadcast()) == "255.255.255.255"
  {
    var t := FromNat(255, 10);
    assert t == FromNat(25, 10) + "5" == FromNat(2, 10) + "5" + "5";
    Constant(Broadcast(), [255, 255, 255, 255]);
    assert t + "." + t + "." + t + "." + t == "255.255.255.255";
  }

  /** "1.2.3.4" parses to 0x01020304 and prints back unchanged. */
  lemma SampleText()
    ensures Text(IpAddressV4(0x0102_0304)) == "1.2.3.4"
  {
    assert BigEndian32(0x0102_0304) == [1, 2, 3, 4];
    Constant(IpAddressV4(0x0102_0304), [1, 2, 3, 4]);
  }

  lemma SampleRoundTrip()
    ensures Parse("1.2.3.4") == Success(IpAddressV4(0x0102_0304))
  {
    SampleText();
    ParseText(IpAddressV4(0x0102_0304));
  }

  lemma Constant(a: IpAddressV4, b: Bytes4)
    requires BigEndian32(a.value) == b
    ensures Text(a) == FromNat(b[0], 10) + "." + FromNat(b[1], 10) + "." + FromNat(b[2], 10) + "." + FromNat(b[3], 10)
  {
    TextIsNetworkOrder(a);
    PartsFacts(b);
    JoinFour(Parts(b), '.');
  }
}
