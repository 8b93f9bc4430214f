// The endpoint value type: an IPv4 or IPv6 address (the any_address
// variant, in that order) and a 16-bit port, with its text form
// "ip:port" or "[ip]:port" (the IPv6-literal convention of RFC 3986,
// section 3.2.2).

module Endpoints {
  import opened Outcomes
  import opened Numeric
  import opened Fields
  import ByteOrder
  import opened Errors
  import IpV4
  import IpV6

  /** std::variant<ip_address_v4, ip_address_v6>. */
  datatype AnyAddress = V4(v4: IpV4.IpAddressV4) | V6(v6: IpV6.IpAddressV6)
  {
    /** The variant's index(): the position of the alternative in the
        variant's list, which the socket's family guard compares against. */
    function Index(): (n: nat)
      ensures n < 2
      ensures n == 0 <==> V4?
    {
      match this
      case V4(_) => 0
      case V6(_) => 1
    }
  }

  datatype Endpoint = Endpoint(ip: AnyAddress, port: U16)

  /** endpoint(): m_ip(0) selects the ip_address_v4(uint32) alternative. */
  function Default(): (e: Endpoint)
    ensures e.ip.Index() == 0 && e.ip.v4.value == 0 && e.port == 0
  {
    Endpoint(V4(IpV4.Default()), 0)
  }

  /** std::to_string of the port: decimal, no leading zeros. */
  function PortText(port: U16): string
  {
    FromNat(port, 10)
  }

  /** What string() returns: the address text, bracketed for IPv6, then
      ":" and the port. */
  function Text(e: Endpoint): string
  {
    HostText(e.ip) + ":" + PortText(e.port)
  }

  /** The visitor's part: IPv4 text as is, IPv6 text in brackets. */
  function HostText(ip: AnyAddress): string
  {
    match ip
    case V4(a) => IpV4.Text(a)
    case V6(a) => "[" + IpV6.Text(a) + "]"
  }

  /** string(): the visitor formats the address through its own string(),
      whose error branch is never taken, so string() always succeeds. */
  function ToString(e: Endpoint): (r: Result<string, Exception>)
    ensures r == Success(Text(e))
    ensures |r.value| <= 47
  {
    PortTextLength(e.port);
    var ip :=
      match e.ip
      case V4(a) => IpV4.ToString(a)
      case V6(a) =>
        (match IpV6.ToString(a)
         case Success(t) => Success("[" + t + "]")
         case Failure(x) => Failure(x));
    match ip
    case Failure(x) => Failure(x)
    case Success(t) => Success(t + ":" + PortText(e.port))
  }

  // ---------------------------------------------------------------------
  // Reading the text form back
  // ---------------------------------------------------------------------

  /** Position of the last occurrence of c in s. */
  function LastIndexOf(s: string, c: char): (r: Option<nat>)
    ensures r.Some? ==> r.value < |s| && s[r.value] == c && c !in s[r.value + 1..]
    ensures r.None? ==> c !in s
  {
    if s == [] then None
    else if s[|s| - 1] == c then Some(|s| - 1)
    else
      var r := LastIndexOf(s[..|s| - 1], c);
      assert s == s[..|s| - 1] + [s[|s| - 1]];
      if r.Some? then
        assert s[r.value + 1..] == s[..|s| - 1][r.value + 1..] + [s[|s| - 1]];
        r
      else r
  }

  /** A port as to_string prints it: a canonical decimal numeral below 65536. */
  function PortOf(t: string): Option<U16>
  {
    if |t| <= 5 && AllDigits(t, 10) && Canonical(t, 10) && ToNat(t, 10) <= 0xFFFF
    then Some(ToNat(t, 10))
    else None
  }

  /** The inverse of Text: split at the last colon; a bracketed host is an
      IPv6 address, any other an IPv4 one. */
  function FromText(s: string): Option<Endpoint>
  {
    match LastIndexOf(s, ':')
    case None => None
    case Some(k) =>
      var host := s[..k];
      match PortOf(s[k + 1..])
      case None => None
      case Some(port) =>
        if 2 <= |host| && host[0] == '[' && host[|host| - 1] == ']' then
          match IpV6.Parse(host[1..|host| - 1])
          case Success(a) => Some(Endpoint(V6(a), port))
          case Failure(_) => None
        else
          match IpV4.Parse(host)
          case Success(a) => Some(Endpoint(V4(a), port))
          case Failure(_) => None
  }

  // ---------------------------------------------------------------------
  // Properties
  // ---------------------------------------------------------------------

  /** The port's text is one to five decimal digits and reads back as the port. */
  lemma PortTextLength(port: U16)
    ensures 1 <= |PortText(port)| <= 5
    ensures ':' !in PortText(port)
    ensures PortOf(PortText(port)) == Some(port)
  {
    var t := PortText(port);
    FromNatCanonical(port, 10);
    assert Pow(10, 5) == 100000 by {
      assert Pow(10, 2) == 100;
    }
    FromNatLength(port, 10, 5);
    assert forall i :: 0 <= i < |t| ==> t[i] in Digits[..10];
    assert ':' !in Digits[..10];
  }

  /** The last colon of a + ":" + b is the one before b when b has none. */
  lemma {:induction false} LastColon(a: string, b: string)
    requires ':' !in b
    ensures LastIndexOf(a + ":" + b, ':') == Some(|a|)
    decreases |b|
  {
    var s := a + ":" + b;
    if b != [] {
      assert s[|s| - 1] == b[|b| - 1];
      assert s[..|s| - 1] == a + ":" + b[..|b| - 1];
      LastColon(a, b[..|b| - 1]);
    }
  }

  /** IPv4 text begins with a decimal digit, so it is never bracketed. */
  lemma V4TextUnbracketed(a: IpV4.IpAddressV4)
    ensures |IpV4.Text(a)| > 0 && IpV4.Text(a)[0] in Digits[..10]
  {
    IpV4.TextIsNetworkOrder(a);
    var f := IpV4.Parts(ByteOrder.BigEndian32(a.value));
    IpV4.PartsFacts(ByteOrder.BigEndian32(a.value));
    JoinFour(f, '.');
    assert IpV4.Text(a) == f[0] + "." + f[1] + "." + f[2] + "." + f[3];
    assert Canonical(f[0], 10);
  }

  /** Splitting the text at its last colon gives back the host text and
      the port. */
  lemma SplitHostPort(host: string, port: U16)
    ensures var s := host + ":" + PortText(port);
      LastIndexOf(s, ':') == Some(|host|) && s[..|host|] == host
      && PortOf(s[|host| + 1..]) == Some(port)
  {
    PortTextLength(port);
    LastColon(host, PortText(port));
    var s := host + ":" + PortText(port);
    assert s[..|host|] == host && s[|host| + 1..] == PortText(port);
  }

  /** Unbracketed host text that parses as an IPv4 address reads back. */
  lemma UnbracketedHost(host: string, a: IpV4.IpAddressV4, port: U16)
    requires IpV4.Parse(host) == Success(a) && |host| > 0 && host[0] != '['
    ensures FromText(host + ":" + PortText(port)) == Some(Endpoint(V4(a), port))
  {
    SplitHostPort(host, port);
  }

  /** Bracketed host text that parses as an IPv6 address reads back. */
  lemma BracketedHost(t: string, a: IpV6.IpAddressV6, port: U16)
    requires IpV6.Parse(t) == Success(a)
    ensures FromText("[" + t + "]" + ":" + PortText(port)) == Some(Endpoint(V6(a), port))
  {
    var host := "[" + t + "]";
    SplitHostPort(host, port);
    assert host[1..|host| - 1] == t;
  }

  lemma V4RoundTrip(a: IpV4.IpAddressV4, port: U16)
    ensures FromText(Text(Endpoint(V4(a), port))) == Some(Endpoint(V4(a), port))
  {
    V4TextUnbracketed(a);
    IpV4.ParseText(a);
    UnbracketedHost(IpV4.Text(a), a, port);
  }

  lemma V6RoundTrip(a: IpV6.IpAddressV6, port: U16)
    ensures FromText(Text(Endpoint(V6(a), port))) == Some(Endpoint(V6(a), port))
  {
    IpV6.ParseText(a);
    BracketedHost(IpV6.Text(a), a, port);
  }

  /** string() loses nothing: the endpoint can be read back from its text. */
  lemma TextRoundTrip(e: Endpoint)
    ensures FromText(Text(e)) == Some(e)
  {
    match e.ip
    case V4(a) => V4RoundTrip(a, e.port);
    case V6(a) => V6RoundTrip(a, e.port);
  }

  /** Different endpoints have different text. */
  lemma TextInjective(e: Endpoint, f: Endpoint)
    requires Text(e) == Text(f)
    ensures e == f
  {
    TextRoundTrip(e);
    TextRoundTrip(f);
  }

  lemma PortNumerals()
    ensures PortText(8080) == "8080" && PortText(80) == "80"
  {
    assert FromNat(80, 10) == FromNat(8, 10) + "0";
    assert FromNat(808, 10) == FromNat(80, 10) + "8";
    assert FromNat(8080, 10) == FromNat(808, 10) + "0";
  }

  /** The IPv4 loopback endpoint on port 8080 prints as "127.0.0.1:8080". */
  lemma V4LoopbackText()
    ensures Text(Endpoint(V4(IpV4.Localhost()), 8080)) == "127.0.0.1:8080"
  {
    IpV4.LocalhostText();
    PortNumerals();
  }

  /** The IPv6 loopback endpoint on port 80 prints as "[::1]:80". */
  lemma V6LoopbackText(a: IpV6.IpAddressV6, port: U16)
    requires a == IpV6.Localhost() && port == 80
    ensures Text(Endpoint(V6(a), port)) == "[::1]:80"
  {
    var t := IpV6.Text(a);
    IpV6.LocalhostText();
    var h := "[" + t + "]";
    assert HostText(V6(a)) == h == "[::1]";
    PortNumerals();
    assert Text(Endpoint(V6(a), port)) == h + ":" + PortText(port) == "[::1]:80";
  }
}
