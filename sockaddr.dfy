/** What the socket methods compute before and after each OS call: the
    sockaddr_in / sockaddr_in6 they fill in for an endpoint and the endpoint
    they read back from one, the family guard, the rule applied to I/O
    counts, the file-status flags of set_non_blocking, and the size_t to int
    conversion of the span overloads. Each place where the code as written
    departs from the evidently intended behaviour has an as-written function
    and a lemma showing an input on which the two differ. */
module SocketAddresses {
  import opened Outcomes
  import opened Numeric
  import opened ByteOrder
  import opened Errors
  import opened Endpoints
  import IpV4
  import IpV6

  /** impl::family: AF_INET or AF_INET6. */
  datatype Family = Inet | Inet6

  /** The family an address belongs to. */
  function FamilyOf(ip: AnyAddress): (f: Family)
    ensures f == Inet <==> ip.V4?
  {
    if ip.V4? then Inet else Inet6
  }

  /** The guard of bind and connect: a v4 endpoint (variant index 0) on an
      AF_INET6 socket, or a v6 endpoint (index 1) on an AF_INET socket. */
  predicate Mismatch(ip: AnyAddress, family: Family)
  {
    (ip.Index() == 0 && family == Inet6) || (ip.Index() == 1 && family == Inet)
  }

  /** The guard rejects exactly the endpoints of the other family; it relies
      on v4 being the variant's first alternative. */
  lemma MismatchIsOtherFamily(ip: AnyAddress, family: Family)
    ensures Mismatch(ip, family) <==> FamilyOf(ip) != family
  {
    assert ip.Index() == 0 <==> ip.V4?;
  }

  // ---------------------------------------------------------------------
  // Socket addresses
  // ---------------------------------------------------------------------

  /** The fields of a sockaddr_in or sockaddr_in6 as they lie in memory, read
      as host integers: sin_port / sin6_port, sin_addr.s_addr, and the words
      of sin6_addr. SockAddrOther is a sockaddr_storage whose ss_family is
      neither AF_INET nor AF_INET6 (0 when recvfrom fills in no address),
      with what lies where sin6_port and sin6_addr would be. */
  datatype SockAddr =
    | SockAddrIn(port: U16, addr: U32)
    | SockAddrIn6(port: U16, words: IpV6.Words)
    | SockAddrOther(port: U16, words: IpV6.Words)

  /** The branch the `ss_family == AF_INET` test of receive_from and
      get_endpoint takes: the AF_INET branch for an AF_INET name, and the
      AF_INET6 branch for every other family. */
  function SockAddrFamily(s: SockAddr): (f: Family)
    ensures f == Inet <==> s.SockAddrIn?
  {
    if s.SockAddrIn? then Inet else Inet6
  }

  /** The zero-initialised sockaddr_storage of receive_from, as it stays when
      recvfrom fills in no address. */
  function Unfilled(): (s: SockAddr)
    ensures s.SockAddrOther?
  {
    SockAddrOther(0, [0, 0, 0, 0, 0, 0, 0, 0])
  }

  /** sizeof of the address structures on Windows: struct sockaddr and
      sockaddr_in are 16 bytes, sockaddr_in6 28, sockaddr_storage 128. */
  const SizeOfSockAddr: nat := 16
  const SizeOfSockAddrStorage: nat := 128

  function SockAddrSize(f: Family): (n: nat)
    ensures n <= SizeOfSockAddrStorage
  {
    match f
    case Inet => 16
    case Inet6 => 28
  }

  /** socket(void*) as written hands getsockname a struct sockaddr: room for
      an AF_INET name, not for an AF_INET6 one, for which Windows' getsockname
      fails with WSAEFAULT. */
  lemma AdoptNameTooShort()
    ensures SockAddrSize(Inet) <= SizeOfSockAddr < SockAddrSize(Inet6)
  {
  }

  /** The sockaddr bind and send_to fill in: htons of the port, htonl of the
      IPv4 value, the IPv6 words copied as they are. */
  function SockAddrOf(e: Endpoint): (s: SockAddr)
    ensures SockAddrFamily(s) == FamilyOf(e.ip)
  {
    match e.ip
    case V4(a) => SockAddrIn(Htons(e.port), Htonl(a.value))
    case V6(a) => SockAddrIn6(Htons(e.port), a.words)
  }

  /** The endpoint accept builds from the peer's sockaddr: ntohs of the port,
      ntohl of the IPv4 value, the IPv6 words copied as they are. */
  function EndpointOf(s: SockAddr): (e: Endpoint)
    ensures FamilyOf(e.ip) == SockAddrFamily(s)
  {
    match s
    case SockAddrIn(port, addr) => Endpoint(V4(IpV4.IpAddressV4(Ntohl(addr))), Ntohs(port))
    case SockAddrIn6(port, words) => Endpoint(V6(IpV6.IpAddressV6(words)), Ntohs(port))
    case SockAddrOther(port, words) => Endpoint(V6(IpV6.IpAddressV6(words)), Ntohs(port))
  }

  /** A datagram whose sender recvfrom does not fill in (ss_family 0) is
      reported as coming from [::]:0, even on an AF_INET socket. */
  lemma UnfilledReadsAsAny()
    ensures EndpointOf(Unfilled()) == Endpoint(V6(IpV6.Any()), 0)
  {
    IpV6.AnyParses();
    SwapInvolutive(0, 0);
  }

  /** Reading back a sockaddr filled in for an endpoint gives the endpoint. */
  lemma EndpointOfSockAddr(e: Endpoint)
    ensures EndpointOf(SockAddrOf(e)) == e
  {
    match e.ip
    case V4(a) => SwapInvolutive(a.value, e.port);
    case V6(a) => SwapInvolutive(0, e.port);
  }

  /** Filling in a sockaddr for the endpoint read from one gives it back;
      a name of another family comes back as the AF_INET6 name it was read
      as. */
  lemma SockAddrOfEndpoint(s: SockAddr)
    ensures !s.SockAddrOther? ==> SockAddrOf(EndpointOf(s)) == s
    ensures s.SockAddrOther? ==> SockAddrOf(EndpointOf(s)) == SockAddrIn6(s.port, s.words)
  {
    match s
    case SockAddrIn(port, addr) => SwapInvolutive(addr, port);
    case SockAddrIn6(port, words) => SwapInvolutive(0, port);
    case SockAddrOther(port, words) => SwapInvolutive(0, port);
  }

  /** The bytes bind and send_to put on the wire are the address and port in
      network order: for a.b.c.d the bytes a, b, c, d, the very bytes the
      address's text prints. */
  lemma WireOrder(e: Endpoint)
    requires e.ip.V4?
    ensures StoreHost32(SockAddrOf(e).addr) == BigEndian32(e.ip.v4.value)
    ensures StoreHost16(SockAddrOf(e).port) == BigEndian16(e.port)
    ensures IpV4.InetNtop4(StoreHost32(SockAddrOf(e).addr)) == IpV4.Text(e.ip.v4)
  {
    NetworkLayout(e.ip.v4.value, [0, 0, 0, 0], e.port, [0, 0]);
    IpV4.TextIsNetworkOrder(e.ip.v4);
  }

  // ---------------------------------------------------------------------
  // The three byte-order slips, as written
  // ---------------------------------------------------------------------

  /** connect's sockaddr as written: the IPv4 value is stored without htonl. */
  function ConnectSockAddrAsWritten(e: Endpoint): SockAddr
  {
    match e.ip
    case V4(a) => SockAddrIn(Htons(e.port), a.value)
    case V6(a) => SockAddrIn6(Htons(e.port), a.words)
  }

  /** get_endpoint as written: the IPv4 value is taken without ntohl. */
  function GetEndpointAsWritten(s: SockAddr): Endpoint
  {
    match s
    case SockAddrIn(port, addr) => Endpoint(V4(IpV4.IpAddressV4(addr)), Ntohs(port))
    case SockAddrIn6(port, words) => Endpoint(V6(IpV6.IpAddressV6(words)), Ntohs(port))
    case SockAddrOther(port, words) => Endpoint(V6(IpV6.IpAddressV6(words)), Ntohs(port))
  }

  /** receive_from as written: the IPv6 port is taken without ntohs. */
  function ReceivedFromAsWritten(s: SockAddr): Endpoint
  {
    match s
    case SockAddrIn(port, addr) => Endpoint(V4(IpV4.IpAddressV4(Ntohl(addr))), Ntohs(port))
    case SockAddrIn6(port, words) => Endpoint(V6(IpV6.IpAddressV6(words)), port)
    case SockAddrOther(port, words) => Endpoint(V6(IpV6.IpAddressV6(words)), port)
  }

  /** The byte values of 127.0.0.1 in host and in network order. */
  lemma LoopbackBytes(x: U32)
    requires x == 0x7F00_0001
    ensures StoreHost32(x) == [1, 0, 0, 127] && BigEndian32(x) == [127, 0, 0, 1]
    ensures Htonl(x) == 0x0100_007F && Ntohl(x) == 0x0100_007F
  {
  }

  /** connect to 127.0.0.1 as written sends the bytes 1, 0, 0, 127, the
      address 1.0.0.127; bind's conversion, which the model uses for
      connect, sends 127, 0, 0, 1. */
  lemma ConnectLoopbackReversed(e: Endpoint)
    requires e.ip == V4(IpV4.Localhost())
    ensures StoreHost32(ConnectSockAddrAsWritten(e).addr) == [1, 0, 0, 127]
    ensures StoreHost32(SockAddrOf(e).addr) == [127, 0, 0, 1]
  {
    var x := e.ip.v4.value;
    LoopbackBytes(x);
    WireOrder(e);
  }

  /** A socket bound to 127.0.0.1 reports, through get_endpoint as written,
      the value 0x0100007F (1.0.0.127); read with ntohl it is 127.0.0.1. */
  lemma GetEndpointLoopbackReversed(s: SockAddr)
    requires s == SockAddrIn(0, 0x0100_007F)
    ensures GetEndpointAsWritten(s).ip.v4.value == 0x0100_007F
    ensures s == SockAddrOf(Endpoint(V4(IpV4.Localhost()), 0))
    ensures EndpointOf(s).ip == V4(IpV4.Localhost())
  {
    LoopbackBytes(0x7F00_0001);
    SwapInvolutive(0x7F00_0001, 0);
  }

  /** Port 80 travels as the bytes 0, 80, which the host reads as 0x5000. */
  lemma PortEightyBytes(p: U16)
    requires p == 80
    ensures Htons(p) == 0x5000 && Ntohs(0x5000) == p
  {
  }

  /** A datagram from [::1]:80, read by receive_from as written, reports
      port 20480. */
  lemma ReceiveFromV6PortSwapped(s: SockAddr)
    requires s == SockAddrIn6(0x5000, IpV6.Localhost().words)
    ensures ReceivedFromAsWritten(s).port == 20480
    ensures EndpointOf(s) == Endpoint(V6(IpV6.Localhost()), 80)
    ensures s == SockAddrOf(Endpoint(V6(IpV6.Localhost()), 80))
  {
    PortEightyBytes(80);
  }

  /** Apart from those slips, the as-written conversions are the corrected
      ones: IPv6 for connect and get_endpoint, IPv4 for receive_from. */
  lemma AsWrittenElsewhereAgrees(e: Endpoint, s: SockAddr)
    ensures e.ip.V6? ==> ConnectSockAddrAsWritten(e) == SockAddrOf(e)
    ensures !s.SockAddrIn? ==> GetEndpointAsWritten(s) == EndpointOf(s)
    ensures s.SockAddrIn? ==> ReceivedFromAsWritten(s) == EndpointOf(s)
  {
  }

  // ---------------------------------------------------------------------
  // I/O counts
  // ---------------------------------------------------------------------

  /** What receive, send, receive_from and send_to make of the count the OS
      returns: a negative count is a socket_exception, any other is returned
      unchanged, so a successful result is never negative and a zero-byte
      receive is a success. */
  function IoResult(platform: Platform, count: int, lastError: int): (r: Result<int, Exception>)
    ensures r.Success? <==> count >= 0
    ensures r.Success? ==> r.value == count && r.value >= 0
    ensures r.Failure? ==> r.error == Socket(MakeSocketException(platform, lastError))
  {
    if count < 0 then Failure(Socket(MakeSocketException(platform, lastError))) else Success(count)
  }

  /** The most bytes the OS can deliver into a buffer of `size` bytes when
      handed the int `length`: length itself when it is a length the buffer
      holds. A negative length reaches ::recv unchecked (as a huge size_t on
      POSIX); the model bounds the delivery by the buffer only. */
  function RecvCapacity(length: int, size: nat): (n: nat)
    ensures n <= size
    ensures 0 <= length <= size ==> n == length
  {
    if 0 <= length <= size then length else size
  }

  // ---------------------------------------------------------------------
  // Non-blocking mode
  // ---------------------------------------------------------------------

  /** O_NONBLOCK on Linux (octal 04000). */
  const O_NONBLOCK: bv32 := 0x800

  predicate NonBlocking(flags: bv32)
  {
    flags & O_NONBLOCK != 0
  }

  /** The FIONBIO argument on Windows: non-zero turns non-blocking mode on. */
  function WindowsMode(state: bool): nat
  {
    if state then 1 else 0
  }

  /** The flags set_non_blocking writes back on POSIX, as written. */
  function PosixFlagsAsWritten(state: bool, flags: bv32): bv32
  {
    if state then flags & !O_NONBLOCK else flags | O_NONBLOCK
  }

  /** The flags set_non_blocking(state) evidently means to write back. */
  function PosixFlags(state: bool, flags: bv32): bv32
  {
    if state then flags | O_NONBLOCK else flags & !O_NONBLOCK
  }

  /** The corrected flags make the descriptor non-blocking exactly when state
      is true, as the Windows branch does, and keep every other flag. */
  lemma PosixFlagsAgreeWithWindows(state: bool, flags: bv32)
    ensures NonBlocking(PosixFlags(state, flags)) == state == (WindowsMode(state) != 0)
    ensures PosixFlags(state, flags) & !O_NONBLOCK == flags & !O_NONBLOCK
  {
    if state {
      SetKeepsOthers(flags);
    } else {
      ClearKeepsOthers(flags);
    }
  }

  lemma SetKeepsOthers(flags: bv32)
    ensures (flags | O_NONBLOCK) & O_NONBLOCK == O_NONBLOCK
    ensures (flags | O_NONBLOCK) & !O_NONBLOCK == flags & !O_NONBLOCK
  {
  }

  lemma ClearKeepsOthers(flags: bv32)
    ensures (flags & !O_NONBLOCK) & O_NONBLOCK == 0
    ensures (flags & !O_NONBLOCK) & !O_NONBLOCK == flags & !O_NONBLOCK
  {
  }

  /** As written, the POSIX branch does the opposite: set_non_blocking(true)
      leaves the descriptor blocking and set_non_blocking(false) makes it
      non-blocking. */
  lemma PosixFlagsAsWrittenInverted(state: bool, flags: bv32)
    ensures NonBlocking(PosixFlagsAsWritten(state, flags)) == !state
    ensures PosixFlagsAsWritten(state, flags) == PosixFlags(!state, flags)
  {
  }

  // ---------------------------------------------------------------------
  // The span overloads' length
  // ---------------------------------------------------------------------

  /** static_cast<int> of span::size_bytes(): the size modulo 2^32, read as a
      signed 32-bit integer. */
  function SizeToInt(n: nat): (r: int)
    ensures -0x8000_0000 <= r < 0x8000_0000
    ensures (n - r) % 0x1_0000_0000 == 0
    ensures r <= n
  {
    var m := n % 0x1_0000_0000;
    if m < 0x8000_0000 then m else m - 0x1_0000_0000
  }

  /** A span shorter than 2^31 bytes is forwarded with its exact size. */
  lemma SizeToIntExact(n: nat)
    requires n < 0x8000_0000
    ensures SizeToInt(n) == n
  {
  }

  /** A span of 2^31 bytes would be forwarded with a negative length. */
  lemma SizeToIntWraps(n: nat)
    requires n == 0x8000_0000
    ensures SizeToInt(n) < 0
  {
  }
}
