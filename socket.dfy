/** The socket handle: a move-only owner of an impl (an address family and an
    OS socket) whose methods fill in socket addresses, call the operating
    system and turn its replies into results or exceptions.

    The operating system is not modelled: every reply the library reads from
    it (a return status, a count, a descriptor, the address getsockname or
    recvfrom fills in, the last error code) is a parameter of the method
    that makes the call, and the calls made so far are recorded in Os.calls,
    so that each method states which calls it makes, in which order, with
    which arguments, and which it does not make. */
module Sockets {
  import opened Outcomes
  import opened Numeric
  import opened Errors
  import opened Endpoints
  import opened SocketAddresses

  datatype IpVersion = Version4 | Version6

  datatype Protocol = Udp | Tcp

  function FamilyOfVersion(version: IpVersion): (f: Family)
    ensures f == Inet <==> version == Version4
  {
    if version == Version4 then Inet else Inet6
  }

  const SOCK_STREAM := 1
  const SOCK_DGRAM := 2
  const IPPROTO_TCP := 6
  const IPPROTO_UDP := 17

  /** The socket type and protocol number ::socket is called with. */
  function SocketKind(protocol: Protocol): (r: (int, int))
    ensures protocol == Tcp ==> r == (SOCK_STREAM, IPPROTO_TCP)
    ensures protocol == Udp ==> r == (SOCK_DGRAM, IPPROTO_UDP)
  {
    if protocol == Tcp then (SOCK_STREAM, IPPROTO_TCP) else (SOCK_DGRAM, IPPROTO_UDP)
  }

  /** INVALID_SOCKET: ~0 as an unsigned 64-bit SOCKET on Windows, -1 as a
      POSIX descriptor. */
  function InvalidSocket(platform: Platform): int
  {
    match platform
    case Windows => 0xFFFF_FFFF_FFFF_FFFF
    case Posix => -1
  }

  const BindMismatchMessage := "Can't bind socket to endpoint of different version."
  const ConnectMismatchMessage := "Can't connect socket to endpoint of different version."
  const BroadcastMessage := "Failed to set socket to broadcasting mode."
  const NoDelayMessage := "Failed to set socket to no delay mode."

  /** What getsockname returns and the address it fills in. */
  datatype NameReply = NameReply(status: int, addr: SockAddr)

  /** The two options setsockopt is asked for: SO_BROADCAST at level
      SOL_SOCKET and TCP_NODELAY at level IPPROTO_TCP. */
  datatype SocketOption = Broadcast | TcpNoDelay

  /** The calls the library makes into the operating system. */
  datatype OsCall =
    | CallSocket(family: Family, kind: int, protocol: int)
    | CallGetSockName(sock: int, namelen: nat)
    | CallBind(sock: int, addr: SockAddr)
    | CallListen(sock: int, backlog: int)
    | CallConnect(sock: int, addr: SockAddr)
    | CallAccept(sock: int)
    | CallRecv(sock: int, length: int)
    | CallSend(sock: int, buffer: seq<Byte>, length: int)
    | CallRecvFrom(sock: int, length: int)
    | CallSendTo(sock: int, buffer: seq<Byte>, length: int, addr: SockAddr)
    | CallGetFlags(sock: int)
    | CallSetFlags(sock: int, flags: bv32)
    | CallIoctlNonBlocking(sock: int, mode: nat)
    | CallSetSockOpt(sock: int, option: SocketOption, value: nat)
    | CallClose(sock: int)

  /** The operating system as the library sees it. */
  class Os {
    const platform: Platform
    ghost var calls: seq<OsCall>

    constructor (platform: Platform)
      ensures this.platform == platform && calls == []
    {
      this.platform := platform;
      calls := [];
    }
  }

  /** socket::impl. */
  class Impl {
    const family: Family
    const sock: int

    constructor (family: Family, sock: int)
      ensures this.family == family && this.sock == sock
    {
      this.family := family;
      this.sock := sock;
    }
  }

  /** socket::connection: the accepted socket and the peer's endpoint. */
  datatype Connection = Connection(socket: Socket, peer: Endpoint)

  class Socket {
    /** m_impl: null when the handle owns nothing. */
    var impl: Impl?

    constructor Wrap(impl: Impl?)
      ensures this.impl == impl
    {
      this.impl := impl;
    }

    /** socket(version, protocol): records the family, asks the OS for a TCP
        stream or UDP datagram socket of that family, and fails if it
        returns INVALID_SOCKET. */
    static method Open(os: Os, version: IpVersion, protocol: Protocol, handle: int, lastError: int)
      returns (r: Result<Socket, Exception>)
      modifies os
      ensures os.calls == old(os.calls)
        + [CallSocket(FamilyOfVersion(version), SocketKind(protocol).0, SocketKind(protocol).1)]
      ensures r.Success? <==> handle != InvalidSocket(os.platform)
      ensures r.Success? ==>
        && fresh(r.value) && r.value.impl != null && fresh(r.value.impl)
        && r.value.impl.family == FamilyOfVersion(version) && r.value.impl.sock == handle
      ensures r.Failure? ==> r.error == Socket(MakeSocketException(os.platform, lastError))
    {
      var family := FamilyOfVersion(version);
      var kind := SocketKind(protocol);
      os.calls := os.calls + [CallSocket(family, kind.0, kind.1)];
      if handle == InvalidSocket(os.platform) {
        return Failure(Socket(MakeSocketException(os.platform, lastError)));
      }
      var impl := new Impl(family, handle);
      var s := new Socket.Wrap(impl);
      r := Success(s);
    }

    /** socket(void*) as written: it checks the descriptor with getsockname
        into a plain struct sockaddr, too short for an AF_INET6 name, and
        never creates m_impl, so the handle owns nothing. */
    static method AdoptAsWritten(os: Os, fd: int, name: NameReply, lastError: int)
      returns (r: Result<Socket, Exception>)
      modifies os
      ensures os.calls == old(os.calls) + [CallGetSockName(fd, SizeOfSockAddr)]
      ensures r.Success? <==> name.status == 0
      ensures r.Success? ==> fresh(r.value) && r.value.impl == null
      ensures r.Failure? ==> r.error == Socket(MakeSocketException(os.platform, lastError))
    {
      os.calls := os.calls + [CallGetSockName(fd, SizeOfSockAddr)];
      if name.status != 0 {
        return Failure(Socket(MakeSocketException(os.platform, lastError)));
      }
      var s := new Socket.Wrap(null);
      r := Success(s);
    }

    /** socket(void*) as evidently intended: getsockname into a
        sockaddr_storage, and the handle takes ownership of the descriptor,
        with the family getsockname reports. */
    static method Adopt(os: Os, fd: int, name: NameReply, lastError: int)
      returns (r: Result<Socket, Exception>)
      modifies os
      ensures os.calls == old(os.calls) + [CallGetSockName(fd, SizeOfSockAddrStorage)]
      ensures r.Success? <==> name.status == 0
      ensures r.Success? ==>
        && fresh(r.value) && r.value.impl != null && fresh(r.value.impl)
        && r.value.impl.sock == fd && r.value.impl.family == SockAddrFamily(name.addr)
      ensures r.Failure? ==> r.error == Socket(MakeSocketException(os.platform, lastError))
    {
      os.calls := os.calls + [CallGetSockName(fd, SizeOfSockAddrStorage)];
      if name.status != 0 {
        return Failure(Socket(MakeSocketException(os.platform, lastError)));
      }
      var impl := new Impl(SockAddrFamily(name.addr), fd);
      var s := new Socket.Wrap(impl);
      r := Success(s);
    }

    /** ~socket(): closes the OS socket only when the handle owns an impl
        whose socket is non-zero. */
    method Destroy(os: Os)
      modifies os
      ensures os.calls == old(os.calls)
        + (if impl != null && impl.sock != 0 then [CallClose(impl.sock)] else [])
    {
      if impl != null && impl.sock != 0 {
        os.calls := os.calls + [CallClose(impl.sock)];
      }
    }

    /** socket(socket&&): the new handle starts empty and swaps with other. */
    constructor MoveFrom(other: Socket)
      modifies other
      ensures impl == old(other.impl) && other.impl == null
      ensures [impl, other.impl] == Swap([null, old(other.impl)], 0, 1)
    {
      impl := other.impl;
      new;
      other.impl := null;
    }

    /** operator=(socket&&): the two handles swap their impls. */
    method MoveAssign(other: Socket)
      modifies this, other
      ensures impl == old(other.impl) && other.impl == old(impl)
      ensures [impl, other.impl] == Swap([old(impl), old(other.impl)], 0, 1)
    {
      var mine := impl;
      impl := other.impl;
      other.impl := mine;
    }

    /** get_endpoint(): getsockname, then the endpoint it reports. */
    method GetEndpoint(os: Os, name: NameReply, lastError: int) returns (r: Result<Endpoint, Exception>)
      requires impl != null
      modifies os
      ensures os.calls == old(os.calls) + [CallGetSockName(impl.sock, SizeOfSockAddrStorage)]
      ensures r.Success? <==> name.status >= 0
      ensures r.Success? ==> r.value == EndpointOf(name.addr)
      ensures r.Failure? ==> r.error == Socket(MakeSocketException(os.platform, lastError))
    {
      os.calls := os.calls + [CallGetSockName(impl.sock, SizeOfSockAddrStorage)];
      if name.status < 0 {
        return Failure(Socket(MakeSocketException(os.platform, lastError)));
      }
      r := Success(EndpointOf(name.addr));
    }

    /** bind(endpoint&): the family guard before any OS call, then ::bind
        with the endpoint's sockaddr, then the caller's endpoint replaced by
        what get_endpoint reports. `updated` is the caller's endpoint after
        the call. */
    method Bind(os: Os, ep: Endpoint, bindReply: int, name: NameReply, lastError: int)
      returns (r: Result<(), Exception>, updated: Endpoint)
      requires impl != null
      modifies os
      ensures Mismatch(ep.ip, impl.family) ==>
        r == Failure(InvalidArgument(BindMismatchMessage)) && updated == ep && os.calls == old(os.calls)
      ensures !Mismatch(ep.ip, impl.family) && bindReply != 0 ==>
        && r == Failure(Socket(MakeSocketException(os.platform, lastError))) && updated == ep
        && os.calls == old(os.calls) + [CallBind(impl.sock, SockAddrOf(ep))]
      ensures !Mismatch(ep.ip, impl.family) && bindReply == 0 ==>
        && os.calls == old(os.calls) + [CallBind(impl.sock, SockAddrOf(ep)), CallGetSockName(impl.sock, SizeOfSockAddrStorage)]
        && (name.status < 0 ==> r == Failure(Socket(MakeSocketException(os.platform, lastError))) && updated == ep)
        && (name.status >= 0 ==> r == Success(()) && updated == EndpointOf(name.addr))
    {
      updated := ep;
      if Mismatch(ep.ip, impl.family) {
        return Failure(InvalidArgument(BindMismatchMessage)), updated;
      }
      os.calls := os.calls + [CallBind(impl.sock, SockAddrOf(ep))];
      if bindReply != 0 {
        return Failure(Socket(MakeSocketException(os.platform, lastError))), updated;
      }
      var got := GetEndpoint(os, name, lastError);
      if got.Failure? {
        return Failure(got.error), updated;
      }
      r, updated := Success(()), got.value;
    }

    /** listen(): ::listen with a backlog of -1. */
    method Listen(os: Os, reply: int, lastError: int) returns (r: Result<(), Exception>)
      requires impl != null
      modifies os
      ensures os.calls == old(os.calls) + [CallListen(impl.sock, -1)]
      ensures r.Success? <==> reply == 0
      ensures r.Failure? ==> r.error == Socket(MakeSocketException(os.platform, lastError))
    {
      os.calls := os.calls + [CallListen(impl.sock, -1)];
      if reply != 0 {
        return Failure(Socket(MakeSocketException(os.platform, lastError)));
      }
      r := Success(());
    }

    /** connect(endpoint): the family guard before any OS call, then
        ::connect with the endpoint's sockaddr, converted as bind converts it. */
    method Connect(os: Os, ep: Endpoint, reply: int, lastError: int) returns (r: Result<(), Exception>)
      requires impl != null
      modifies os
      ensures Mismatch(ep.ip, impl.family) ==>
        r == Failure(InvalidArgument(ConnectMismatchMessage)) && os.calls == old(os.calls)
      ensures !Mismatch(ep.ip, impl.family) ==>
        && os.calls == old(os.calls) + [CallConnect(impl.sock, SockAddrOf(ep))]
        && (r.Success? <==> reply == 0)
        && (r.Failure? ==> r.error == Socket(MakeSocketException(os.platform, lastError)))
    {
      if Mismatch(ep.ip, impl.family) {
        return Failure(InvalidArgument(ConnectMismatchMessage));
      }
      os.calls := os.calls + [CallConnect(impl.sock, SockAddrOf(ep))];
      if reply != 0 {
        return Failure(Socket(MakeSocketException(os.platform, lastError)));
      }
      r := Success(());
    }

    /** accept(): ::accept fills in a sockaddr of the listening socket's
        family; the accepted descriptor is wrapped in a new handle and the
        peer's endpoint is read from the sockaddr. */
    method Accept(os: Os, client: int, peer: SockAddr, name: NameReply, lastError: int)
      returns (r: Result<Connection, Exception>)
      requires impl != null
      requires SockAddrFamily(peer) == impl.family
      modifies os
      ensures client == InvalidSocket(os.platform) ==>
        && os.calls == old(os.calls) + [CallAccept(impl.sock)]
        && r == Failure(Socket(MakeSocketException(os.platform, lastError)))
      ensures client != InvalidSocket(os.platform) ==>
        && os.calls == old(os.calls) + [CallAccept(impl.sock), CallGetSockName(client, SizeOfSockAddrStorage)]
        && (r.Success? <==> name.status == 0)
        && (r.Failure? ==> r.error == Socket(MakeSocketException(os.platform, lastError)))
      ensures r.Success? ==>
        && fresh(r.value.socket) && r.value.socket.impl != null && fresh(r.value.socket.impl)
        && r.value.socket.impl.sock == client && r.value.peer == EndpointOf(peer)
        && FamilyOf(r.value.peer.ip) == impl.family
    {
      os.calls := os.calls + [CallAccept(impl.sock)];
      if client == InvalidSocket(os.platform) {
        return Failure(Socket(MakeSocketException(os.platform, lastError)));
      }
      var adopted := Adopt(os, client, name, lastError);
      if adopted.Failure? {
        return Failure(adopted.error);
      }
      r := Success(Connection(adopted.value, EndpointOf(peer)));
    }

    /** receive(data, length): ::recv of at most length bytes into data. The
        OS's count and, when it is not negative, the bytes it delivered are
        parameters. */
    method Receive(os: Os, data: array<Byte>, length: int, count: int, incoming: seq<Byte>, lastError: int)
      returns (r: Result<int, Exception>)
      requires impl != null
      requires length <= data.Length
      requires count >= 0 ==> count <= RecvCapacity(length, data.Length) && |incoming| == count
      modifies os, data
      ensures os.calls == old(os.calls) + [CallRecv(impl.sock, length)]
      ensures r == IoResult(os.platform, count, lastError)
      ensures count >= 0 ==> data[..count] == incoming && data[count..] == old(data[count..])
      ensures count < 0 ==> data[..] == old(data[..])
    {
      os.calls := os.calls + [CallRecv(impl.sock, length)];
      if count >= 0 {
        forall i | 0 <= i < count {
          data[i] := incoming[i];
        }
      }
      r := IoResult(os.platform, count, lastError);
    }

    /** send(data, length): ::send of the buffer with the int length as
        given, unchecked; the OS sends from the first length bytes. */
    method Send(os: Os, data: array<Byte>, length: int, count: int, lastError: int)
      returns (r: Result<int, Exception>)
      requires impl != null
      requires length <= data.Length
      modifies os
      ensures os.calls == old(os.calls) + [CallSend(impl.sock, data[..], length)]
      ensures r == IoResult(os.platform, count, lastError)
    {
      os.calls := os.calls + [CallSend(impl.sock, data[..], length)];
      r := IoResult(os.platform, count, lastError);
    }

    /** receive_from(ep, data, length): ::recvfrom, then, when the count is
        not negative, the caller's endpoint replaced by the sender's.
        `updated` is the caller's endpoint after the call. */
    method ReceiveFrom(os: Os, ep: Endpoint, data: array<Byte>, length: int, count: int,
                       incoming: seq<Byte>, from: SockAddr, lastError: int)
      returns (r: Result<int, Exception>, updated: Endpoint)
      requires impl != null
      requires length <= data.Length
      requires count >= 0 ==> count <= RecvCapacity(length, data.Length) && |incoming| == count
      modifies os, data
      ensures os.calls == old(os.calls) + [CallRecvFrom(impl.sock, length)]
      ensures r == IoResult(os.platform, count, lastError)
      ensures count >= 0 ==> data[..count] == incoming && data[count..] == old(data[count..])
      ensures count < 0 ==> data[..] == old(data[..])
      ensures updated == if count < 0 then ep else EndpointOf(from)
      ensures count >= 0 ==> FamilyOf(updated.ip) == SockAddrFamily(from)
    {
      os.calls := os.calls + [CallRecvFrom(impl.sock, length)];
      updated := ep;
      if count >= 0 {
        forall i | 0 <= i < count {
          data[i] := incoming[i];
        }
        updated := EndpointOf(from);
      }
      r := IoResult(os.platform, count, lastError);
    }

    /** send_to(ep, data, length): std::get of the socket family's alternative
        throws bad_variant_access before any OS call when the endpoint is of
        the other family; otherwise ::sendto to the endpoint's sockaddr. */
    method SendTo(os: Os, ep: Endpoint, data: array<Byte>, length: int, count: int, lastError: int)
      returns (r: Result<int, Exception>)
      requires impl != null
      requires length <= data.Length
      modifies os
      ensures Mismatch(ep.ip, impl.family) ==> r == Failure(BadVariantAccess) && os.calls == old(os.calls)
      ensures !Mismatch(ep.ip, impl.family) ==>
        && os.calls == old(os.calls) + [CallSendTo(impl.sock, data[..], length, SockAddrOf(ep))]
        && r == IoResult(os.platform, count, lastError)
    {
      if Mismatch(ep.ip, impl.family) {
        return Failure(BadVariantAccess);
      }
      os.calls := os.calls + [CallSendTo(impl.sock, data[..], length, SockAddrOf(ep))];
      r := IoResult(os.platform, count, lastError);
    }

    /** set_non_blocking(state), with the POSIX polarity corrected: on
        Windows one ioctlsocket(FIONBIO) call; on POSIX fcntl(F_GETFL), which
        fails with -1, then fcntl(F_SETFL) with O_NONBLOCK set exactly when
        state is true. */
    method SetNonBlocking(os: Os, state: bool, gotFlags: int, reply: int, lastError: int)
      returns (r: Result<(), Exception>)
      requires impl != null
      requires os.platform == Posix ==> gotFlags == -1 || 0 <= gotFlags < 0x8000_0000
      modifies os
      ensures os.platform == Windows ==>
        && os.calls == old(os.calls) + [CallIoctlNonBlocking(impl.sock, WindowsMode(state))]
        && (r.Success? <==> reply == 0)
      ensures os.platform == Posix && gotFlags == -1 ==>
        os.calls == old(os.calls) + [CallGetFlags(impl.sock)] && r.Failure?
      ensures os.platform == Posix && gotFlags != -1 ==>
        && os.calls == old(os.calls) + [CallGetFlags(impl.sock), CallSetFlags(impl.sock, PosixFlags(state, gotFlags as bv32))]
        && NonBlocking(PosixFlags(state, gotFlags as bv32)) == state
        && (r.Success? <==> reply == 0)
      ensures r.Failure? ==> r.error == Socket(MakeSocketException(os.platform, lastError))
    {
      var failure := Failure(Socket(MakeSocketException(os.platform, lastError)));
      if os.platform == Windows {
        os.calls := os.calls + [CallIoctlNonBlocking(impl.sock, WindowsMode(state))];
        r := if reply != 0 then failure else Success(());
        return;
      }
      os.calls := os.calls + [CallGetFlags(impl.sock)];
      if gotFlags == -1 {
        return failure;
      }
      var flags := PosixFlags(state, gotFlags as bv32);
      PosixFlagsAgreeWithWindows(state, gotFlags as bv32);
      os.calls := os.calls + [CallSetFlags(impl.sock, flags)];
      r := if reply != 0 then failure else Success(());
    }

    /** set_broadcast(state): setsockopt(SO_BROADCAST) with 1 or 0; a non-zero
        reply throws std::runtime_error, not socket_exception. */
    method SetBroadcast(os: Os, state: bool, reply: int) returns (r: Result<(), Exception>)
      requires impl != null
      modifies os
      ensures os.calls == old(os.calls) + [CallSetSockOpt(impl.sock, Broadcast, if state then 1 else 0)]
      ensures r.Success? <==> reply == 0
      ensures r.Failure? ==> r.error == RuntimeError(BroadcastMessage)
    {
      var mode := if state then 1 else 0;
      os.calls := os.calls + [CallSetSockOpt(impl.sock, Broadcast, mode)];
      if reply != 0 {
        return Failure(RuntimeError(BroadcastMessage));
      }
      r := Success(());
    }

    /** set_tcp_nodelay(state): setsockopt(TCP_NODELAY) with 1 or 0; a
        non-zero reply throws std::runtime_error, not socket_exception. */
    method SetTcpNoDelay(os: Os, state: bool, reply: int) returns (r: Result<(), Exception>)
      requires impl != null
      modifies os
      ensures os.calls == old(os.calls) + [CallSetSockOpt(impl.sock, TcpNoDelay, if state then 1 else 0)]
      ensures r.Success? <==> reply == 0
      ensures r.Failure? ==> r.error == RuntimeError(NoDelayMessage)
    {
      var mode := if state then 1 else 0;
      os.calls := os.calls + [CallSetSockOpt(impl.sock, TcpNoDelay, mode)];
      if reply != 0 {
        return Failure(RuntimeError(NoDelayMessage));
      }
      r := Success(());
    }

    // -------------------------------------------------------------------
    // The span overloads: the span's bytes and size_bytes() as an int
    // -------------------------------------------------------------------

    method ReceiveSpan(os: Os, data: array<Byte>, count: int, incoming: seq<Byte>, lastError: int)
      returns (r: Result<int, Exception>)
      requires impl != null
      requires count >= 0 ==> count <= RecvCapacity(SizeToInt(data.Length), data.Length) && |incoming| == count
      modifies os, data
      ensures os.calls == old(os.calls) + [CallRecv(impl.sock, SizeToInt(data.Length))]
      ensures r == IoResult(os.platform, count, lastError)
      ensures count >= 0 ==> data[..count] == incoming && data[count..] == old(data[count..])
      ensures count < 0 ==> data[..] == old(data[..])
    {
      r := Receive(os, data, SizeToInt(data.Length), count, incoming, lastError);
    }

    method SendSpan(os: Os, data: array<Byte>, count: int, lastError: int)
      returns (r: Result<int, Exception>)
      requires impl != null
      modifies os
      ensures os.calls == old(os.calls) + [CallSend(impl.sock, data[..], SizeToInt(data.Length))]
      ensures r == IoResult(os.platform, count, lastError)
    {
      r := Send(os, data, SizeToInt(data.Length), count, lastError);
    }

    method ReceiveFromSpan(os: Os, ep: Endpoint, data: array<Byte>, count: int,
                           incoming: seq<Byte>, from: SockAddr, lastError: int)
      returns (r: Result<int, Exception>, updated: Endpoint)
      requires impl != null
      requires count >= 0 ==> count <= RecvCapacity(SizeToInt(data.Length), data.Length) && |incoming| == count
      modifies os, data
      ensures os.calls == old(os.calls) + [CallRecvFrom(impl.sock, SizeToInt(data.Length))]
      ensures r == IoResult(os.platform, count, lastError)
      ensures count >= 0 ==> data[..count] == incoming && data[count..] == old(data[count..])
      ensures count < 0 ==> data[..] == old(data[..])
      ensures updated == if count < 0 then ep else EndpointOf(from)
    {
      r, updated := ReceiveFrom(os, ep, data, SizeToInt(data.Length), count, incoming, from, lastError);
    }

    method SendToSpan(os: Os, ep: Endpoint, data: array<Byte>, count: int, lastError: int)
      returns (r: Result<int, Exception>)
      requires impl != null
      modifies os
      ensures Mismatch(ep.ip, impl.family) ==> r == Failure(BadVariantAccess) && os.calls == old(os.calls)
      ensures !Mismatch(ep.ip, impl.family) ==>
        && os.calls == old(os.calls) + [CallSendTo(impl.sock, data[..], SizeToInt(data.Length), SockAddrOf(ep))]
        && r == IoResult(os.platform, count, lastError)
    {
      r := SendTo(os, ep, data, SizeToInt(data.Length), count, lastError);
    }
  }

  // ---------------------------------------------------------------------
  // Single ownership
  // ---------------------------------------------------------------------

  /** No impl is held by two handles. */
  predicate UniqueOwners(owners: seq<Impl?>)
  {
    forall i, j :: 0 <= i < |owners| && 0 <= j < |owners| && i != j && owners[i] != null ==> owners[i] != owners[j]
  }

  /** The impls of a set of handles after handles i and j are moved into
      one another. */
  function Swap(owners: seq<Impl?>, i: nat, j: nat): (r: seq<Impl?>)
    requires i < |owners| && j < |owners|
    ensures |r| == |owners| && r[i] == owners[j] && r[j] == owners[i]
    ensures forall k :: 0 <= k < |owners| && k != i && k != j ==> r[k] == owners[k]
  {
    owners[i := owners[j]][j := owners[i]]
  }

  /** Moves keep ownership single and keep the set of owned impls: no impl
      is duplicated or lost, so each is closed by exactly one destructor. */
  lemma SwapKeepsOwnership(owners: seq<Impl?>, i: nat, j: nat)
    requires i < |owners| && j < |owners|
    requires UniqueOwners(owners)
    ensures UniqueOwners(Swap(owners, i, j))
    ensures multiset(Swap(owners, i, j)) == multiset(owners)
  {
    var r := Swap(owners, i, j);
    if i != j {
      assert r == owners[i := owners[j]][j := owners[i]];
      assert multiset(owners[i := owners[j]]) == multiset(owners) - multiset{owners[i]} + multiset{owners[j]};
    }
  }

  /** A move from a handle holding an impl into a fresh empty one leaves
      exactly one of the two holding it. */
  lemma MoveLeavesOneOwner(owners: seq<Impl?>, i: nat, j: nat)
    requires i < |owners| && j < |owners| && i != j
    requires owners[i] != null && owners[j] == null
    ensures Swap(owners, i, j)[j] == owners[i] && Swap(owners, i, j)[i] == null
  {
  }
}
