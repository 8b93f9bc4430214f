# accel-socket in Dafny

This project models the core of accel-socket, a small C++ wrapper over the
BSD / Winsock socket API. It covers:

- **IPv4 addresses** (`ip_address_v4`): a 32-bit host-order value. Its
  `any`/`localhost`/`broadcast` constants are here. Text is parsed with
  `inet_pton` and printed with `inet_ntop` through `htonl`/`ntohl`.
- **IPv6 addresses** (`ip_address_v6`): eight 16-bit words copied to and from
  `in6_addr`. Text follows the two textual forms of section 2.2 of RFC 4291.
  Printing follows the canonical form of section 4 of RFC 5952.
- **Endpoints** (`endpoint`): a v4/v6 variant plus a port. Its `string()` is
  `a.b.c.d:port` or `[v6]:port`.
- **Errors**: `get_error`, which maps a Windows or POSIX error code to one
  of the eleven `socket_errors` kinds, and `socket_exception`.
- **The socket handle** (`socket`), modelled as a class:
  - ownership of its `impl`, through move construction, move assignment and
    the destructor;
  - the family guard of `bind`, `connect` and `send_to`;
  - the `sockaddr_in` / `sockaddr_in6` filled in for an endpoint, and the
    endpoint read back from one;
  - the write-back of the bound endpoint in `bind`;
  - the rule that turns an I/O count into a result or an exception;
  - `set_non_blocking` on both platforms, and `set_broadcast` and `set_tcp_nodelay`;
  - the `std::span` overloads, which forward `static_cast<int>(size_bytes())`.

The model makes these assumptions:

- **The operating system is an oracle.** Every reply a socket method reads
  from the OS is a parameter of the method: a status, a count, a
  descriptor, the address `getsockname`/`recvfrom`/`accept` fills in, and
  `errno`/`WSAGetLastError()`. Every call the method makes is appended to
  the ghost log `Os.calls`. So each method states which calls it makes,
  with which arguments, and in which order.
- **The host is little-endian.** The source reads `S_un.S_addr` and
  `u.Word`, which are Windows `in_addr`/`in6_addr` fields, and Windows
  targets are little-endian. `htonl`/`ntohl` and `htons`/`ntohs` are
  therefore byte swaps. The IPv6 words are the address bytes read
  pairwise in host order, so group *i* of the text is `ntohs` of word *i*.
- **The POSIX branch is modelled as its text reads.** As written, the
  file builds on Windows only. The POSIX branch uses the Windows-only
  fields above and the Windows type `in_addr6` (src/socket.cpp:127, 135).
  It calls `errno()` (line 227), which is ill-formed because `errno` is an
  int lvalue. Its switch repeats a case label (lines 210-211). So
  `Platform.Posix` models what the POSIX branch's text would do if it
  were built with these slips mended, and its findings below describe
  that text, not a running build.
- **Bytes and integers are explicit.** Addresses are byte sequences and
  bounded integers (`U16`, `U32`).
- **`ip()` and `port()` are the datatype fields** `Endpoint.ip` and
  `Endpoint.port`.

Ten places where the code departs from its evident intent are listed
under "## Findings". For each one, the model keeps an as-written member and
a lemma that shows an input on which the two differ. The rest of the model
uses the corrected behaviour.

## Model

| member | source | states |
|---|---|---|
| IpV4.ToString | src/socket.cpp:84-92 | string() never fails: the text fits the 17-byte buffer, being 7 to 15 characters long |
| IpV4.TextIsNetworkOrder | src/socket.cpp:84-92 | the text prints the bytes of the value most significant first, i.e. htonl puts the value in network order before inet_ntop |
| IpV4.TextLength | src/socket.cpp:84-92 | every printed IPv4 address has between 7 and 15 characters |
| IpV4.PtonNtop | src/socket.cpp:76-92 | inet_pton reads back exactly the four bytes inet_ntop printed |
| IpV4.ParseText | src/socket.cpp:76-92 | parsing an address's string() gives the address back, for every 32-bit value |
| IpV4.TextOfParsed | src/socket.cpp:76-92 | string() of a parsed address is inet_ntop of the bytes inet_pton produced (ntohl and htonl cancel) |
| IpV4.PtonParts | src/socket.cpp:76-82 | an accepted text is exactly four octets joined by dots, and the decimal value of each is the matching byte |
| IpV4.PtonAcceptsOctets | src/socket.cpp:76-82 | conversely, any four octets joined by dots are accepted, and their values are the four bytes |
| IpV4.NtopPton | src/socket.cpp:76-92 | every text inet_pton accepts is printed back by inet_ntop unchanged |
| IpV4.LeadingZeroRejected | src/socket.cpp:76-82 | a text with a part that has a leading zero is refused, as glibc and Windows inet_pton refuse it |
| IpV4.RejectsLeadingZeroFirst | src/socket.cpp:76-82 | "01.2.3.4" is refused |
| IpV4.RejectsLeadingZeroLast | src/socket.cpp:76-82 | "1.2.3.04" is refused |
| IpV4.TextParse | src/socket.cpp:76-92 | string() of Parse(s) equals s for every text the constructor accepts |
| IpV4.ParseOutcome | src/socket.cpp:76-82 | the constructor fails exactly when inet_pton rejects the text, and then with invalid_argument and its message; otherwise the value's bytes, most significant first, are those inet_pton wrote |
| IpV4.ParseRejectsNul | src/socket.cpp:76-82 | text that holds a NUL is rejected, so parsing the whole view never stops early |
| IpV4.ConstructFromString | src/socket.cpp:76-82 | when the view is followed by a NUL (a whole std::string or literal), the constructor parses exactly the view |
| IpV4.ConstructStopsAtNul | src/socket.cpp:79 | as written, a NUL inside the view ends the text inet_pton reads, so the rest of the view is ignored, where the whole view is rejected |
| IpV4.ConstructReadsPastView | src/socket.cpp:79 | as written, the view "1.2.3" followed in memory by ".4" yields 1.2.3.4, although "1.2.3" is no address |
| IpV4.RejectsLargePart | src/socket.cpp:76-82 | "999.1.1.1" is rejected (a part above 255) |
| IpV4.RejectsName | src/socket.cpp:76-82 | "not-an-ip" is rejected |
| IpV4.RejectsThreeParts | src/socket.cpp:76-82 | "1.2.3" is rejected (three parts) |
| IpV4.RejectsEmptyPart | src/socket.cpp:76-82 | "1..3.4" is rejected (an empty part) |
| IpV4.AnyText | src/socket.cpp:42-45 | any() prints as 0.0.0.0 |
| IpV4.LocalhostText | src/socket.cpp:47-50 | localhost() prints as 127.0.0.1 |
| IpV4.BroadcastText | src/socket.cpp:52-55 | broadcast() prints as 255.255.255.255 |
| IpV4.SampleText | src/socket.cpp:74 | the value 0x01020304 prints as 1.2.3.4 |
| IpV4.Any | src/socket.cpp:42-45 | any() is INADDR_ANY (0); its text is IpV4.AnyText |
| IpV4.Localhost | src/socket.cpp:47-50 | localhost() is INADDR_LOOPBACK (0x7f000001); its text is IpV4.LocalhostText |
| IpV4.Broadcast | src/socket.cpp:52-55 | broadcast() is INADDR_BROADCAST (0xffffffff); its text is IpV4.BroadcastText |
| IpV4.InetPton4 | src/socket.cpp:79 | inet_pton(AF_INET): four dot-separated decimal octets, each at most 255, as bytes; otherwise nothing (its properties are IpV4.PtonParts and IpV4.PtonAcceptsOctets) |
| IpV4.InetNtop4 | src/socket.cpp:89 | inet_ntop(AF_INET): the four bytes in decimal, joined by dots (read back by IpV4.PtonNtop) |
| IpV4.Parse | src/socket.cpp:76-82 | the string_view constructor on the whole view: ntohl of the bytes inet_pton writes, or invalid_argument (IpV4.ParseOutcome) |
| IpV4.Text | src/socket.cpp:84-92 | the text string() returns: inet_ntop of htonl of the value (IpV4.TextIsNetworkOrder, IpV4.ParseText) |
| IpV4.ConstructAsWritten | src/socket.cpp:76-82 | the constructor as written: inet_pton is given ip.data() and reads up to the first NUL, past the view's end when the view has none |
| IpV4.Default | src/socket.cpp:72 | ip_address_v4(): the value 0, used by the default endpoint (Endpoints.Default) |
| IpV4.SampleRoundTrip | src/socket.cpp:76-82 | "1.2.3.4" parses to the value 0x01020304 |
| IpV6.WordsBytesWords | src/socket.cpp:125-141 | copying the words into an in6_addr and back gives the same words |
| IpV6.BytesWordsBytes | src/socket.cpp:125-141 | copying the in6_addr bytes into words and back gives the same bytes |
| IpV6.GroupsBytesGroups | src/socket.cpp:125-141 | the bytes of eight groups, read back as big-endian groups, give the same groups |
| IpV6.BytesGroupsBytes | src/socket.cpp:125-141 | reading the bytes as groups and writing them back gives the same bytes |
| IpV6.GroupsAreSwappedWords | src/socket.cpp:133-141 | the group printed at position i is ntohs of m_values[i] on the little-endian host |
| IpV6.WordsAreSwappedGroups | src/socket.cpp:125-131 | m_values[i] is htons of the group parsed at position i |
| IpV6.HexNumeral | src/socket.cpp:133-141 | each printed group is a canonical lower-case hex field of at most four digits that reads back as the group |
| IpV6.HexFieldValues | src/socket.cpp:125-141 | a run of printed groups reads back as the same groups |
| IpV6.ToString | src/socket.cpp:133-141 | string() never fails for text in RFC 5952's form: that text fits the 40-byte buffer, being 2 to 39 characters long |
| IpV6.TextLength | src/socket.cpp:133-141 | every printed IPv6 address has between 2 and 39 characters |
| IpV6.LongestRun | src/socket.cpp:133-141 | the run chosen for "::" starts at or after the scan position and its length is the zero run counted from its start |
| IpV6.ZeroRunFacts | src/socket.cpp:133-141 | the zero run counted at a position stays inside the address, covers only zero groups, and stops at a non-zero group or at the end |
| IpV6.LongestRunIsLongest | src/socket.cpp:133-141 | no zero run from the scan position on is longer than the chosen one, and every run starting before it is strictly shorter (the first longest wins) |
| IpV6.CompressionIsCanonical | src/socket.cpp:133-141 | the groups replaced by "::" are zeros, form a longest run of at least two, and no earlier run is as long |
| IpV6.NoCompressionNoZeroPair | src/socket.cpp:133-141 | a text without "::" has no two adjacent zero groups |
| IpV6.ParseFormatGroups | src/socket.cpp:125-141 | the printed groups, compressed or not, parse back to the same eight groups |
| IpV6.PtonNtop | src/socket.cpp:125-141 | inet_pton reads back exactly the sixteen bytes inet_ntop printed |
| IpV6.ParseText | src/socket.cpp:125-141 | parsing an address's string() gives the address back, for every eight words |
| IpV6.TextInjective | src/socket.cpp:133-141 | two addresses that print the same are the same address |
| IpV6.AnyParses | src/socket.cpp:95-98 | any() is the address "::" parses to, which is the default (all-zero) address |
| IpV6.LocalhostParses | src/socket.cpp:100-103 | localhost() is the address "::1" parses to |
| IpV6.Any | src/socket.cpp:95-98 | any() is the all-zero address (IpV6.AnyParses) |
| IpV6.Localhost | src/socket.cpp:100-103 | localhost() is the address whose last group is 1 and others 0 (IpV6.LocalhostParses) |
| IpV6.ParseGroups | src/socket.cpp:128 | inet_pton(AF_INET6) on hex text: eight groups, or fewer with one "::" standing for the missing zero groups; otherwise nothing (inverse of IpV6.FormatGroups by IpV6.ParseFormatGroups) |
| IpV6.FormatGroups | src/socket.cpp:138 | inet_ntop(AF_INET6): lower-case hex groups, with the first longest run of two or more zero groups written "::" (IpV6.CompressionIsCanonical) |
| IpV6.Parse | src/socket.cpp:125-131 | the string_view constructor on the whole view: the words copied from the in6_addr inet_pton fills in, or invalid_argument (IpV6.ParseText) |
| IpV6.Text | src/socket.cpp:133-141 | the text string() returns: inet_ntop of the in6_addr holding the words (IpV6.ParseText, IpV6.TextInjective) |
| IpV6.GroupsRejectNul | src/socket.cpp:128 | inet_pton(AF_INET6) finds no groups in text that holds a NUL, with or without "::" |
| IpV6.ParseRejectsNul | src/socket.cpp:125-131 | text that holds a NUL is rejected, so parsing the whole view never stops early |
| IpV6.ConstructAsWritten | src/socket.cpp:125-131 | the constructor as written: inet_pton is given ip.data() and reads up to the first NUL, past the view's end when the view has none |
| IpV6.ConstructFromString | src/socket.cpp:125-131 | when the view is followed by a NUL (a whole std::string or literal), the constructor parses exactly the view |
| IpV6.ConstructStopsAtNul | src/socket.cpp:128 | as written, a NUL inside the view ends the text inet_pton reads, so the rest of the view is ignored, where the whole view is rejected |
| IpV6.ConstructReadsPastView | src/socket.cpp:128 | as written, the view "::" followed in memory by "1" yields localhost() instead of any() |
| IpV6.Default | src/socket.cpp:121 | ip_address_v6(): every word value-initialised to zero (IpV6.DefaultText) |
| IpV6.WordsOf | src/socket.cpp:130 | the std::copy out of the in6_addr: each word is a byte pair read in host order (IpV6.BytesWordsBytes) |
| IpV6.BytesOf | src/socket.cpp:137 | the std::copy into the in6_addr: each word stored as a byte pair in host order (IpV6.WordsBytesWords) |
| IpV6.InetPton6 | src/socket.cpp:128 | inet_pton(AF_INET6): the sixteen network-order bytes of the groups ParseGroups reads (IpV6.PtonNtop) |
| IpV6.InetNtop6 | src/socket.cpp:138 | inet_ntop(AF_INET6): the groups of the sixteen bytes, formatted by FormatGroups (IpV6.PtonNtop) |
| IpV6.DefaultText | src/socket.cpp:121 | the default address prints as "::" |
| IpV6.AnyText | src/socket.cpp:95-98 | any() prints as "::" |
| IpV6.LocalhostText | src/socket.cpp:100-103 | localhost() prints as "::1" |
| Endpoints.Default | src/socket.cpp:148-150 | the default endpoint holds the IPv4 alternative with value 0 and port 0 |
| Endpoints.AnyAddress.Index | src/socket.cpp:310-311 | variant::index(): 0 exactly for the ip_address_v4 alternative, 1 for ip_address_v6 |
| Endpoints.ToString | src/socket.cpp:166-176 | string() is the host text, ':' and the decimal port, at most 47 characters, and never fails for v6 text in RFC 5952's form |
| Endpoints.PortText | src/socket.cpp:175 | std::to_string of the port: its decimal digits (Endpoints.PortTextLength) |
| Endpoints.HostText | src/socket.cpp:168-174 | the host part: the IPv4 text, or the IPv6 text in brackets (Endpoints.V4TextUnbracketed) |
| Endpoints.Text | src/socket.cpp:166-176 | the host part, ':' and the port (Endpoints.TextRoundTrip, Endpoints.TextInjective) |
| Endpoints.PortTextLength | src/socket.cpp:175 | the decimal port has 1 to 5 digits, no ':', and reads back as the port |
| Endpoints.TextRoundTrip | src/socket.cpp:166-176 | string() loses nothing: splitting at the last ':' and parsing the host (bracketed for v6) gives the endpoint back |
| Endpoints.V4RoundTrip | src/socket.cpp:166-176 | an IPv4 endpoint's text parses back to the endpoint |
| Endpoints.V6RoundTrip | src/socket.cpp:166-176 | an IPv6 endpoint's bracketed text parses back to the endpoint |
| Endpoints.TextInjective | src/socket.cpp:166-176 | two endpoints with the same string() are equal |
| Endpoints.V4TextUnbracketed | src/socket.cpp:170 | an IPv4 host text starts with a digit, never with '[' |
| Endpoints.V4LoopbackText | src/socket.cpp:166-176 | 127.0.0.1 with port 8080 prints as "127.0.0.1:8080" |
| Endpoints.V6LoopbackText | src/socket.cpp:166-176 | ::1 with port 80 prints as "[::1]:80" |
| Errors.Ordinal | include/accel/socket.hpp:104-117 | each of the eleven socket_errors kinds has its place in the enumeration |
| Errors.Lookup | src/socket.cpp:183-215 | a switch yields unknown or the kind of a case whose label is the code |
| Errors.LookupFinds | src/socket.cpp:183-215 | in a switch with distinct labels, each label yields its own kind |
| Errors.LookupMisses | src/socket.cpp:183-215 | a code that is no label yields unknown (the default branch) |
| Errors.Cases | src/socket.cpp:185-213 | the case labels of get_error, in source order, for each platform, with the kind each returns (Errors.PosixSwitchRepeatsLabel) |
| Errors.GetError | src/socket.cpp:183-215 | get_error: the kind of the case labelled with the code, or unknown (Errors.GetErrorIsSwitch, Errors.ListedCodes, Errors.UnlistedCodes) |
| Errors.ListedCodes | src/socket.cpp:185-213 | get_error maps every listed WSA / errno code to the kind its case names |
| Errors.UnlistedCodes | src/socket.cpp:185-214 | every other code maps to unknown |
| Errors.GetErrorIsSwitch | src/socket.cpp:183-215 | get_error is the switch over the corrected case list, whose labels are distinct |
| Errors.GetErrorKinds | src/socket.cpp:183-215 | no code maps to permission; EAGAIN/EWOULDBLOCK and WSAEWOULDBLOCK map to would_block |
| Errors.PosixSwitchRepeatsLabel | src/socket.cpp:210-211 | the POSIX switch as written repeats the label 11, which makes it ill-formed where EWOULDBLOCK equals EAGAIN |
| Errors.CorrectedSwitchWellFormed | src/socket.cpp:183-215 | the corrected case lists have distinct labels on both platforms |
| Errors.MakeSocketException | src/socket.cpp:217-229 | the exception records the last error code and its kind, which is unknown exactly when no case lists the code |
| Errors.ExceptionErrorAsWritten | src/socket.cpp:217-229 | the kind socket_exception stores as written: get_error of the code on Windows, none on POSIX (Errors.PosixExceptionLosesKind) |
| Errors.PosixExceptionLosesKind | src/socket.cpp:217-229 | on POSIX, as written, no kind is stored (EAGAIN gives none), while the corrected exception gives would_block; on Windows the two agree |
| SocketAddresses.FamilyOf | include/accel/socket.hpp:87 | an address is AF_INET exactly when it is the v4 alternative |
| SocketAddresses.Mismatch | src/socket.cpp:310-311 | the guard of bind and connect: the variant index is 0 with AF_INET6 or 1 with AF_INET (SocketAddresses.MismatchIsOtherFamily) |
| SocketAddresses.MismatchIsOtherFamily | src/socket.cpp:310-311 | the index-based guard of bind and connect rejects exactly the endpoints of the other family |
| SocketAddresses.SockAddrFamily | src/socket.cpp:419 | the `ss_family == AF_INET` test of receive_from and get_endpoint: the AF_INET branch exactly for an AF_INET name, the AF_INET6 branch for every other family, unfilled (0) included |
| SocketAddresses.Unfilled | src/socket.cpp:412 | the zero-initialised sockaddr_storage of receive_from, of a family that is neither AF_INET nor AF_INET6 |
| SocketAddresses.UnfilledReadsAsAny | src/socket.cpp:419-434 | a sender recvfrom does not fill in (ss_family 0) is read through the AF_INET6 branch and reported as [::]:0 |
| SocketAddresses.SockAddrSize | src/socket.cpp:258-259 | sizeof sockaddr_in (16) and sockaddr_in6 (28), both within sockaddr_storage (128) |
| SocketAddresses.AdoptNameTooShort | src/socket.cpp:258-259 | the struct sockaddr socket(void*) gives getsockname holds an AF_INET name but is 12 bytes short of an AF_INET6 one |
| SocketAddresses.SockAddrOf | src/socket.cpp:313-331 | the sockaddr filled in for an endpoint has the endpoint's family |
| SocketAddresses.EndpointOf | src/socket.cpp:372-391 | the endpoint read from a sockaddr has the sockaddr's family |
| SocketAddresses.EndpointOfSockAddr | src/socket.cpp:308-392 | reading back the sockaddr filled in for an endpoint gives the endpoint |
| SocketAddresses.SockAddrOfEndpoint | src/socket.cpp:308-392 | filling in a sockaddr for the endpoint read from one gives the same sockaddr; a name of another family comes back as the AF_INET6 name it was read as |
| SocketAddresses.WireOrder | src/socket.cpp:313-321 | bind puts address and port on the wire in network order, the bytes the address's text prints |
| SocketAddresses.ConnectLoopbackReversed | src/socket.cpp:347-354 | connect as written sends 127.0.0.1 as the bytes 1, 0, 0, 127; corrected, as 127, 0, 0, 1 |
| SocketAddresses.GetEndpointLoopbackReversed | src/socket.cpp:505-509 | for a socket bound to 127.0.0.1, get_endpoint as written reports 1.0.0.127; corrected, 127.0.0.1 |
| SocketAddresses.ReceiveFromV6PortSwapped | src/socket.cpp:426-434 | a datagram from [::1]:80 is reported by receive_from as written with port 20480; corrected, with port 80 |
| SocketAddresses.ConnectSockAddrAsWritten | src/socket.cpp:347-354 | the sockaddr connect fills in as written, with sin_addr = m_value and no htonl (SocketAddresses.ConnectLoopbackReversed) |
| SocketAddresses.GetEndpointAsWritten | src/socket.cpp:505-509 | the endpoint get_endpoint reads as written, with no ntohl on sin_addr (SocketAddresses.GetEndpointLoopbackReversed) |
| SocketAddresses.ReceivedFromAsWritten | src/socket.cpp:426-434 | the sender receive_from reads as written, with no ntohs on sin6_port (SocketAddresses.ReceiveFromV6PortSwapped) |
| SocketAddresses.AsWrittenElsewhereAgrees | src/socket.cpp:342-517 | apart from those three slips, the as-written conversions are the corrected ones, for every family get_endpoint reads through its AF_INET6 branch |
| SocketAddresses.IoResult | src/socket.cpp:394-465 | a negative count is a socket_exception; any other count is returned unchanged, so a returned count is never negative |
| SocketAddresses.RecvCapacity | src/socket.cpp:394-435 | the most bytes recv or recvfrom may deliver: length when it is a valid length for the buffer, and never more than the buffer |
| SocketAddresses.PosixFlagsAsWritten | src/socket.cpp:474-479 | the flag word F_SETFL receives as written: O_NONBLOCK cleared when state is true, set when false |
| SocketAddresses.PosixFlags | src/socket.cpp:474-479 | corrected: O_NONBLOCK set when state is true, cleared when false, other flags kept |
| SocketAddresses.WindowsMode | src/socket.cpp:470 | the FIONBIO argument: 1 when state is true, 0 otherwise (SocketAddresses.PosixFlagsAgreeWithWindows) |
| SocketAddresses.PosixFlagsAgreeWithWindows | src/socket.cpp:467-481 | the corrected POSIX flags are non-blocking exactly when state is true, as on Windows, and keep every other flag |
| SocketAddresses.PosixFlagsAsWrittenInverted | src/socket.cpp:474-479 | as written, the POSIX flags are non-blocking exactly when state is false |
| SocketAddresses.SizeToInt | include/accel/socket.hpp:153-175 | static_cast<int> of size_bytes() is the size modulo 2^32 in the signed 32-bit range |
| SocketAddresses.SizeToIntExact | include/accel/socket.hpp:153-175 | a span shorter than 2^31 bytes is forwarded with its exact size |
| SocketAddresses.SizeToIntWraps | include/accel/socket.hpp:153-175 | a span of 2^31 bytes is forwarded with a negative length |
| Sockets.FamilyOfVersion | src/socket.cpp:264-284 | version_4 gives AF_INET and version_6 AF_INET6 |
| Sockets.SocketKind | src/socket.cpp:264-284 | TCP opens SOCK_STREAM/IPPROTO_TCP and UDP opens SOCK_DGRAM/IPPROTO_UDP |
| Sockets.InvalidSocket | src/socket.cpp:282 | INVALID_SOCKET, the descriptor socket() and accept() return on failure: ~0 as a 64-bit SOCKET on Windows, -1 on POSIX |
| Sockets.Socket.Open | src/socket.cpp:264-284 | one socket call with the version's family and the protocol's type; success exactly when the handle is not INVALID_SOCKET, and then a fresh impl holds the family and handle |
| Sockets.Socket.AdoptAsWritten | src/socket.cpp:253-262 | as written, a getsockname check into a 16-byte struct sockaddr, and then a handle that owns nothing |
| Sockets.Socket.Adopt | src/socket.cpp:253-262 | corrected: getsockname into a sockaddr_storage, and after it succeeds the handle owns the descriptor with the reported family |
| Sockets.Socket.Destroy | src/socket.cpp:286-295 | the destructor closes the socket exactly when the handle owns an impl with a non-zero socket, and otherwise makes no call |
| Sockets.Socket.MoveFrom | src/socket.cpp:297-300 | the new handle takes other's impl and other is left empty, which is Sockets.Swap of an empty handle with other |
| Sockets.Socket.MoveAssign | src/socket.cpp:302-306 | the two handles exchange their impls, as Sockets.Swap does, so Sockets.SwapKeepsOwnership applies |
| Sockets.Socket.GetEndpoint | src/socket.cpp:497-517 | one getsockname call into a sockaddr_storage; a negative status throws, otherwise the endpoint is the one read from the address, with ntohl restored, through the AF_INET6 branch for every family but AF_INET |
| Sockets.Socket.Bind | src/socket.cpp:308-334 | the guard throws invalid_argument before any call; otherwise bind is called with the endpoint's sockaddr; on success the caller's endpoint is replaced by what get_endpoint reports |
| Sockets.Socket.Listen | src/socket.cpp:336-340 | one listen call with backlog -1; a non-zero reply throws |
| Sockets.Socket.Connect | src/socket.cpp:342-366 | the guard throws invalid_argument before any call; otherwise connect is called with the sockaddr bind would use, htonl included |
| Sockets.Socket.Accept | src/socket.cpp:368-392 | accept, then getsockname on the new descriptor; an invalid descriptor throws; on success a fresh handle owns the descriptor and the peer is the endpoint read from the sockaddr, of the listener's family |
| Sockets.Socket.Receive | src/socket.cpp:394-400 | one recv with the given length, negative lengths included; the count rule; the first count bytes of data are those delivered and the rest are unchanged |
| Sockets.Socket.Send | src/socket.cpp:402-408 | one send of the buffer with the given length, negative lengths included; the count rule |
| Sockets.Socket.ReceiveFrom | src/socket.cpp:410-435 | one recvfrom; the count rule; the data as for receive; on a non-negative count the caller's endpoint becomes the sender's, with ntohs on both families, read through the AF_INET6 branch for every family but AF_INET (an unfilled address gives [::]:0) |
| Sockets.Socket.SendTo | src/socket.cpp:437-465 | an endpoint of the other family throws bad_variant_access before any call; otherwise one sendto of the data to the endpoint's sockaddr and the count rule |
| Sockets.Socket.SetNonBlocking | src/socket.cpp:467-481 | Windows: one ioctlsocket(FIONBIO). POSIX: F_GETFL, and when that succeeds, F_SETFL with O_NONBLOCK set exactly when state is true; failures throw |
| Sockets.Socket.SetBroadcast | src/socket.cpp:483-488 | one setsockopt(SO_BROADCAST) with 1 or 0; a non-zero reply throws std::runtime_error with its own message, not socket_exception |
| Sockets.Socket.SetTcpNoDelay | src/socket.cpp:490-495 | one setsockopt(TCP_NODELAY) with 1 or 0; a non-zero reply throws std::runtime_error with its own message, not socket_exception |
| Sockets.Socket.ReceiveSpan | include/accel/socket.hpp:153-157 | receive into a span of any size, with length static_cast<int>(size_bytes()), which is negative when the size modulo 2^32 is at least 2^31; the count rule judges the reply |
| Sockets.Socket.SendSpan | include/accel/socket.hpp:159-163 | send of a span of any size, with length static_cast<int>(size_bytes()), negative or truncated for spans of 2^31 bytes or more; the count rule judges the reply |
| Sockets.Socket.ReceiveFromSpan | include/accel/socket.hpp:165-169 | receive_from into a span of any size, with length static_cast<int>(size_bytes()) and the endpoint updated as receive_from does |
| Sockets.Socket.SendToSpan | include/accel/socket.hpp:171-175 | send_to of a span of any size, with length static_cast<int>(size_bytes()) and the family guard first |
| Sockets.Swap | src/socket.cpp:297-306 | a move exchanges the impls of the two handles and leaves every other handle alone |
| Sockets.SwapKeepsOwnership | src/socket.cpp:286-306 | moves keep every impl held by at most one handle and lose or duplicate none, so each socket is closed by exactly one destructor |
| Sockets.MoveLeavesOneOwner | src/socket.cpp:297-300 | moving an owning handle into an empty one leaves the impl in the new handle only |

## Left out

- `resolve` (both families) is not modelled. It performs DNS lookups through `getaddrinfo`.
- `initialize_wsa` is not modelled. It starts Winsock once per process, and throws `socket_exception` when `WSAStartup` fails (src/socket.cpp:24-34).
- Sockets.Socket.Open and Sockets.Socket.Adopt do not model the `initialize_wsa` call both constructors make first (src/socket.cpp:256, 268), so the `socket_exception` a failing `WSAStartup` throws on Windows is missing from their results.
- The text of `socket_exception::what()` is not modelled. It comes from `FormatMessage` or `strerror`. Only the error kind and the code are modelled.
- IPv6 text with an embedded dotted quad (`::ffff:1.2.3.4`) is left out. The parser accepts only the hexadecimal forms of section 2.2 of RFC 4291. The printer never uses the mixed notation of section 5 of RFC 5952, which some C libraries print for IPv4-mapped and IPv4-compatible addresses.
- IpV6.ToString and Endpoints.ToString: their never-fails result holds for the RFC 5952 printer only. The Windows `inet_ntop` also prints a dotted-quad tail for ISATAP addresses, where word 4 is 0 or 0x200 and word 5 is 0x5efe. For example, 2001:db8:85a3:8d3:200:5efe:c0a8:64c8 prints as "2001:db8:85a3:8d3:200:5efe:192.168.100.200", which is 42 characters. That does not fit `buffer[40]` (src/socket.cpp:135-139), so `ip_address_v6::string()` throws `runtime_error`, and `endpoint::string()` (line 172) throws with it. The Windows printer's dotted-quad forms are not modelled, so this error path is not modelled either.
- IpV6.Any and IpV6.Localhost are defined by their words, not by calling the parser. IpV6.AnyParses and IpV6.LocalhostParses prove that they equal `ip_address_v6("::")` and `ip_address_v6("::1")`.
- Sockets.Socket.Open takes an IpVersion and a Protocol, which hold only the named enumerators. C++ lets a caller pass other values (`static_cast<ip_versions>(2)`). For such a version, the source throws `invalid_argument` (src/socket.cpp:275). Any protocol other than `tcp` opens a UDP socket (src/socket.cpp:277-280). Neither case is modelled.
- Sockets.Socket.Accept requires the peer's sockaddr to be of the listening socket's family. The source reads the peer through a sockaddr_in or sockaddr_in6 chosen by that family (src/socket.cpp:372), with no ss_family test, so the model's peer stands for the structure of that type.
- Sockets.Socket.Receive requires the OS to deliver at most SocketAddresses.RecvCapacity bytes. That is `length` when `length` fits the buffer. For a negative length, which the source forwards to `recv` unchecked, it is only the buffer's size. What an OS does with a negative length, and writes past the buffer, are not modelled. Sockets.Socket.ReceiveFrom and the receive span overloads require the same.
- Sockets.Socket.Receive, Sockets.Socket.Send, Sockets.Socket.ReceiveFrom and Sockets.Socket.SendTo require `length` to be at most the buffer's size. The pointer overloads cannot check this, and a larger length is undefined behaviour in C++.
- Sockets.Socket.SetNonBlocking requires F_GETFL to return -1 or a non-negative flag word.
- The sin6_flowinfo and sin6_scope_id fields, which send_to leaves uninitialised, are not modelled.
- The span overloads are modelled for byte spans only. A span of another element type is forwarded as its bytes, which is what the reinterpret_cast does.
- The model does not capture aliasing or lifetime of the span's memory.
- Sockets.Socket.Destroy: the destructor does not close descriptor 0 (`sock != 0`). The model states this as written and does not treat it as a finding.
- If `socket(void*)` throws inside `accept`, the accepted descriptor is never closed and leaks. The model records the failed result and adds no close call, as the code does.
- Exceptions are modelled as `Failure` results, not as C++ stack unwinding.

## Findings

| source | as written | input that shows it | evidently intended | confidence | as-written member | corrected member |
|---|---|---|---|---|---|---|
| src/socket.cpp:351 | connect stores the IPv4 value in sin_addr without htonl, unlike bind at line 317 | connect to 127.0.0.1: the bytes 1, 0, 0, 127 go out (1.0.0.127) | htonl(m_value), as bind does | high, not executed | SocketAddresses.ConnectLoopbackReversed | Sockets.Socket.Connect |
| src/socket.cpp:508 | get_endpoint builds the IPv4 address from sin_addr without ntohl | a socket bound to 127.0.0.1 reports 1.0.0.127 | ntohl(sin_addr), as accept and receive_from do | high, not executed | SocketAddresses.GetEndpointLoopbackReversed | Sockets.Socket.GetEndpoint |
| src/socket.cpp:432 | receive_from's IPv6 branch stores sin6_port without ntohs | a datagram from [::1]:80 is reported with port 20480 | ntohs(sin6_port), as the IPv4 branch does | high, not executed | SocketAddresses.ReceiveFromV6PortSwapped | Sockets.Socket.ReceiveFrom |
| src/socket.cpp:477 | on POSIX, state == true clears O_NONBLOCK and false sets it | in the POSIX text (a branch that does not build as written): set_non_blocking(true) would clear O_NONBLOCK and leave the socket blocking | O_NONBLOCK set exactly when state is true, as the Windows branch does with FIONBIO | high, not executed | SocketAddresses.PosixFlagsAsWrittenInverted | SocketAddresses.PosixFlagsAgreeWithWindows |
| src/socket.cpp:253-262 | socket(void*) checks the descriptor but never creates m_impl | any descriptor: the handle owns nothing, so the destructor never closes it and any later call dereferences null | m_impl created with the descriptor and its family | high, not executed | Sockets.Socket.AdoptAsWritten | Sockets.Socket.Adopt |
| src/socket.cpp:226-228 | on POSIX, socket_exception fills in the message but never assigns m_error | in the POSIX text (a branch that does not build as written, see line 227): with errno EAGAIN, error() would return an indeterminate value, not would_block | m_error = get_error(errno), as on Windows | high, not executed | Errors.PosixExceptionLosesKind | Errors.MakeSocketException |
| src/socket.cpp:210-211 | the POSIX switch lists EWOULDBLOCK and EAGAIN as separate cases | on Linux both are 11, so the duplicate case label makes the switch ill-formed | one label for the shared value | high, not executed | Errors.PosixSwitchRepeatsLabel | Errors.CorrectedSwitchWellFormed |
| src/socket.cpp:79 | the IPv4 constructor hands ip.data() of a string_view to inet_pton, which reads up to a NUL rather than ip.size() characters | the view "1.2.3" cut from the text "1.2.3.4" gives 1.2.3.4; a view with no NUL after it reads past its end | parse exactly the view's characters, e.g. through a NUL-terminated std::string copy | medium, not executed | IpV4.ConstructReadsPastView | IpV4.ParseRejectsNul |
| src/socket.cpp:128 | the IPv6 constructor hands ip.data() of a string_view to inet_pton in the same way | the view "::" cut from the text "::1" gives ::1 instead of :: | parse exactly the view's characters | medium, not executed | IpV6.ConstructReadsPastView | IpV6.ParseRejectsNul |
| src/socket.cpp:258-259 | socket(void*) gives getsockname a 16-byte struct sockaddr | on Windows, getsockname of an AF_INET6 descriptor (28-byte name) fails with WSAEFAULT, so every accept on an IPv6 listener would throw after accepting and leak the descriptor | a sockaddr_storage, as get_endpoint uses | medium, not executed | SocketAddresses.AdoptNameTooShort | Sockets.Socket.Adopt |
