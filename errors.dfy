/** The portable error taxonomy (socket_errors), the two platform tables that
    get_error translates from, socket_exception, and the other exceptions the
    library throws. */
module Errors {
  import opened Outcomes

  /** socket_errors, in declaration order. */
  datatype SocketError =
    | Unknown
    | BadFileDescriptor
    | Invalid
    | Fault
    | NotASocket
    | Access
    | Permission
    | ConnectionAborted
    | AddressInUse
    | OperationNotSupported
    | WouldBlock

  /** The enumerators in declaration order. */
  const Kinds: seq<SocketError> := [Unknown, BadFileDescriptor, Invalid, Fault, NotASocket, Access,
    Permission, ConnectionAborted, AddressInUse, OperationNotSupported, WouldBlock]

  /** The underlying value of an enumerator: its position in the declaration. */
  function Ordinal(e: SocketError): (n: nat)
    ensures n < |Kinds| && Kinds[n] == e
  {
    match e
    case Unknown => 0
    case BadFileDescriptor => 1
    case Invalid => 2
    case Fault => 3
    case NotASocket => 4
    case Access => 5
    case Permission => 6
    case ConnectionAborted => 7
    case AddressInUse => 8
    case OperationNotSupported => 9
    case WouldBlock => 10
  }

  /** The two builds: Windows (WSA error codes) and POSIX (errno values, with
      the numbers Linux uses). */
  datatype Platform = Windows | Posix

  const WSAEBADF := 10009
  const WSAEINVAL := 10022
  const WSAEFAULT := 10014
  const WSAENOTSOCK := 10038
  const WSAEACCES := 10013
  const WSAECONNABORTED := 10053
  const WSAEADDRINUSE := 10048
  const WSAEOPNOTSUPP := 10045
  const WSAEWOULDBLOCK := 10035

  const EBADF := 9
  const EINVAL := 22
  const EFAULT := 14
  const ENOTSOCK := 88
  const EACCES := 13
  const ECONNABORTED := 103
  const EADDRINUSE := 98
  const EOPNOTSUPP := 95
  const EAGAIN := 11
  const EWOULDBLOCK := EAGAIN

  /** get_error: the switch over the platform's code space. */
  function GetError(platform: Platform, code: int): SocketError
  {
    match platform
    case Windows =>
      if code == WSAEBADF then BadFileDescriptor
      else if code == WSAEINVAL then Invalid
      else if code == WSAEFAULT then Fault
      else if code == WSAENOTSOCK then NotASocket
      else if code == WSAEACCES then Access
      else if code == WSAECONNABORTED then ConnectionAborted
      else if code == WSAEADDRINUSE then AddressInUse
      else if code == WSAEOPNOTSUPP then OperationNotSupported
      else if code == WSAEWOULDBLOCK then WouldBlock
      else Unknown
    case Posix =>
      if code == EBADF then BadFileDescriptor
      else if code == EINVAL then Invalid
      else if code == EFAULT then Fault
      else if code == ENOTSOCK then NotASocket
      else if code == EACCES then Access
      else if code == ECONNABORTED then ConnectionAborted
      else if code == EADDRINUSE then AddressInUse
      else if code == EOPNOTSUPP then OperationNotSupported
      else if code == EWOULDBLOCK || code == EAGAIN then WouldBlock
      else Unknown
  }

  /** One `case code: return kind;` line of the switch. */
  datatype Case = Case(code: int, kind: SocketError)

  /** The case labels of the switch as written, in source order. On POSIX
      both EWOULDBLOCK and EAGAIN have a label of their own. */
  function Cases(platform: Platform): seq<Case>
  {
    match platform
    case Windows =>
      [Case(WSAEBADF, BadFileDescriptor), Case(WSAEINVAL, Invalid), Case(WSAEFAULT, Fault),
       Case(WSAENOTSOCK, NotASocket), Case(WSAEACCES, Access), Case(WSAECONNABORTED, ConnectionAborted),
       Case(WSAEADDRINUSE, AddressInUse), Case(WSAEOPNOTSUPP, OperationNotSupported),
       Case(WSAEWOULDBLOCK, WouldBlock)]
    case Posix =>
      [Case(EBADF, BadFileDescriptor), Case(EINVAL, Invalid), Case(EFAULT, Fault),
       Case(ENOTSOCK, NotASocket), Case(EACCES, Access), Case(ECONNABORTED, ConnectionAborted),
       Case(EADDRINUSE, AddressInUse), Case(EOPNOTSUPP, OperationNotSupported),
       Case(EWOULDBLOCK, WouldBlock), Case(EAGAIN, WouldBlock)]
  }

  /** The POSIX switch with the EAGAIN label kept only where it differs from
      EWOULDBLOCK (it does not on Linux, the BSDs or macOS). */
  function CorrectedCases(platform: Platform): seq<Case>
  {
    var cases := Cases(platform);
    if platform == Posix && EAGAIN == EWOULDBLOCK then cases[..|cases| - 1] else cases
  }

  /** A C++ switch is well formed only if no two case labels share a value. */
  predicate WellFormedSwitch(cases: seq<Case>)
  {
    forall i, j :: 0 <= i < j < |cases| ==> cases[i].code != cases[j].code
  }

  /** What a switch over these cases returns: the kind of the label equal to
      the code, or the default, unknown. */
  function Lookup(cases: seq<Case>, code: int): (e: SocketError)
    ensures e == Unknown || exists i :: 0 <= i < |cases| && cases[i] == Case(code, e)
  {
    if cases == [] then Unknown
    else if cases[0].code == code then cases[0].kind
    else Lookup(cases[1..], code)
  }

  lemma {:induction false} LookupFinds(cases: seq<Case>, i: nat)
    requires WellFormedSwitch(cases) && i < |cases|
    ensures Lookup(cases, cases[i].code) == cases[i].kind
    decreases |cases|
  {
    if i > 0 {
      assert cases[0].code != cases[i].code;
      assert WellFormedSwitch(cases[1..]) by {
        forall a, b | 0 <= a < b < |cases| - 1 ensures cases[1..][a].code != cases[1..][b].code {
          assert cases[1..][a] == cases[a + 1] && cases[1..][b] == cases[b + 1];
        }
      }
      LookupFinds(cases[1..], i - 1);
      assert cases[1..][i - 1] == cases[i];
    }
  }

  lemma {:induction false} LookupMisses(cases: seq<Case>, code: int)
    requires forall i :: 0 <= i < |cases| ==> cases[i].code != code
    ensures Lookup(cases, code) == Unknown
    decreases |cases|
  {
    if cases != [] {
      LookupMisses(cases[1..], code);
    }
  }

  /** As written, the POSIX switch repeats the value 11 (EWOULDBLOCK is
      EAGAIN), so that branch of get_error is ill formed. */
  lemma PosixSwitchRepeatsLabel()
    ensures !WellFormedSwitch(Cases(Posix))
    ensures Cases(Posix)[8].code == Cases(Posix)[9].code == 11
  {
    var cases := Cases(Posix);
    assert cases[8].code == cases[9].code;
  }

  /** With the repeated label dropped both switches are well formed, and
      get_error is exactly the switch: each listed code yields its kind and
      every other code yields unknown. */
  lemma CorrectedSwitchWellFormed(platform: Platform)
    ensures WellFormedSwitch(CorrectedCases(platform))
  {
    var cases := CorrectedCases(platform);
    forall i, j | 0 <= i < j < |cases| ensures cases[i].code != cases[j].code {
    }
  }

  /** Each case label of either switch yields its own kind. */
  lemma ListedCodes(platform: Platform)
    ensures forall i :: 0 <= i < |Cases(platform)| ==> GetError(platform, Cases(platform)[i].code) == Cases(platform)[i].kind
  {
  }

  /** A code with no case label yields unknown. */
  lemma UnlistedCodes(platform: Platform, code: int)
    requires forall i :: 0 <= i < |CorrectedCases(platform)| ==> CorrectedCases(platform)[i].code != code
    ensures GetError(platform, code) == Unknown
  {
    var cases := CorrectedCases(platform);
    assert |cases| == 9;
    assert cases[0].code != code && cases[1].code != code && cases[2].code != code;
    assert cases[3].code != code && cases[4].code != code && cases[5].code != code;
    assert cases[6].code != code && cases[7].code != code && cases[8].code != code;
  }

  /** With the repeated label dropped both switches are well formed, and
      get_error is exactly the switch. */
  lemma {:induction false} GetErrorIsSwitch(platform: Platform, code: int)
    ensures WellFormedSwitch(CorrectedCases(platform))
    ensures GetError(platform, code) == Lookup(CorrectedCases(platform), code)
  {
    var cases := CorrectedCases(platform);
    CorrectedSwitchWellFormed(platform);
    if i :| 0 <= i < |cases| && cases[i].code == code {
      LookupFinds(cases, i);
      ListedCodes(platform);
      assert cases[i] == Cases(platform)[i];
    } else {
      LookupMisses(cases, code);
      UnlistedCodes(platform, code);
    }
  }

  /** get_error is total, maps both EWOULDBLOCK and EAGAIN to would_block,
      yields unknown for every code without a label, and never yields
      permission, which no case label of either platform produces. */
  lemma GetErrorKinds(platform: Platform, code: int)
    ensures GetError(platform, code) != Permission
    ensures GetError(Posix, EWOULDBLOCK) == WouldBlock && GetError(Posix, EAGAIN) == WouldBlock
    ensures GetError(Windows, WSAEWOULDBLOCK) == WouldBlock
    ensures (forall i :: 0 <= i < |Cases(platform)| ==> Cases(platform)[i].code != code)
      ==> GetError(platform, code) == Unknown
  {
    var cases := Cases(platform);
    if forall i :: 0 <= i < |cases| ==> cases[i].code != code {
      var corrected := CorrectedCases(platform);
      assert forall i :: 0 <= i < |corrected| ==> corrected[i] == cases[i];
      UnlistedCodes(platform, code);
    }
  }

  /** A socket_exception: the portable kind and the OS code its message text
      would be formatted from. */
  datatype SocketException = SocketException(error: SocketError, code: int)

  /** socket_exception() as the Windows branch builds it, which the model
      uses on both platforms: the last OS error translated by get_error. */
  function MakeSocketException(platform: Platform, lastError: int): (x: SocketException)
    ensures x.code == lastError
    ensures x.error != Permission
    ensures x.error == Unknown <==> forall i :: 0 <= i < |Cases(platform)| ==> Cases(platform)[i].code != lastError
  {
    GetErrorKinds(platform, lastError);
    SocketException(GetError(platform, lastError), lastError)
  }

  /** The error kind a socket_exception holds as written: the POSIX branch
      never assigns m_error, so there it holds no translated kind at all. */
  function ExceptionErrorAsWritten(platform: Platform, lastError: int): Option<SocketError>
  {
    match platform
    case Windows => Some(GetError(platform, lastError))
    case Posix => None
  }

  /** As written, a POSIX would-block failure reaches the caller without the
      would_block kind; the corrected exception carries it on both builds. */
  lemma PosixExceptionLosesKind()
    ensures ExceptionErrorAsWritten(Posix, EAGAIN) == None
    ensures MakeSocketException(Posix, EAGAIN).error == WouldBlock
    ensures forall code :: ExceptionErrorAsWritten(Windows, code) == Some(MakeSocketException(Windows, code).error)
  {
  }

  /** Everything the library throws. */
  datatype Exception =
    | InvalidArgument(message: string)   // std::invalid_argument
    | RuntimeError(message: string)      // std::runtime_error
    | BadVariantAccess                   // std::bad_variant_access from std::get
    | Socket(failure: SocketException)   // socket_exception
}
