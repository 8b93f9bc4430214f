/** ip_address_v6: the eight 16-bit words of an in6_addr, its constants, and
    its text form. inet_pton reads the forms of RFC 4291 section 2.2 (hex
    groups, at most one "::"); inet_ntop prints the canonical form of
    RFC 5952 section 4. */
module IpV6 {
  import opened Outcomes
  import opened Numeric
  import opened ByteOrder
  import opened Fields
  import opened Errors

  type Words = s: seq<U16> | |s| == 8 witness [0, 0, 0, 0, 0, 0, 0, 0]
  type Bytes16 = s: seq<Byte> | |s| == 16 witness [0, 0, 0, 0, 0, 0, 0, 0, 0, 0, 0, 0, 0, 0, 0, 0]

  /** m_values: the in6_addr's `u.Word` array as the little-endian host reads
      it, so each word is its group with the two bytes swapped. */
  datatype IpAddressV6 = IpAddressV6(words: Words)

  /** The default constructor value-initialises every word to zero. */
  function Default(): IpAddressV6 { IpAddressV6([0, 0, 0, 0, 0, 0, 0, 0]) }

  /** Copying the words out of / into an in6_addr (network-order bytes). */
  function WordsOf(b: Bytes16): Words
  {
    seq(8, i requires 0 <= i < 8 => LoadHost16([b[2 * i], b[2 * i + 1]]))
  }

  function BytesOf(w: Words): Bytes16
  {
    seq(16, i requires 0 <= i < 16 => StoreHost16(w[i / 2])[i % 2])
  }

  /** The sixteen-bit groups of the text form: the bytes in pairs, network order. */
  function GroupsOf(b: Bytes16): Words
  {
    seq(8, i requires 0 <= i < 8 => FromBigEndian16([b[2 * i], b[2 * i + 1]]))
  }

  function BytesOfGroups(g: Words): Bytes16
  {
    seq(16, i requires 0 <= i < 16 => BigEndian16(g[i / 2])[i % 2])
  }

  /** Bytes 2i and 2i + 1 of sixteen hold the pair of word i. */
  lemma PairIndex(i: nat)
    requires i < 8
    ensures (2 * i) / 2 == i && (2 * i) % 2 == 0
    ensures (2 * i + 1) / 2 == i && (2 * i + 1) % 2 == 1
  {
  }

  /** Byte i of sixteen is byte i % 2 of the pair of word i / 2. */
  lemma HalfIndex(i: nat)
    requires i < 16
    ensures i / 2 < 8 && (i % 2 == 0 || i % 2 == 1) && i == 2 * (i / 2) + i % 2
  {
  }

  lemma BytesOfPair(w: Words, i: nat)
    requires i < 8
    ensures [BytesOf(w)[2 * i], BytesOf(w)[2 * i + 1]] == StoreHost16(w[i])
  {
    PairIndex(i);
  }

  lemma BytesOfGroupsPair(g: Words, i: nat)
    requires i < 8
    ensures [BytesOfGroups(g)[2 * i], BytesOfGroups(g)[2 * i + 1]] == BigEndian16(g[i])
  {
    PairIndex(i);
  }

  lemma ReadPair(p: Bytes2, x: U16)
    requires p == BigEndian16(x)
    ensures FromBigEndian16(p) == x
  {
    BigEndian16RoundTrip(x, p);
  }

  lemma WordsBytesWords(w: Words)
    ensures WordsOf(BytesOf(w)) == w
  {
    forall i | 0 <= i < 8 ensures WordsOf(BytesOf(w))[i] == w[i] {
      BytesOfPair(w, i);
      Host16RoundTrip(w[i], [0, 0]);
    }
  }

  lemma BytesWordsBytes(b: Bytes16)
    ensures BytesOf(WordsOf(b)) == b
  {
    forall i | 0 <= i < 16 ensures BytesOf(WordsOf(b))[i] == b[i] {
      var j := i / 2;
      HalfIndex(i);
      Host16RoundTrip(0, [b[2 * j], b[2 * j + 1]]);
    }
  }

  lemma GroupsBytesGroups(g: Words)
    ensures GroupsOf(BytesOfGroups(g)) == g
  {
    forall i | 0 <= i < 8 ensures GroupsOf(BytesOfGroups(g))[i] == g[i] {
      var c := BytesOfGroups(g);
      BytesOfGroupsPair(g, i);
      ReadPair([c[2 * i], c[2 * i + 1]], g[i]);
    }
  }

  lemma BytesGroupsBytes(b: Bytes16)
    ensures BytesOfGroups(GroupsOf(b)) == b
  {
    forall i | 0 <= i < 16 ensures BytesOfGroups(GroupsOf(b))[i] == b[i] {
      var j := i / 2;
      HalfIndex(i);
      BigEndian16RoundTrip(0, [b[2 * j], b[2 * j + 1]]);
    }
  }

  /** Each group of the text is ntohs of the word the host holds. */
  lemma GroupsAreSwappedWords(w: Words)
    ensures forall i :: 0 <= i < 8 ==> GroupsOf(BytesOf(w))[i] == Ntohs(w[i])
  {
    forall i | 0 <= i < 8 ensures GroupsOf(BytesOf(w))[i] == Ntohs(w[i]) {
      BytesOfPair(w, i);
    }
  }

  lemma WordsAreSwappedGroups(g: Words)
    ensures forall i :: 0 <= i < 8 ==> WordsOf(BytesOfGroups(g))[i] == Htons(g[i])
  {
    forall i | 0 <= i < 8 ensures WordsOf(BytesOfGroups(g))[i] == Htons(g[i]) {
      BytesOfGroupsPair(g, i);
    }
  }

  // ---------------------------------------------------------------------
  // Text form
  // ---------------------------------------------------------------------

  /** A group in lower-case hex without leading zeros (RFC 5952 4.1, 4.3). */
  function Hex(x: U16): string
  {
    FromNat(x, 16)
  }

  function HexFields(g: seq<U16>): (f: seq<string>)
    ensures |f| == |g| && forall i :: 0 <= i < |g| ==> f[i] == Hex(g[i])
  {
    seq(|g|, i requires 0 <= i < |g| => Hex(g[i]))
  }

  /** A group inet_pton accepts: one to four hex digits of either case. */
  predicate IsHexField(t: string)
  {
    1 <= |t| <= 4 && AllDigits(t, 16)
  }

  function HexValue(t: string): U16
    requires IsHexField(t)
  {
    ToNatBound(t, 16);
    assert Pow(16, |t|) <= 0x1_0000 by { PowSixteen(|t|); }
    ToNat(t, 16)
  }

  lemma PowSixteen(k: nat)
    requires k <= 4
    ensures Pow(16, k) <= 0x1_0000
  {
    assert Pow(16, 4) == 0x1_0000;
    if k < 4 {
      assert Pow(16, 3) == 0x1000;
      assert Pow(16, k) <= 0x1000 by {
        if k < 3 {
          assert Pow(16, 2) == 0x100;
          assert Pow(16, 1) == 16;
        }
      }
    }
  }

  lemma HexNumeral(x: U16)
    ensures IsHexField(Hex(x)) && HexValue(Hex(x)) == x
    ensures ':' !in Hex(x) && Canonical(Hex(x), 16)
  {
    FromNatCanonical(x, 16);
    assert Pow(16, 4) == 0x1_0000;
    FromNatLength(x, 16, 4);
    var t := Hex(x);
    assert forall i :: 0 <= i < |t| ==> t[i] in Digits[..16];
    assert ':' !in Digits[..16];
  }

  /** The values of hex fields, or None if any field is not one. */
  function FieldValues(fs: seq<string>): (r: Option<seq<U16>>)
    ensures r.Some? ==> |r.value| == |fs|
  {
    if fs == [] then Some([])
    else if !IsHexField(fs[0]) then None
    else match FieldValues(fs[1..])
      case None => None
      case Some(vs) => Some([HexValue(fs[0])] + vs)
  }

  lemma {:induction false} HexFieldValues(g: seq<U16>)
    ensures FieldValues(HexFields(g)) == Some(g)
    ensures Separable(HexFields(g), ':')
    decreases |g|
  {
    var f := HexFields(g);
    forall i | 0 <= i < |g| ensures f[i] != [] && ':' !in f[i] {
      HexNumeral(g[i]);
    }
    if g != [] {
      HexNumeral(g[0]);
      HexFieldValues(g[1..]);
      assert f[1..] == HexFields(g[1..]);
      assert [g[0]] + g[1..] == g;
    }
  }

  /** The groups between colons; none at all in empty text. */
  function FieldsOf(s: string): seq<string>
  {
    if s == [] then [] else Split(s, ':')
  }

  /** Position of the first "::". */
  function FindDoubleColon(s: string): (r: Option<nat>)
    ensures r.Some? ==> r.value + 1 < |s| && s[r.value] == ':' && s[r.value + 1] == ':'
  {
    if |s| < 2 then None
    else if s[0] == ':' && s[1] == ':' then Some(0)
    else match FindDoubleColon(s[1..])
      case None => None
      case Some(k) => Some(k + 1)
  }

  function Zeros(n: nat): (z: seq<U16>)
    ensures |z| == n && forall i :: 0 <= i < n ==> z[i] == 0
  {
    seq(n, i => 0)
  }

  /** The groups inet_pton(AF_INET6) reads: eight colon-separated groups, or
      fewer with one "::" standing for one or more zero groups. */
  function ParseGroups(s: string): Option<Words>
  {
    match FindDoubleColon(s)
    case None =>
      (match FieldValues(Split(s, ':'))
       case Some(vs) => if |vs| == 8 then Some(vs) else None
       case None => None)
    case Some(k) =>
      var left, right := FieldValues(FieldsOf(s[..k])), FieldValues(FieldsOf(s[k + 2..]));
      if left.Some? && right.Some? && |left.value| + |right.value| <= 7
      then Some(left.value + Zeros(8 - |left.value| - |right.value|) + right.value)
      else None
  }

  /** Number of zero groups from position i on. */
  function ZeroRun(g: Words, i: nat): (n: nat)
    requires i <= 8
    ensures i + n <= 8
    decreases 8 - i
  {
    if i == 8 || g[i] != 0 then 0 else 1 + ZeroRun(g, i + 1)
  }

  /** A zero run is all zero groups and ends at a non-zero one or the end. */
  lemma {:induction false} ZeroRunFacts(g: Words, i: nat)
    requires i <= 8
    ensures var n := ZeroRun(g, i);
      && (forall k :: i <= k < i + n ==> g[k] == 0)
      && (i + n < 8 ==> g[i + n] != 0)
    decreases 8 - i
  {
    if i < 8 && g[i] == 0 {
      ZeroRunFacts(g, i + 1);
    }
  }

  /** A run of zero groups: where it starts and how many groups it spans. */
  datatype Run = Run(start: nat, len: nat)

  /** The longest run of zero groups at or after position i, the first one
      when several are equally long (RFC 5952 4.2.1, 4.2.3). */
  function LongestRun(g: Words, i: nat): (r: Run)
    requires i <= 8
    ensures i <= r.start <= 8 && r.len == ZeroRun(g, r.start)
    decreases 8 - i
  {
    if i == 8 then Run(8, 0)
    else
      var later := LongestRun(g, i + 1);
      if ZeroRun(g, i) >= later.len then Run(i, ZeroRun(g, i)) else later
  }

  /** inet_ntop's text for groups g: every group in hex, and the longest
      first run of two or more zero groups replaced by "::" (RFC 5952 4.2.2:
      a single zero group is never compressed). */
  function FormatGroups(g: Words): string
  {
    var r := LongestRun(g, 0);
    if r.len < 2 then Join(HexFields(g), ':')
    else Join(HexFields(g[..r.start]), ':') + "::" + Join(HexFields(g[r.start + r.len..]), ':')
  }

  function InetPton6(s: string): Option<Bytes16>
  {
    match ParseGroups(s)
    case None => None
    case Some(g) => Some(BytesOfGroups(g))
  }

  function InetNtop6(b: Bytes16): string
  {
    FormatGroups(GroupsOf(b))
  }

  const ParseMessage := "Failed to convert text to an IPv6 address."
  const FormatMessage := "Failed to convert IPv6 from binary to the text representation."

  /** The ip_address_v6(string_view) constructor: inet_pton into an in6_addr,
      whose words are copied out unchanged. */
  function Parse(s: string): Result<IpAddressV6, Exception>
  {
    match InetPton6(s)
    case None => Failure(InvalidArgument(ParseMessage))
    case Some(b) => Success(IpAddressV6(WordsOf(b)))
  }

  /** What inet_ntop prints for the in6_addr the words are copied into. */
  function Text(a: IpAddressV6): string
  {
    InetNtop6(BytesOf(a.words))
  }

  /** The size of string()'s buffer, which inet_ntop must fit with its NUL. */
  const BufferSize := 40

  /** string(): inet_ntop into a 40-byte buffer, which never overflows, so
      the runtime_error branch cannot be taken. */
  function ToString(a: IpAddressV6): (r: Result<string, Exception>)
    ensures r == Success(Text(a))
    ensures 2 <= |r.value| <= 39
  {
    TextLength(a);
    var t := Text(a);
    if |t| + 1 > BufferSize then Failure(RuntimeError(FormatMessage)) else Success(t)
  }

  /** any() and localhost() are the addresses "::" and "::1" parse to
      (AnyParses and LocalhostParses below); the last group 1 of "::1" is
      held as the word 0x0100. */
  function Any(): IpAddressV6
  {
    IpAddressV6([0, 0, 0, 0, 0, 0, 0, 0])
  }

  function Localhost(): IpAddressV6
  {
    IpAddressV6([0, 0, 0, 0, 0, 0, 0, 0x0100])
  }

  // ---------------------------------------------------------------------
  // Properties
  // ---------------------------------------------------------------------

  /** No "::" in text that has no two adjacent colons. */
  lemma {:induction false} NoDoubleColonFound(s: string)
    requires forall i :: 0 <= i < |s| - 1 ==> !(s[i] == ':' && s[i + 1] == ':')
    ensures FindDoubleColon(s) == None
    decreases |s|
  {
    if |s| >= 2 {
      NoDoubleColonFound(s[1..]);
    }
  }

  /** The first "::" of a + "::" + b is the one after a, when a has no two
      adjacent colons and does not end with one. */
  lemma {:induction false} DoubleColonAfter(a: string, b: string)
    requires forall i :: 0 <= i < |a| - 1 ==> !(a[i] == ':' && a[i + 1] == ':')
    requires a != [] ==> a[|a| - 1] != ':'
    ensures FindDoubleColon(a + "::" + b) == Some(|a|)
    decreases |a|
  {
    var s := a + "::" + b;
    if a != [] {
      assert s[1..] == a[1..] + "::" + b;
      if |a| == 1 {
        assert s[0] != ':';
      } else {
        assert !(s[0] == ':' && s[1] == ':');
      }
      DoubleColonAfter(a[1..], b);
    }
  }

  lemma JoinLength(fs: seq<string>)
    requires forall i :: 0 <= i < |fs| ==> |fs[i]| <= 4
    ensures |fs| >= 1 ==> |Join(fs, ':')| + 1 <= 5 * |fs|
    ensures |Join(fs, ':')| <= 5 * |fs|
    decreases |fs|
  {
    if |fs| > 1 {
      JoinLength(fs[1..]);
    }
  }

  lemma HexFieldsLength(g: seq<U16>)
    ensures forall i :: 0 <= i < |g| ==> |HexFields(g)[i]| <= 4
  {
    forall i | 0 <= i < |g| ensures |HexFields(g)[i]| <= 4 {
      HexNumeral(g[i]);
    }
  }

  lemma TextLength(a: IpAddressV6)
    ensures 2 <= |Text(a)| <= 39
  {
    var g := GroupsOf(BytesOf(a.words));
    var r := LongestRun(g, 0);
    if r.len < 2 {
      UncompressedLength(g);
    } else {
      CompressedLength(g, r);
    }
  }

  /** Eight groups of one to four digits with seven colons between them. */
  lemma UncompressedLength(g: Words)
    ensures var t := Join(HexFields(g), ':'); 2 <= |t| <= 39
  {
    HexFieldsLength(g);
    JoinLength(HexFields(g));
    HexFieldValues(g);
    JoinNoDoubleSeparator(HexFields(g), ':');
    assert Join(HexFields(g), ':') == HexFields(g)[0] + [':'] + Join(HexFields(g)[1..], ':');
  }

  /** The groups around "::": at most six of them, with the colons between. */
  lemma CompressedLength(g: Words, r: Run)
    requires r.start + r.len <= 8 && r.len >= 2
    ensures var t := Join(HexFields(g[..r.start]), ':') + "::" + Join(HexFields(g[r.start + r.len..]), ':');
      2 <= |t| <= 39
  {
    HexFieldsLength(g[..r.start]);
    HexFieldsLength(g[r.start + r.len..]);
    JoinLength(HexFields(g[..r.start]));
    JoinLength(HexFields(g[r.start + r.len..]));
  }

  lemma ParseUncompressed(g: Words)
    requires LongestRun(g, 0).len < 2
    ensures ParseGroups(Join(HexFields(g), ':')) == Some(g)
  {
    var f := HexFields(g);
    HexFieldValues(g);
    JoinNoDoubleSeparator(f, ':');
    NoDoubleColonFound(Join(f, ':'));
    SplitJoin(f, ':');
  }

  /** The groups on one side of the "::" read back. */
  lemma ParseSide(g: seq<U16>)
    ensures FieldValues(FieldsOf(Join(HexFields(g), ':'))) == Some(g)
    ensures var t := Join(HexFields(g), ':');
      && (forall i :: 0 <= i < |t| - 1 ==> !(t[i] == ':' && t[i + 1] == ':'))
      && (t != [] ==> t[|t| - 1] != ':')
  {
    var f := HexFields(g);
    HexFieldValues(g);
    JoinNoDoubleSeparator(f, ':');
    if f != [] {
      SplitJoin(f, ':');
    }
  }

  /** Cutting out a run of zero groups and putting zeros back is the identity. */
  lemma SpliceRun(g: Words, start: nat, len: nat)
    requires start + len <= 8
    requires forall k :: start <= k < start + len ==> g[k] == 0
    ensures g[..start] + Zeros(len) + g[start + len..] == g
  {
    var h := g[..start] + Zeros(len) + g[start + len..];
    assert |h| == 8;
    forall i | 0 <= i < 8 ensures h[i] == g[i] {
      if i < start {
      } else if i < start + len {
        assert h[i] == Zeros(len)[i - start];
      } else {
        assert h[i] == g[start + len..][i - start - len];
      }
    }
  }

  /** Text with one "::" reads as the groups on its left, zeros, and the
      groups on its right. */
  lemma ParseSpliced(a: string, b: string, lg: seq<U16>, rg: seq<U16>)
    requires forall i :: 0 <= i < |a| - 1 ==> !(a[i] == ':' && a[i + 1] == ':')
    requires a != [] ==> a[|a| - 1] != ':'
    requires FieldValues(FieldsOf(a)) == Some(lg) && FieldValues(FieldsOf(b)) == Some(rg)
    requires |lg| + |rg| <= 7
    ensures ParseGroups(a + "::" + b) == Some(lg + Zeros(8 - |lg| - |rg|) + rg)
  {
    DoubleColonAfter(a, b);
    var s := a + "::" + b;
    assert s[..|a|] == a;
    assert s[|a| + 2..] == b;
  }

  lemma ParseCompressed(g: Words, start: nat, len: nat)
    requires start + len <= 8 && len >= 2
    requires forall k :: start <= k < start + len ==> g[k] == 0
    ensures ParseGroups(Join(HexFields(g[..start]), ':') + "::" + Join(HexFields(g[start + len..]), ':')) == Some(g)
  {
    var lg, rg := g[..start], g[start + len..];
    assert |lg| == start && |rg| == 8 - start - len;
    var a, b := Join(HexFields(lg), ':'), Join(HexFields(rg), ':');
    ParseSide(lg);
    ParseSide(rg);
    ParseSpliced(a, b, lg, rg);
    SpliceRun(g, start, len);
    assert lg + Zeros(8 - |lg| - |rg|) + rg == g;
  }

  /** inet_pton reads back the groups of the canonical text. */
  lemma ParseFormatGroups(g: Words)
    ensures ParseGroups(FormatGroups(g)) == Some(g)
  {
    var r := LongestRun(g, 0);
    if r.len < 2 {
      ParseUncompressed(g);
    } else {
      ZeroRunFacts(g, r.start);
      ParseCompressed(g, r.start, r.len);
    }
  }

  /** inet_pton reads back exactly the bytes inet_ntop printed. */
  lemma PtonNtop(b: Bytes16)
    ensures InetPton6(InetNtop6(b)) == Some(b)
  {
    ParseFormatGroups(GroupsOf(b));
    BytesGroupsBytes(b);
  }

  /** Formatting then parsing gives back every address. */
  lemma ParseText(a: IpAddressV6)
    ensures Parse(Text(a)) == Success(a)
  {
    PtonNtop(BytesOf(a.words));
    WordsBytesWords(a.words);
  }

  /** The text form names each address once: distinct addresses print
      differently. */
  lemma TextInjective(a: IpAddressV6, b: IpAddressV6)
    requires Text(a) == Text(b)
    ensures a == b
  {
    ParseText(a);
    ParseText(b);
  }

  /** The compression RFC 5952 section 4.2 asks for: when inet_ntop writes
      "::" it stands for zero groups only, two or more of them, no run of
      zero groups is longer and none as long comes earlier. */
  lemma CompressionIsCanonical(g: Words, r: Run)
    requires r == LongestRun(g, 0) && r.len >= 2
    ensures r.start + r.len <= 8
    ensures forall k :: r.start <= k < r.start + r.len ==> g[k] == 0
    ensures forall j :: 0 <= j < 8 ==> ZeroRun(g, j) <= r.len
    ensures forall j :: 0 <= j < r.start ==> ZeroRun(g, j) < r.len
  {
    ZeroRunFacts(g, r.start);
    LongestRunIsLongest(g, 0);
  }

  /** When inet_ntop writes no "::", no two adjacent groups are both zero
      (a single zero group is not compressed, RFC 5952 section 4.2.2). */
  lemma NoCompressionNoZeroPair(g: Words)
    requires LongestRun(g, 0).len < 2
    ensures forall j :: 0 <= j < 7 ==> !(g[j] == 0 && g[j + 1] == 0)
  {
    LongestRunIsLongest(g, 0);
    forall j | 0 <= j < 7 && g[j] == 0 && g[j + 1] == 0 ensures ZeroRun(g, j) >= 2 {
      TwoZeros(g, j);
    }
  }

  /** No run from position i on is longer than LongestRun's, and every one
      before it is shorter. */
  lemma {:induction false} LongestRunIsLongest(g: Words, i: nat)
    requires i <= 8
    ensures var r := LongestRun(g, i);
      && (forall j :: i <= j < 8 ==> ZeroRun(g, j) <= r.len)
      && (forall j :: i <= j < r.start ==> ZeroRun(g, j) < r.len)
    decreases 8 - i
  {
    if i < 8 {
      LongestRunIsLongest(g, i + 1);
    }
  }

  lemma TwoZeros(g: Words, j: nat)
    requires j < 7 && g[j] == 0 && g[j + 1] == 0
    ensures ZeroRun(g, j) >= 2
  {
    assert ZeroRun(g, j) == 1 + ZeroRun(g, j + 1);
    assert ZeroRun(g, j + 1) == 1 + ZeroRun(g, j + 2);
  }

  /** "::" parses, to the all-zero address. */
  lemma AnyParses()
    ensures Parse("::") == Success(Any())
    ensures Any() == Default()
  {
    var s := "::";
    assert FindDoubleColon(s) == Some(0);
    assert s[..0] == [] && s[2..] == [];
    assert FieldsOf(s[..0]) == [] && FieldsOf(s[2..]) == [];
    assert FieldValues([]) == Some([]);
    var z := Zeros(8);
    assert ParseGroups(s) == Some([] + z + []);
    assert [] + z + [] == z;
    WordsAreSwappedGroups(z);
    assert Htons(0) == 0;
    assert WordsOf(BytesOfGroups(z)) == Any().words;
  }

  /** "::1" parses; its last group is 1, held as the word 0x0100. */
  lemma LocalhostParses()
    ensures Parse("::1") == Success(Localhost())
  {
    var s := "::1";
    var g := Zeros(7) + [1];
    LocalhostGroups(s, g);
    LocalhostWords(g);
  }

  /** The single field "1" has the value 1. */
  lemma OneField(fs: seq<string>)
    requires fs == ["1"]
    ensures FieldValues(fs) == Some([1])
  {
    assert fs[0] == "1" && fs[1..] == [];
    assert FieldValues(fs[1..]) == Some([]);
    assert IsHexField(fs[0]) && HexValue(fs[0]) == 1;
    assert [HexValue(fs[0])] + [] == [1];
  }

  /** "::1" is seven zero groups followed by the group 1. */
  lemma LocalhostGroups(s: string, g: Words)
    requires s == "::1" && g == Zeros(7) + [1]
    ensures ParseGroups(s) == Some(g)
  {
    assert FindDoubleColon(s) == Some(0);
    var l, r := s[..0], s[2..];
    assert l == [] && r == "1";
    SplitNoSeparator(r, ':');
    assert FieldsOf(l) == [] && FieldsOf(r) == [r];
    OneField(FieldsOf(r));
    assert [] + Zeros(7) + [1] == g;
  }

  /** The groups 0, ..., 0, 1 are stored as the words of Localhost(). */
  lemma LocalhostWords(g: Words)
    requires g == Zeros(7) + [1]
    ensures WordsOf(BytesOfGroups(g)) == Localhost().words
  {
    WordsAreSwappedGroups(g);
    SwappedLocalhost(g, WordsOf(BytesOfGroups(g)));
  }

  lemma SwappedLocalhost(g: Words, w: Words)
    requires g == Zeros(7) + [1]
    requires forall i :: 0 <= i < 8 ==> w[i] == Htons(g[i])
    ensures w == Localhost().words
  {
    var l := Localhost().words;
    SwapZeroOne();
    forall i | 0 <= i < 8 ensures w[i] == l[i] {
      if i < 7 {
        assert g[i] == 0;
      } else {
        assert g[i] == 1;
      }
    }
  }

  lemma SwapZeroOne()
    ensures Htons(0) == 0 && Htons(1) == 0x0100
  {
  }

  lemma FormatAllZero(z: Words)
    requires z == [0, 0, 0, 0, 0, 0, 0, 0]
    ensures FormatGroups(z) == "::"
  {
    assert LongestRun(z, 7) == Run(7, 1);
    assert LongestRun(z, 6) == Run(6, 2);
    assert LongestRun(z, 5) == Run(5, 3);
    assert LongestRun(z, 4) == Run(4, 4);
    assert LongestRun(z, 3) == Run(3, 5);
    assert LongestRun(z, 2) == Run(2, 6);
    assert LongestRun(z, 1) == Run(1, 7);
    assert LongestRun(z, 0) == Run(0, 8);
    assert z[..0] == [] && z[8..] == [];
    assert HexFields([]) == [];
  }

  lemma LastOneRun(g: Words)
    requires g == [0, 0, 0, 0, 0, 0, 0, 1]
    ensures LongestRun(g, 0) == Run(0, 7)
  {
    assert ZeroRun(g, 7) == 0;
    assert ZeroRun(g, 6) == 1;
    assert ZeroRun(g, 5) == 2;
    assert ZeroRun(g, 4) == 3;
    assert ZeroRun(g, 3) == 4;
    assert ZeroRun(g, 2) == 5;
    assert ZeroRun(g, 1) == 6;
    assert ZeroRun(g, 0) == 7;
    assert LongestRun(g, 7) == Run(7, 0);
    assert LongestRun(g, 6) == Run(6, 1);
    assert LongestRun(g, 5) == Run(5, 2);
    assert LongestRun(g, 4) == Run(4, 3);
    assert LongestRun(g, 3) == Run(3, 4);
    assert LongestRun(g, 2) == Run(2, 5);
    assert LongestRun(g, 1) == Run(1, 6);
  }

  lemma FormatLastOne(g: Words)
    requires g == [0, 0, 0, 0, 0, 0, 0, 1]
    ensures FormatGroups(g) == "::1"
  {
    LastOneRun(g);
    assert g[..0] == [] && g[7..] == [1];
    assert Hex(1) == "1";
    assert HexFields([]) == [] && HexFields([1]) == ["1"];
    assert Join(["1"], ':') == "1";
  }

  /** The groups of an address whose words are given: ntohs of each word. */
  lemma GroupsOfWords(w: Words, g: Words)
    requires forall i :: 0 <= i < 8 ==> g[i] == Ntohs(w[i])
    ensures Text(IpAddressV6(w)) == FormatGroups(g)
  {
    GroupsAreSwappedWords(w);
    assert GroupsOf(BytesOf(w)) == g;
  }

  lemma DefaultText()
    ensures Text(Default()) == "::"
  {
    var z: Words := [0, 0, 0, 0, 0, 0, 0, 0];
    assert Ntohs(0) == 0;
    GroupsOfWords(z, z);
    FormatAllZero(z);
  }

  /** any() prints as "::". */
  lemma AnyText()
    ensures Text(Any()) == "::"
  {
    DefaultText();
  }

  /** localhost() prints as "::1". */
  lemma LocalhostText()
    ensures Text(Localhost()) == "::1"
  {
    var w: Words := [0, 0, 0, 0, 0, 0, 0, 0x0100];
    assert Localhost() == IpAddressV6(w);
    var one: Words := [0, 0, 0, 0, 0, 0, 0, 1];
    assert Ntohs(0) == 0 && Ntohs(0x0100) == 1;
    GroupsOfWords(w, one);
    FormatLastOne(one);
  }

  // ---------------------------------------------------------------------
  // The constructor as written: inet_pton reads a C string
  // ---------------------------------------------------------------------

  /** A field list FieldValues accepts holds hex fields only. */
  lemma {:induction false} FieldValuesHex(fs: seq<string>)
    requires FieldValues(fs).Some?
    ensures forall i :: 0 <= i < |fs| ==> IsHexField(fs[i])
    decreases |fs|
  {
    if fs != [] {
      FieldValuesHex(fs[1..]);
      forall i | 1 <= i < |fs| ensures IsHexField(fs[i]) {
        assert fs[i] == fs[1..][i - 1];
      }
    }
  }

  /** Text whose colon-separated fields are all hex has no NUL. */
  lemma HexTextHasNoNul(t: string)
    requires FieldValues(Split(t, ':')).Some?
    ensures '\0' !in t
  {
    var fs := Split(t, ':');
    FieldValuesHex(fs);
    if '\0' in t {
      SplitCharacters(t, ':', '\0');
    }
  }

  /** inet_pton's groups: text holding a NUL has none. */
  lemma GroupsRejectNul(s: string)
    requires '\0' in s
    ensures ParseGroups(s).None?
  {
    match FindDoubleColon(s)
    case None =>
      if FieldValues(Split(s, ':')).Some? {
        HexTextHasNoNul(s);
      }
    case Some(k) =>
      var j :| 0 <= j < |s| && s[j] == '\0';
      if j < k {
        assert s[..k][j] == '\0';
        if FieldValues(FieldsOf(s[..k])).Some? {
          HexTextHasNoNul(s[..k]);
        }
      } else {
        assert s[k + 2..][j - k - 2] == '\0';
        if FieldValues(FieldsOf(s[k + 2..])).Some? {
          HexTextHasNoNul(s[k + 2..]);
        }
      }
  }

  /** The parsed text is the whole view: a NUL is no part of an address, so
      text holding one is refused. */
  lemma ParseRejectsNul(s: string)
    requires '\0' in s
    ensures Parse(s).Failure?
  {
    GroupsRejectNul(s);
  }

  /** The ip_address_v6(string_view) constructor as written: inet_pton is
      handed ip.data(), which it reads as a C string, so it sees the view's
      characters followed by whatever lies after the view in memory
      (`following`), up to the first NUL. */
  function ConstructAsWritten(view: string, following: string): Result<IpAddressV6, Exception>
  {
    Parse(CString(view + following))
  }

  /** A view of a whole std::string or string literal is followed by its
      terminating NUL, and then the constructor parses exactly the view. */
  lemma ConstructFromString(view: string, rest: string)
    requires '\0' !in view
    ensures ConstructAsWritten(view, "\0" + rest) == Parse(view)
  {
    assert view + ("\0" + rest) == view + "\0" + rest;
    CStringTerminated(view, rest);
  }

  /** A NUL inside the view ends the text: the characters after it are
      ignored, where the whole view would be refused. */
  lemma ConstructStopsAtNul(v: string, w: string, following: string)
    requires '\0' !in v
    ensures ConstructAsWritten(v + "\0" + w, following) == Parse(v)
    ensures Parse(v + "\0" + w).Failure?
  {
    assert v + "\0" + w + following == v + "\0" + (w + following);
    CStringTerminated(v, w + following);
    assert (v + "\0" + w)[|v|] == '\0';
    ParseRejectsNul(v + "\0" + w);
  }

  /** The view "::", cut from the text "::1", is the unspecified address, but
      the constructor reads on past its end and yields the loopback address. */
  lemma ConstructReadsPastView(view: string, following: string)
    requires view == "::" && following == "1\0"
    ensures Parse(view) == Success(Any())
    ensures ConstructAsWritten(view, following) == Success(Localhost())
    ensures Any() != Localhost()
  {
    assert view + following == "::1" + "\0" + "";
    CStringTerminated("::1", "");
    AnyParses();
    LocalhostParses();
  }
}
