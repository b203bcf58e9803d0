/// Socket addresses: the user-space `sockaddr_in` / `sockaddr_un` layouts,
/// their conversion to and from IPv4 endpoints, reading one from user
/// memory, and the `shutdown` direction codes.
module Sockets {
  import opened Common

  const AF_UNIX: nat := 1
  const AF_INET: nat := 2

  /// `sizeof(SockAddrIn)`: family, port, address and eight bytes of padding.
  const SOCKADDR_IN_LEN: nat := 16
  /// `sizeof(SockAddrUn)`: family and a 108-byte path.
  const SOCKADDR_UN_LEN: nat := 110
  const UN_PATH_LEN: nat := 108

  type U16 = x: nat | x <= U16_MAX
  type Bytes2 = s: seq<byte> | |s| == 2 witness [0, 0]
  type Bytes4 = s: seq<byte> | |s| == 4 witness [0, 0, 0, 0]
  type Bytes8 = s: seq<byte> | |s| == 8 witness [0, 0, 0, 0, 0, 0, 0, 0]
  type UnPath = s: seq<byte> | |s| == UN_PATH_LEN witness seq(108, i => 0)

  /// `SockAddrIn`: family, port and address in network byte order, padding.
  datatype SockAddrIn = SockAddrIn(family: U16, port: Bytes2, addr: Bytes4, zero: Bytes8)

  /// `SockAddrUn`: family and the fixed-size path buffer.
  datatype SockAddrUn = SockAddrUn(family: U16, path: UnPath)

  datatype SockAddr = In(sin: SockAddrIn) | Un(sun: SockAddrUn)

  // ---- shutdown ----

  datatype ShutdownHow = Read | Write | ReadWrite

  /// `ShutdownHow::try_from`: 0, 1 and 2, anything else is invalid.
  function ShutdownHowFrom(v: int): (r: Result<ShutdownHow>)
    ensures r.Ok? <==> 0 <= v <= 2
    ensures r.Err? ==> r.error == InvalidValue
  {
    if v == 0 then Ok(Read) else if v == 1 then Ok(Write) else if v == 2 then Ok(ReadWrite)
    else Err(InvalidValue)
  }

  /// The enum's representation.
  function ShutdownCode(h: ShutdownHow): int {
    match h
    case Read => 0
    case Write => 1
    case ReadWrite => 2
  }

  /// Decoding is the inverse of the representation.
  lemma ShutdownRoundTrip(h: ShutdownHow, v: int)
    ensures ShutdownHowFrom(ShutdownCode(h)) == Ok(h)
    ensures ShutdownHowFrom(v).Ok? ==> ShutdownCode(ShutdownHowFrom(v).value) == v
  {
  }

  // ---- IPv4 endpoints ----

  /// An IPv4 endpoint; the address is its four octets.
  datatype IpEndpoint = IpEndpoint(port: U16, addr: Bytes4)

  const UNSPECIFIED: Bytes4 := [0, 0, 0, 0]

  function FromBe16(b: Bytes2): (v: U16)
  {
    b[0] as int * 256 + b[1] as int
  }

  function ToBe16(v: U16): (b: Bytes2)
    ensures FromBe16(b) == v
  {
    [v / 256, v % 256]
  }

  lemma Be16RoundTrip(b: Bytes2)
    ensures ToBe16(FromBe16(b)) == b
  {
  }

  function FromBe32(b: Bytes4): nat {
    ((b[0] as int * 256 + b[1] as int) * 256 + b[2] as int) * 256 + b[3] as int
  }

  /// `IpEndpoint::try_from(SockAddr)`: the port from its big-endian bytes;
  /// an all-zero address is the unspecified address. A Unix address is
  /// invalid here.
  function ToEndpoint(sa: SockAddr): (r: Result<IpEndpoint>)
    ensures sa.Un? <==> r == Err(InvalidValue)
    ensures sa.In? ==> r.Ok? && r.value.port == FromBe16(sa.sin.port)
  {
    match sa
    case In(sin) =>
      Ok(IpEndpoint(FromBe16(sin.port), if FromBe32(sin.addr) == 0 then UNSPECIFIED else sin.addr))
    case Un(_) => Err(InvalidValue)
  }

  /// The unspecified address is just the all-zero octets, so the endpoint's
  /// address is always the sockaddr's four bytes.
  lemma EndpointAddress(sin: SockAddrIn)
    ensures ToEndpoint(In(sin)).value.addr == sin.addr
  {
    if FromBe32(sin.addr) == 0 {
      assert sin.addr == [0, 0, 0, 0];
    }
  }

  /// `SockAddr::from(IpEndpoint)`: family `AF_INET`, big-endian port, the
  /// octets, zeroed padding.
  function FromEndpoint(ep: IpEndpoint): (sa: SockAddr)
    ensures sa.In? && sa.sin.family == AF_INET && sa.sin.zero == [0, 0, 0, 0, 0, 0, 0, 0]
  {
    In(SockAddrIn(AF_INET, ToBe16(ep.port), ep.addr, [0, 0, 0, 0, 0, 0, 0, 0]))
  }

  /// An endpoint survives the trip through a sockaddr.
  lemma EndpointRoundTrip(ep: IpEndpoint)
    ensures ToEndpoint(FromEndpoint(ep)) == Ok(ep)
  {
    EndpointAddress(FromEndpoint(ep).sin);
  }

  /// A well-formed IPv4 sockaddr survives the trip through an endpoint.
  lemma SockAddrRoundTrip(sin: SockAddrIn)
    requires sin.family == AF_INET && sin.zero == [0, 0, 0, 0, 0, 0, 0, 0]
    ensures FromEndpoint(ToEndpoint(In(sin)).value) == In(sin)
  {
    EndpointAddress(sin);
    Be16RoundTrip(sin.port);
  }

  // ---- reading a sockaddr from user memory ----

  /// The family field as the little-endian machine stores it.
  function FromLe16(b: seq<byte>): (v: U16)
    requires |b| >= 2
  {
    b[0] as int + 256 * b[1] as int
  }

  function ToLe16(v: U16): (b: Bytes2)
    ensures FromLe16(b) == v
  {
    [v % 256, v / 256]
  }

  /// The user-memory image of an address.
  function Encode(sa: SockAddr): (b: seq<byte>)
    ensures sa.In? ==> |b| == SOCKADDR_IN_LEN
    ensures sa.Un? ==> |b| == SOCKADDR_UN_LEN
  {
    match sa
    case In(s) => ToLe16(s.family) + s.port + s.addr + s.zero
    case Un(s) => ToLe16(s.family) + s.path
  }

  function DecodeIn(b: seq<byte>): SockAddrIn
    requires |b| >= SOCKADDR_IN_LEN
  {
    SockAddrIn(FromLe16(b), b[2..4], b[4..8], b[8..16])
  }

  function DecodeUn(b: seq<byte>): SockAddrUn
    requires |b| >= SOCKADDR_UN_LEN
  {
    SockAddrUn(FromLe16(b), b[2..110])
  }

  /// `parse_sockaddr`: `user` is what can be read at the address (reading
  /// past it faults) and `len` the length the caller claims. The family is
  /// read first; each family then needs the whole structure.
  function ParseSockaddr(user: seq<byte>, len: nat): (r: Result<SockAddr>)
    ensures len < 2 ==> r == Err(InvalidValue)
    ensures len >= 2 && |user| < 2 ==> r == Err(Fault)
    ensures len >= 2 && |user| >= 2 ==>
      var family := FromLe16(user);
      && (family == AF_INET ==>
            r == if len < SOCKADDR_IN_LEN then Err(InvalidValue)
                 else if |user| < SOCKADDR_IN_LEN then Err(Fault)
                 else Ok(In(DecodeIn(user))))
      && (family == AF_UNIX ==>
            r == if len < SOCKADDR_UN_LEN then Err(InvalidValue)
                 else if |user| < SOCKADDR_UN_LEN then Err(Fault)
                 else Ok(Un(DecodeUn(user))))
      && (family != AF_INET && family != AF_UNIX ==> r == Err(AddressFamilyNotSupported))
  {
    if len < 2 then Err(InvalidValue)
    else if |user| < 2 then Err(Fault)
    else
      var family := FromLe16(user);
      if family == AF_INET then
        if len < SOCKADDR_IN_LEN then Err(InvalidValue)
        else if |user| < SOCKADDR_IN_LEN then Err(Fault)
        else Ok(In(DecodeIn(user)))
      else if family == AF_UNIX then
        if len < SOCKADDR_UN_LEN then Err(InvalidValue)
        else if |user| < SOCKADDR_UN_LEN then Err(Fault)
        else Ok(Un(DecodeUn(user)))
      else Err(AddressFamilyNotSupported)
  }

  /// An address whose family matches its layout is read back as written.
  lemma ParseEncoded(sa: SockAddr)
    requires sa.In? ==> sa.sin.family == AF_INET
    requires sa.Un? ==> sa.sun.family == AF_UNIX
    ensures ParseSockaddr(Encode(sa), |Encode(sa)|) == Ok(sa)
  {
    var b := Encode(sa);
    match sa
    case In(s) =>
      assert b[2..4] == s.port && b[4..8] == s.addr && b[8..16] == s.zero;
    case Un(s) =>
      assert b[2..110] == s.path;
  }
}
