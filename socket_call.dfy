/// The `socket` system call: which kind of socket a (domain, type,
/// protocol) triple makes once the creation flags are masked off.
module SocketCalls {
  import opened Common
  import Sockets

  const SOCK_STREAM: bv32 := 1
  const SOCK_DGRAM: bv32 := 2
  const SOCK_SEQPACKET: bv32 := 5
  const IPPROTO_TCP: int := 6

  const CLOSE_ON_EXEC: bv32 := 0x80000
  const NONBLOCK: bv32 := 0x800

  datatype SocketKind = Tcp | UnixStream | UnixDatagram | UnixSeqPacket

  /// The socket type with the creation flags cleared.
  function BaseType(ty: bv32): (t: bv32)
    ensures t & (CLOSE_ON_EXEC | NONBLOCK) == 0
    ensures t | (ty & (CLOSE_ON_EXEC | NONBLOCK)) == ty
  {
    ty & !(CLOSE_ON_EXEC | NONBLOCK)
  }

  /// `sys_socket` up to the new descriptor: a TCP socket for IPv4 streams
  /// with protocol 0 or TCP, a Unix socket of the matching type whatever
  /// the protocol, and no other combination.
  function SocketFor(domain: int, ty: bv32, protocol: int): (r: Result<SocketKind>)
    ensures r.Err? ==> r.error == AddressFamilyNotSupported
    ensures r == Ok(Tcp) <==>
      domain == Sockets.AF_INET && BaseType(ty) == SOCK_STREAM && (protocol == 0 || protocol == IPPROTO_TCP)
    ensures r == Ok(UnixStream) <==> domain == Sockets.AF_UNIX && BaseType(ty) == SOCK_STREAM
    ensures r == Ok(UnixDatagram) <==> domain == Sockets.AF_UNIX && BaseType(ty) == SOCK_DGRAM
    ensures r == Ok(UnixSeqPacket) <==> domain == Sockets.AF_UNIX && BaseType(ty) == SOCK_SEQPACKET
  {
    var t := BaseType(ty);
    if domain == Sockets.AF_INET && t == SOCK_STREAM && (protocol == 0 || protocol == IPPROTO_TCP) then Ok(Tcp)
    else if domain == Sockets.AF_UNIX && t == SOCK_STREAM then Ok(UnixStream)
    else if domain == Sockets.AF_UNIX && t == SOCK_DGRAM then Ok(UnixDatagram)
    else if domain == Sockets.AF_UNIX && t == SOCK_SEQPACKET then Ok(UnixSeqPacket)
    else Err(AddressFamilyNotSupported)
  }

  /// The close-on-exec and non-blocking flags never change which socket is
  /// made.
  lemma FlagsIgnored(domain: int, ty: bv32, protocol: int, flags: bv32)
    requires flags & !(CLOSE_ON_EXEC | NONBLOCK) == 0
    ensures SocketFor(domain, ty | flags, protocol) == SocketFor(domain, ty, protocol)
  {
    assert BaseType(ty | flags) == BaseType(ty);
  }
}
