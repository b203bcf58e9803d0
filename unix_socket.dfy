/// Unix-domain sockets: a registry of bound paths, each with the inbox of
/// the socket bound there and, once it listens, a backlog of connections
/// waiting to be accepted.
module UnixSockets {
  import opened Common
  import Sockets
  import Process

  /// A socket's receive pipe; only its identity matters here.
  class Inbox {
    constructor()
    {
    }
  }

  datatype SocketType = Stream | Datagram | SeqPacket

  /// The part of `sun_path` before the first NUL; no path when that is
  /// empty.
  function PathOf(path: seq<byte>): (r: Option<seq<byte>>)
    ensures r.None? <==> |path| == 0 || path[0] == 0
    ensures r.Some? ==> r.value <= path && 0 !in r.value
    ensures r.Some? && |r.value| < |path| ==> path[|r.value|] == 0
  {
    var p := Process.BeforeNul(path);
    if p == [] then None else Some(p)
  }

  /// A prefix free of NULs that ends at a NUL or at the end is the part
  /// before the first NUL.
  lemma NulPrefix(path: seq<byte>, end: nat)
    requires end <= |path|
    requires forall k :: 0 <= k < end ==> path[k] != 0
    requires end < |path| ==> path[end] == 0
    ensures Process.BeforeNul(path) == path[..end]
  {
    var r := Process.BeforeNul(path);
    assert forall k :: 0 <= k < |r| ==> r[k] == path[k];
  }

  /// `path_bytes`: scans for the first NUL.
  method PathBytes(path: seq<byte>) returns (r: Option<seq<byte>>)
    ensures r == PathOf(path)
  {
    var end := |path|;
    var i := 0;
    while i < |path|
      invariant 0 <= i <= |path|
      invariant forall k :: 0 <= k < i ==> path[k] != 0
      decreases |path| - i
    {
      if path[i] == 0 {
        end := i;
        break;
      }
      i := i + 1;
    }
    NulPrefix(path, end);
    if end == 0 {
      r := None;
    } else {
      r := Some(path[..end]);
    }
  }

  /// The path an address names, if it is a Unix address with one.
  function AddrPath(addr: Sockets.SockAddr): Option<seq<byte>> {
    if addr.Un? then PathOf(addr.sun.path) else None
  }

  /// A registered path: the bound socket's inbox, whether it listens, the
  /// backlog limit, the connections not yet accepted (server-side sockets,
  /// newest last) and the number of tasks waiting in `accept`.
  datatype Endpoint = Endpoint(inbox: Inbox, listening: bool, backlogMax: nat, pending: seq<UnixSocket>, waiters: nat)

  /// The global registry of bound paths.
  class Registry {
    var endpoints: map<seq<byte>, Endpoint>

    constructor()
      ensures endpoints == map[]
    {
      endpoints := map[];
    }
  }

  datatype AcceptOutcome = Accepted(sock: UnixSocket) | Waiting

  /// What a data transfer does: nothing, a read of `count` bytes from an
  /// inbox, or a write of `count` bytes into one.
  datatype Transfer = Nothing | ReadFrom(pipe: Inbox, count: nat) | WriteInto(pipe: Inbox, count: nat)

  class UnixSocket {
    const kind: SocketType
    const inbox: Inbox
    var peerInbox: Option<Inbox>
    var localAddr: Option<Sockets.SockAddrUn>
    var connected: bool
    var listening: bool
    var backlog: nat
    var rdShutdown: bool
    var wrShutdown: bool

    /// A new socket: its own inbox, unbound, unconnected, not shut down.
    constructor(kind: SocketType)
      ensures this.kind == kind && fresh(inbox)
      ensures peerInbox == None && localAddr == None
      ensures !connected && !listening && backlog == 0 && !rdShutdown && !wrShutdown
    {
      this.kind := kind;
      inbox := new Inbox();
      peerInbox := None;
      localAddr := None;
      connected := false;
      listening := false;
      backlog := 0;
      rdShutdown := false;
      wrShutdown := false;
    }

    /// `bind`: registers a fresh, non-listening endpoint for a path not yet
    /// taken and records the address; any other address is invalid.
    method Bind(reg: Registry, addr: Sockets.SockAddr) returns (r: Result<()>)
      modifies this, reg
      ensures AddrPath(addr).None? || AddrPath(addr).value in old(reg.endpoints) ==>
        r == Err(InvalidValue) && unchanged(this, reg)
      ensures AddrPath(addr).Some? && AddrPath(addr).value !in old(reg.endpoints) ==>
        && r == Ok(())
        && reg.endpoints == old(reg.endpoints)[AddrPath(addr).value := Endpoint(inbox, false, 0, [], 0)]
        && localAddr == Some(addr.sun)
        && peerInbox == old(peerInbox) && connected == old(connected) && listening == old(listening)
        && backlog == old(backlog) && rdShutdown == old(rdShutdown) && wrShutdown == old(wrShutdown)
    {
      if !addr.Un? {
        return Err(InvalidValue);
      }
      var path := PathBytes(addr.sun.path);
      if path.None? || path.value in reg.endpoints {
        return Err(InvalidValue);
      }
      reg.endpoints := reg.endpoints[path.value := Endpoint(inbox, false, 0, [], 0)];
      localAddr := Some(addr.sun);
      r := Ok(());
    }

    /// `connect`: to a listening endpoint with room in its backlog, a new
    /// server-side stream socket is linked both ways with this one and
    /// queued for `accept` (and one waiting acceptor is woken); to a
    /// non-listening endpoint, this socket just sends into its inbox.
    method Connect(reg: Registry, addr: Sockets.SockAddr) returns (r: Result<()>, server: UnixSocket?)
      modifies this, reg
      ensures AddrPath(addr).None? || AddrPath(addr).value !in old(reg.endpoints) ==>
        r == Err(InvalidValue) && server == null && unchanged(this, reg)
      ensures AddrPath(addr).Some? && AddrPath(addr).value in old(reg.endpoints) ==>
        var p := AddrPath(addr).value;
        var ep := old(reg.endpoints)[p];
        && (ep.listening && |ep.pending| >= ep.backlogMax ==>
              r == Err(TryAgain) && server == null && unchanged(this, reg))
        && (ep.listening && |ep.pending| < ep.backlogMax ==>
              && r == Ok(()) && server != null && fresh(server) && fresh(server.inbox)
              && server.kind == Stream && server.peerInbox == Some(inbox) && server.connected
              && server.localAddr == None && !server.listening
              && peerInbox == Some(server.inbox) && connected
              && reg.endpoints == old(reg.endpoints)[p := ep.(pending := ep.pending + [server],
                                                            waiters := if ep.waiters > 0 then ep.waiters - 1 else 0)])
        && (!ep.listening ==>
              r == Ok(()) && server == null && peerInbox == Some(ep.inbox) && connected
              && reg.endpoints == old(reg.endpoints))
      ensures localAddr == old(localAddr) && listening == old(listening) && backlog == old(backlog)
      ensures rdShutdown == old(rdShutdown) && wrShutdown == old(wrShutdown)
    {
      server := null;
      if !addr.Un? {
        return Err(InvalidValue), null;
      }
      var path := PathBytes(addr.sun.path);
      if path.None? || path.value !in reg.endpoints {
        return Err(InvalidValue), null;
      }
      var ep := reg.endpoints[path.value];
      if ep.listening {
        if |ep.pending| >= ep.backlogMax {
          return Err(TryAgain), null;
        }
        var s := new UnixSocket(Stream);
        s.peerInbox := Some(inbox);
        s.connected := true;
        peerInbox := Some(s.inbox);
        connected := true;
        var waiters := if ep.waiters > 0 then ep.waiters - 1 else 0;
        reg.endpoints := reg.endpoints[path.value := ep.(pending := ep.pending + [s], waiters := waiters)];
        r, server := Ok(()), s;
      } else {
        peerInbox := Some(ep.inbox);
        connected := true;
        r := Ok(());
      }
    }

    /// The path this socket is bound to, if any.
    function BoundPath(): Option<seq<byte>>
      reads this
    {
      if localAddr.Some? then PathOf(localAddr.value.path) else None
    }

    /// `listen`: datagram sockets cannot; the backlog must not be negative
    /// and the socket must be bound to a registered path, which becomes
    /// listening with that backlog.
    method Listen(reg: Registry, backlog: int) returns (r: Result<()>)
      modifies this, reg
      ensures kind == Datagram ==> r == Err(NotSupported) && unchanged(this, reg)
      ensures kind != Datagram && backlog < 0 ==> r == Err(InvalidValue) && unchanged(this, reg)
      ensures kind != Datagram && backlog >= 0 && (BoundPath().None? || BoundPath().value !in old(reg.endpoints)) ==>
        r == Err(InvalidValue) && unchanged(this, reg)
      ensures kind != Datagram && backlog >= 0 && BoundPath().Some? && BoundPath().value in old(reg.endpoints) ==>
        var p := BoundPath().value;
        && r == Ok(())
        && reg.endpoints == old(reg.endpoints)[p := old(reg.endpoints)[p].(listening := true, backlogMax := backlog)]
        && listening && this.backlog == backlog
      ensures localAddr == old(localAddr) && peerInbox == old(peerInbox) && connected == old(connected)
      ensures rdShutdown == old(rdShutdown) && wrShutdown == old(wrShutdown)
    {
      if kind == Datagram {
        return Err(NotSupported);
      }
      if backlog < 0 {
        return Err(InvalidValue);
      }
      if localAddr.None? {
        return Err(InvalidValue);
      }
      var path := PathBytes(localAddr.value.path);
      if path.None? || path.value !in reg.endpoints {
        return Err(InvalidValue);
      }
      var ep := reg.endpoints[path.value];
      reg.endpoints := reg.endpoints[path.value := ep.(listening := true, backlogMax := backlog)];
      listening := true;
      this.backlog := backlog;
      r := Ok(());
    }

    /// `accept`: only on a listening socket bound to a registered path; it
    /// takes the most recently queued connection, or waits (and is counted
    /// among the waiters) when none is queued.
    method Accept(reg: Registry) returns (r: Result<AcceptOutcome>)
      modifies reg
      ensures !listening || BoundPath().None? || BoundPath().value !in old(reg.endpoints) ==>
        r == Err(InvalidValue) && unchanged(reg)
      ensures listening && BoundPath().Some? && BoundPath().value in old(reg.endpoints) ==>
        var p := BoundPath().value;
        var ep := old(reg.endpoints)[p];
        && (ep.pending != [] ==>
              r == Ok(Accepted(ep.pending[|ep.pending| - 1]))
              && reg.endpoints == old(reg.endpoints)[p := ep.(pending := ep.pending[..|ep.pending| - 1])])
        && (ep.pending == [] ==>
              r == Ok(Waiting) && reg.endpoints == old(reg.endpoints)[p := ep.(waiters := ep.waiters + 1)])
    {
      if !listening || localAddr.None? {
        return Err(InvalidValue);
      }
      var path := PathBytes(localAddr.value.path);
      if path.None? || path.value !in reg.endpoints {
        return Err(InvalidValue);
      }
      var ep := reg.endpoints[path.value];
      if |ep.pending| > 0 {
        var sock := ep.pending[|ep.pending| - 1];
        reg.endpoints := reg.endpoints[path.value := ep.(pending := ep.pending[..|ep.pending| - 1])];
        r := Ok(Accepted(sock));
      } else {
        reg.endpoints := reg.endpoints[path.value := ep.(waiters := ep.waiters + 1)];
        r := Ok(Waiting);
      }
    }

    /// `recv`: nothing for zero bytes or after a read shutdown; otherwise a
    /// read from this socket's own inbox.
    method Recv(count: nat) returns (r: Transfer)
      ensures count == 0 || rdShutdown ==> r == Nothing
      ensures count > 0 && !rdShutdown ==> r == ReadFrom(inbox, count)
    {
      if count == 0 || rdShutdown {
        return Nothing;
      }
      r := ReadFrom(inbox, count);
    }

    /// `send`: nothing for zero bytes; a broken pipe after a write
    /// shutdown; an unconnected stream or a socket with no peer is
    /// invalid; otherwise a write into the peer's inbox.
    method Send(count: nat) returns (r: Result<Transfer>)
      ensures count == 0 ==> r == Ok(Nothing)
      ensures count > 0 && wrShutdown ==> r == Err(BrokenPipe)
      ensures count > 0 && !wrShutdown && kind != Datagram && !connected ==> r == Err(InvalidValue)
      ensures count > 0 && !wrShutdown && (kind == Datagram || connected) ==>
        r == if peerInbox.None? then Err(InvalidValue) else Ok(WriteInto(peerInbox.value, count))
    {
      if count == 0 {
        return Ok(Nothing);
      }
      if wrShutdown {
        return Err(BrokenPipe);
      }
      if kind != Datagram && !connected {
        return Err(InvalidValue);
      }
      if peerInbox.None? {
        return Err(InvalidValue);
      }
      r := Ok(WriteInto(peerInbox.value, count));
    }

    /// `shutdown`: closes the reading side, the writing side or both.
    method Shutdown(how: Sockets.ShutdownHow)
      modifies this
      ensures rdShutdown == (old(rdShutdown) || how != Sockets.Write)
      ensures wrShutdown == (old(wrShutdown) || how != Sockets.Read)
      ensures peerInbox == old(peerInbox) && localAddr == old(localAddr) && connected == old(connected)
      ensures listening == old(listening) && backlog == old(backlog)
    {
      match how
      case Read => rdShutdown := true;
      case Write => wrShutdown := true;
      case ReadWrite =>
        rdShutdown := true;
        wrShutdown := true;
    }

    /// `Drop`: a bound socket takes its path out of the registry.
    method Drop(reg: Registry)
      modifies reg
      ensures BoundPath().None? ==> reg.endpoints == old(reg.endpoints)
      ensures BoundPath().Some? ==> reg.endpoints == old(reg.endpoints) - {BoundPath().value}
    {
      if localAddr.Some? {
        var path := PathBytes(localAddr.value.path);
        if path.Some? {
          reg.endpoints := reg.endpoints - {path.value};
        }
      }
    }
  }

  /// After a send shutdown a socket can still receive, and after a receive
  /// shutdown it reads nothing: the two directions are independent.
  method ShutdownWriteKeepsReading(s: UnixSocket, count: nat) returns (sent: Result<Transfer>, read: Transfer)
    requires count > 0 && !s.rdShutdown
    modifies s
    ensures sent == Err(BrokenPipe)
    ensures read == ReadFrom(s.inbox, count)
  {
    s.Shutdown(Sockets.Write);
    sent := s.Send(count);
    read := s.Recv(count);
  }

  /// A client connecting to a listening socket with room in its backlog
  /// and the server then accepting: the accepted socket and the client
  /// each write into the other's inbox.
  method ConnectThenAccept(reg: Registry, listener: UnixSocket, client: UnixSocket, sun: Sockets.SockAddrUn)
    returns (accepted: UnixSocket)
    requires listener != client
    requires listener.listening && listener.localAddr == Some(sun)
    requires PathOf(sun.path).Some? && PathOf(sun.path).value in reg.endpoints
    requires reg.endpoints[PathOf(sun.path).value].listening
    requires reg.endpoints[PathOf(sun.path).value].backlogMax > |reg.endpoints[PathOf(sun.path).value].pending|
    modifies reg, client
    ensures accepted.peerInbox == Some(client.inbox) && client.peerInbox == Some(accepted.inbox)
    ensures accepted.connected && client.connected
  {
    var r, server := client.Connect(reg, Sockets.Un(sun));
    var a := listener.Accept(reg);
    accepted := a.value.sock;
  }
}
