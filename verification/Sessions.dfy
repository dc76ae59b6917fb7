/** The session index of pair_session_mgr (socks5udpf/src/pair_session_mgr.cpp): sessions found
    by client address and by server-side socket. */
module Sessions {

  const INVALID: int := -1    // INVALID_SOCKET

  datatype Addr = Addr(ip: seq<nat>, port: nat)

  /** What a session was created for and check_pair_session_info compares. */
  datatype Traits = Traits(icmp: bool, v6: bool, pwd: nat, listener: int, line: nat, icmpId: nat, double: bool)

  /** The fields of a client packet the index looks at. */
  datatype Packet = Packet(business: bool, portZero: bool, v6: bool, double: bool, pwd: nat, line: nat, echoId: nat)

  /** Passwords and their users: auth_info_s_. */
  type Users = map<nat, string>

  class PairSession {
    const clientAddr: Addr
    const traits: Traits
    const user: string
    var fd: int            // game_server_node_fd
    var lastTime: int      // last_transpond_time

    constructor (a: Addr, t: Traits, u: string, sock: int)
      ensures clientAddr == a && traits == t && user == u && fd == sock && lastTime == 0
    {
      clientAddr, traits, user, fd, lastTime := a, t, u, sock, 0;
    }
  }

  type ByAddr = map<Addr, PairSession>
  type ByFd = map<int, PairSession>

  /** Expired, or no longer known to the authentication data. */
  predicate Stale(s: PairSession, now: int, timeout: int, users: Users)
    reads s
  {
    now - s.lastTime >= timeout || s.traits.pwd !in users || users[s.traits.pwd] != s.user
  }

  /** What happens to the index. */
  datatype Event =
    | FromClient(a: Addr, p: Packet, listener: int, fd: int, bound: bool, now: int)
    | Closed(fd: int)
    | Traffic(fd: int, now: int)
    | Timeout(now: int, timeout: int)
    | Reload(users: Users)

  // ----- the index as plain data

  datatype Entry = Entry(traits: Traits, user: string, fd: int, lastTime: int)

  datatype Index = Index(sessions: map<Addr, Entry>, users: Users)

  /** A session fits a packet: it has its socket, and the packet comes through the listener it
      was created for with the same address family, password, line and doubling and, if it
      carries business data, the same protocol and, for ICMP, the same identifier. */
  predicate Fits(s: Entry, p: Packet, listener: int) {
    && s.fd != INVALID && s.traits.listener == listener
    && s.traits.v6 == p.v6 && s.traits.pwd == p.pwd && s.traits.line == p.line && s.traits.double == p.double
    && (p.business ==> s.traits.icmp == p.portZero)
    && (p.business && p.portZero ==> s.traits.icmpId == p.echoId)
  }

  /** A session is good at a time: it had traffic less than the timeout ago and its password
      still belongs to its user. */
  predicate Good(s: Entry, now: int, timeout: int, users: Users) {
    now - s.lastTime < timeout && s.traits.pwd in users && users[s.traits.pwd] == s.user
  }

  /** The session a packet creates. */
  function Created(p: Packet, listener: int, fd: int, user: string, now: int): Entry {
    var icmp := p.business && p.portZero;
    Entry(Traits(icmp, p.v6, p.pwd, listener, p.line, if icmp then p.echoId else 0, p.double), user, fd, now)
  }

  /** The index after an event. */
  function After(e: Event, x: Index): Index {
    match e
    case FromClient(a, p, listener, fd, bound, now) =>
      if a in x.sessions && Fits(x.sessions[a], p, listener) then
        x.(sessions := x.sessions[a := x.sessions[a].(lastTime := now)])
      else if p.pwd in x.users && fd != INVALID && bound then
        x.(sessions := x.sessions[a := Created(p, listener, fd, x.users[p.pwd], now)])
      else x.(sessions := x.sessions - {a})
    case Closed(fd) =>
      x.(sessions := map a | a in x.sessions :: if x.sessions[a].fd == fd then x.sessions[a].(fd := INVALID) else x.sessions[a])
    case Traffic(fd, now) =>
      x.(sessions := map a | a in x.sessions :: if x.sessions[a].fd == fd then x.sessions[a].(lastTime := now) else x.sessions[a])
    case Timeout(now, timeout) =>
      x.(sessions := map a | a in x.sessions && (x.sessions[a].fd == INVALID || Good(x.sessions[a], now, timeout, x.users)) :: x.sessions[a])
    case Reload(users) => x.(users := users)
  }

  function Play(x: Index, events: seq<Event>): Index {
    if events == [] then x else After(events[|events| - 1], Play(x, events[..|events| - 1]))
  }

  /** A business packet is served by the session there is exactly if that still has a socket and
      a new one would get the same traits; the ICMP identifier counts for ICMP only. */
  lemma ServedExactly(x: Index, a: Addr, p: Packet, listener: int, fd: int, bound: bool, now: int)
    requires a in x.sessions && p.business && (fd != INVALID ==> fd != x.sessions[a].fd)
    ensures
      var s, y := x.sessions[a], After(FromClient(a, p, listener, fd, bound, now), x);
      (a in y.sessions && y.sessions[a].fd == s.fd) <==>
        s.fd != INVALID && s.traits.(icmpId := if p.portZero then s.traits.icmpId else 0) ==
          Traits(p.portZero, p.v6, p.pwd, listener, p.line, if p.portZero then p.echoId else 0, p.double)
  {
  }

  /** A sweep keeps exactly the sessions without a socket and those that had traffic less than
      the timeout ago and whose password still belongs to their user. */
  lemma SweptExactly(x: Index, a: Addr, now: int, timeout: int)
    requires a in x.sessions
    ensures
      var s, y := x.sessions[a], After(Timeout(now, timeout), x);
      a in y.sessions <==>
        s.fd == -1 || (now < s.lastTime + timeout && s.traits.pwd in x.users && x.users[s.traits.pwd] == s.user)
    ensures forall b :: b in After(Timeout(now, timeout), x).sessions ==> b in x.sessions && After(Timeout(now, timeout), x).sessions[b] == x.sessions[b]
  {
  }

  /** A client that sends the same packet again keeps its session, whatever the system offers. */
  lemma SameAgain(x: Index, e: Event, f: Event)
    requires e.FromClient? && f.FromClient? && f.a == e.a && f.p == e.p && f.listener == e.listener
    requires e.a in After(e, x).sessions
    ensures Fits(After(e, x).sessions[e.a], e.p, e.listener)
    ensures After(f, After(e, x)) == After(e, x).(sessions := After(e, x).sessions[e.a := After(e, x).sessions[e.a].(lastTime := f.now)])
  {
  }

  /** A session that keeps good is kept by every run in which its client, if it sends, sends what
      fits, and its socket stays open. */
  ghost predicate Undisturbed(x: Index, events: seq<Event>, a: Addr) {
    forall i :: 0 <= i < |events| ==>
      var y := Play(x, events[..i]);
      match events[i]
      case FromClient(b, p, listener, fd, _, _) => b == a && a in y.sessions ==> Fits(y.sessions[a], p, listener)
      case Closed(fd) => a in y.sessions ==> y.sessions[a].fd != fd
      case Traffic(_, _) => true
      case Timeout(now, timeout) => a in y.sessions ==> Good(y.sessions[a], now, timeout, y.users)
      case Reload(_) => true
  }

  lemma {:induction false} UndisturbedStays(x: Index, events: seq<Event>, a: Addr)
    requires a in x.sessions && Undisturbed(x, events, a)
    ensures a in Play(x, events).sessions && Play(x, events).sessions[a].(lastTime := 0) == x.sessions[a].(lastTime := 0)
    decreases |events|
  {
    if events != [] {
      var n := |events| - 1;
      assert Undisturbed(x, events[..n], a) by {
        forall i | 0 <= i < n ensures events[..n][..i] == events[..i] && events[..n][i] == events[i] {}
      }
      UndisturbedStays(x, events[..n], a);
    }
  }

  /** The clients that sent something. */
  function Talked(events: seq<Event>): set<Addr> {
    set i | 0 <= i < |events| && events[i].FromClient? :: events[i].a
  }

  lemma TalkedSnoc(events: seq<Event>, n: nat)
    requires n < |events|
    ensures Talked(events[..n + 1]) == Talked(events[..n]) + if events[n].FromClient? then {events[n].a} else {}
  {
    var s, t := events[..n], events[..n + 1];
    assert t == s + [events[n]];
    assert forall i :: 0 <= i < n ==> s[i] == t[i];
  }

  lemma SameElsewhere(c: ByAddr, d: ByAddr, a: Addr)
    requires c - {a} == d - {a}
    ensures forall x :: x != a ==> (x in c <==> x in d) && (x in c ==> c[x] == d[x])
  {
    forall x | x != a ensures (x in c <==> x in d) && (x in c ==> c[x] == d[x]) {
      assert x in c - {a} <==> x in c;
      assert x in d - {a} <==> x in d;
      if x in c { assert c[x] == (c - {a})[x]; }
    }
  }

  lemma ClientIs(m: map<Addr, Entry>, x: Index, a: Addr, p: Packet, listener: int, fd: int, bound: bool, now: int)
    requires forall b :: b != a ==> (b in m <==> b in x.sessions) && (b in m ==> m[b] == x.sessions[b])
    requires var fits := a in x.sessions && Fits(x.sessions[a], p, listener);
      && (a in m <==> fits || (p.pwd in x.users && fd != INVALID && bound))
      && (fits ==> m[a] == x.sessions[a].(lastTime := now))
      && (a in m && !fits ==> m[a] == Created(p, listener, fd, x.users[p.pwd], now))
    ensures m == After(FromClient(a, p, listener, fd, bound, now), x).sessions
  {
  }

  lemma ClearedIs(m: map<Addr, Entry>, x: Index, now: int, timeout: int)
    requires forall a :: a in m <==> a in x.sessions && (x.sessions[a].fd == INVALID || Good(x.sessions[a], now, timeout, x.users))
    requires forall a :: a in m ==> m[a] == x.sessions[a]
    ensures m == After(Timeout(now, timeout), x).sessions
  {
  }

  class PairSessionMgr {
    var clients: ByAddr    // game_client_relation_s_
    var servers: ByFd      // game_server_relation_s_
    var users: Users

    /** The indexes agree: each is keyed by its sessions' own address and own socket, and the
        sessions in the client index with a valid socket are exactly those in the other. */
    ghost predicate Valid()
      reads this, clients.Values, servers.Values
    {
      && (forall a :: a in clients ==> clients[a].clientAddr == a)
      && (forall a :: a in clients && clients[a].fd != INVALID ==>
            clients[a].fd in servers && servers[clients[a].fd] == clients[a])
      && (forall f :: f in servers ==>
            && f != INVALID && servers[f].fd == f
            && servers[f].clientAddr in clients && clients[servers[f].clientAddr] == servers[f])
    }

    ghost function EntryOf(s: PairSession): Entry
      reads s
    {
      Entry(s.traits, s.user, s.fd, s.lastTime)
    }

    /** The index as plain data. */
    ghost function Now(): Index
      reads this, clients.Values
    {
      Index(map a | a in clients :: EntryOf(clients[a]), users)
    }

    constructor (u: Users)
      ensures Valid() && clients == map[] && servers == map[] && users == u
    {
      clients, servers, users := map[], map[], u;
    }

    /** handle_game_server_close: the session keeps its place in the client index, socketless. */
    method HandleGameServerClose(s: PairSession)
      requires Valid() && s.clientAddr in clients && clients[s.clientAddr] == s
      modifies this`servers, s`fd
      ensures Valid() && s.fd == INVALID
      ensures servers == old(servers) - {old(s.fd)}
    {
      if s.fd == INVALID {
        assert servers == servers - {INVALID};
        return;
      }
      var sock := s.fd;
      s.fd := INVALID;
      servers := servers - {sock};
    }

    /** check_pair_session_info */
    predicate Matches(s: PairSession, p: Packet, listener: int)
      reads s
    {
      var icmp := if p.business then p.portZero else s.traits.icmp;
      var icmpId := if p.business && icmp then p.echoId else s.traits.icmpId;
      s.fd != INVALID && s.traits == Traits(icmp, p.v6, p.pwd, listener, p.line, icmpId, p.double)
    }

    /** A socket the system may hand out for a client: none, one not in the index, or the very
        one just closed with the client's old session. */
    predicate Available(a: Addr, fd: int)
      reads this, clients.Values
    {
      fd == INVALID || fd !in servers || (a in clients && clients[a].fd == fd)
    }

    /** get_game_client_pair_seesion: the session of a client, if it still fits the packet;
        otherwise the old one is closed and dropped and a new one opened, with the socket the
        system provides.  Both indexes change together or not at all. */
    method GetGameClientPairSession(a: Addr, p: Packet, listener: int, fd: int, bound: bool) returns (s: PairSession?)
      requires Valid() && Available(a, fd)
      modifies this`clients, this`servers, if a in clients then {clients[a]} else {}
      ensures Valid()
      ensures s != null ==> s.fd != INVALID && a in clients && clients[a] == s && s.traits.pwd == p.pwd
      ensures s == null ==> a !in clients
      ensures clients - {a} == old(clients) - {a}
      ensures a in old(clients) && old(Fits(EntryOf(clients[a]), p, listener)) ==>
        s == old(clients[a]) && EntryOf(s) == old(EntryOf(clients[a])) && clients == old(clients) && servers == old(servers)
      ensures !(a in old(clients) && old(Fits(EntryOf(clients[a]), p, listener))) ==>
        (s == null <==> p.pwd !in users || fd == INVALID || !bound)
        && (s != null ==> fresh(s) && EntryOf(s) == Created(p, listener, fd, users[p.pwd], 0))
    {
      if a in clients {
        if Matches(clients[a], p, listener) { return clients[a]; }
        DropClient(a);
      }
      s := CreatePairSession(a, p, listener, fd, bound);
    }

    /** Close and forget the session of a client. */
    method DropClient(a: Addr)
      requires Valid() && a in clients
      modifies this`clients, this`servers, {clients[a]}
      ensures Valid() && clients == old(clients) - {a} && servers == old(servers) - {old(clients[a].fd)}
    {
      var s := clients[a];
      HandleGameServerClose(s);
      clients := clients - {a};
    }

    /** create_pair_session_and_init and create_game_server_socket: fails without a user, a
        socket or a successful bind and registration. */
    method CreatePairSession(a: Addr, p: Packet, listener: int, fd: int, bound: bool) returns (s: PairSession?)
      requires Valid() && a !in clients && (fd != INVALID ==> fd !in servers)
      modifies this`clients, this`servers
      ensures Valid()
      ensures s == null <==> p.pwd !in users || fd == INVALID || !bound
      ensures s == null ==> clients == old(clients) && servers == old(servers)
      ensures s != null ==>
        && fresh(s) && s.clientAddr == a && EntryOf(s) == Created(p, listener, fd, users[p.pwd], 0)
        && clients == old(clients)[a := s] && servers == old(servers)[fd := s]
    {
      if p.pwd !in users || fd == INVALID || !bound { return null; }
      var icmp := p.business && p.portZero;
      var t := Traits(icmp, p.v6, p.pwd, listener, p.line, if icmp then p.echoId else 0, p.double);
      s := new PairSession(a, t, users[p.pwd], fd);
      servers := servers[fd := s];
      clients := clients[a := s];
    }

    /** Traffic on a session: last_transpond_time. */
    method Touch(s: PairSession, now: int)
      requires Valid()
      modifies s`lastTime
      ensures Valid() && s.lastTime == now
    {
      s.lastTime := now;
    }

    // ----- the timeout sweeps

    /** Every session that has lost its socket is still in the client index, unless its client
        is among `talked`: neither traffic, time nor a change of users removes it. */
    twostate predicate Lingering(talked: set<Addr>)
      reads this, clients.Values
    {
      forall a :: a in old(clients) && old(clients[a].fd) == INVALID && a !in talked ==>
        a in clients && clients[a] == old(clients[a]) && clients[a].fd == INVALID
    }

    /** The sessions a sweep keeps: those without a socket and those not stale. */
    ghost function Survivors(now: int, timeout: int): ByAddr
      reads this, clients.Values
    {
      map a | a in clients && (clients[a].fd == INVALID || !Stale(clients[a], now, timeout, users)) :: clients[a]
    }

    /** clear_game_server_socket_4_timeout: every stale session leaves both indexes and loses
        its socket; nothing else changes. */
    method ClearServers(now: int, timeout: int)
      requires Valid()
      modifies this`clients, this`servers, clients.Values`fd
      ensures Valid()
      ensures clients == old(Survivors(now, timeout))
      ensures forall f :: f in servers ==>
        f in old(servers) && servers[f] == old(servers)[f] && !Stale(servers[f], now, timeout, users)
      ensures forall f :: f in old(servers) && f !in servers ==> old(servers)[f].fd == INVALID
      ensures forall a :: a in clients ==> clients[a] == old(clients[a]) && clients[a].fd == old(clients[a].fd)
    {
      SweepServers(now, timeout);
    }

    method SweepServers(now: int, timeout: int)
      requires Valid()
      modifies this`clients, this`servers, clients.Values`fd
      ensures Valid()
      ensures forall f :: f in servers <==> f in old(servers) && !old(Stale(servers[f], now, timeout, users))
      ensures forall f :: f in servers ==> servers[f] == old(servers)[f]
      ensures forall f :: f in old(servers) && f !in servers ==> old(servers)[f].fd == INVALID
      ensures forall a :: a in clients <==>
        a in old(clients) && (old(clients[a].fd) == INVALID || old(clients[a].fd) in servers)
      ensures forall a :: a in clients ==> clients[a] == old(clients[a]) && clients[a].fd == old(clients[a].fd)
    {
      ghost var first := servers;
      var todo: set<int> := servers.Keys;
      while exists f :: f in todo
        invariant Valid() && todo <= servers.Keys
        invariant forall f :: f in servers <==> f in first && (f in todo || !old(Stale(first[f], now, timeout, users)))
        invariant forall f :: f in servers ==> servers[f] == first[f]
        invariant forall f :: f in first && f !in servers ==> first[f].fd == INVALID
        invariant forall a :: a in clients <==>
          a in old(clients) && (old(clients[a].fd) == INVALID || old(clients[a].fd) in servers)
        invariant forall a :: a in clients ==> clients[a] == old(clients[a])
        decreases todo
      {
        var f :| f in todo;
        todo := todo - {f};
        assert old(clients)[servers[f].clientAddr] == servers[f];
        if Stale(servers[f], now, timeout, users) { Evict(servers[f]); }
      }
    }

    /** Erase a session from both indexes and close its socket. */
    method Evict(s: PairSession)
      requires Valid() && s.fd in servers && servers[s.fd] == s
      modifies this`clients, this`servers, s`fd
      ensures Valid() && servers == old(servers) - {old(s.fd)} && clients == old(clients) - {s.clientAddr}
      ensures s.fd == INVALID
    {
      clients := clients - {s.clientAddr};
      var sock := s.fd;
      s.fd := INVALID;
      servers := servers - {sock};
    }

    /** clear_game_client_socket_4_timeout: erase stale sessions that still have a socket. */
    method ClearClients(now: int, timeout: int)
      requires Valid()
      modifies this`clients
      ensures clients == old(Survivors(now, timeout))
    {
      var todo := clients.Keys;
      while todo != {}
        invariant todo <= clients.Keys
        invariant forall a :: a in clients <==>
          a in old(clients) && (a in todo || old(clients[a].fd) == INVALID || !old(Stale(clients[a], now, timeout, users)))
        invariant forall a :: a in clients ==> clients[a] == old(clients[a])
        decreases todo
      {
        var a :| a in todo;
        todo := todo - {a};
        if clients[a].fd != INVALID && Stale(clients[a], now, timeout, users) {
          clients := clients - {a};
        }
      }
    }

    /** clear_socket_4_timeout: after the first pass the second erases nothing, and every
        session with a socket is unexpired and authorised. */
    method ClearSocketTimeout(now: int, timeout: int)
      requires Valid()
      modifies this`clients, this`servers, clients.Values`fd
      ensures Valid()
      ensures clients == old(Survivors(now, timeout))
      ensures forall a :: a in clients ==> clients[a] == old(clients[a]) && clients[a].fd == old(clients[a].fd)
      ensures forall a :: a in clients && clients[a].fd != INVALID ==> !Stale(clients[a], now, timeout, users)
      ensures Lingering({})
    {
      ClearServers(now, timeout);
      ghost var first := clients;
      assert forall a :: a in clients && clients[a].fd != INVALID ==> clients[a].fd in old(servers);
      assert Survivors(now, timeout) == clients;
      ClearClients(now, timeout);
      assert clients == first;
    }

    // ----- whole runs

    /** Descriptors handed out by the system are unused when they are, and socket events name
        open sockets. */
    predicate Possible(e: Event)
      reads this, clients.Values
    {
      match e
      case FromClient(a, _, _, fd, _, _) => Available(a, fd)
      case Closed(fd) => fd in servers
      case Traffic(fd, _) => fd in servers
      case _ => true
    }

    /** The sessions of the index are old ones or new ones. */
    twostate predicate Kept()
      reads this
    {
      forall a :: a in clients ==> clients[a] in old(clients.Values) || fresh(clients[a])
    }

    /** handle_game_client_data: the client's session, if there is one or could be opened, had
        traffic now. */
    method HandleGameClientData(a: Addr, p: Packet, listener: int, fd: int, bound: bool, now: int)
      requires Valid() && Available(a, fd)
      modifies this`clients, this`servers, if a in clients then {clients[a]} else {}
      ensures Valid() && Kept() && Lingering({a})
      ensures Now() == After(FromClient(a, p, listener, fd, bound, now), old(Now()))
    {
      Serve(a, p, listener, fd, bound, now);
      ClientIs(Now().sessions, old(Now()), a, p, listener, fd, bound, now);
    }

    method Serve(a: Addr, p: Packet, listener: int, fd: int, bound: bool, now: int)
      requires Valid() && Available(a, fd)
      modifies this`clients, this`servers, if a in clients then {clients[a]} else {}
      ensures Valid()
      ensures forall x :: x != a ==> (x in clients <==> x in old(clients))
      ensures forall x :: x != a && x in clients ==> clients[x] == old(clients[x]) && EntryOf(clients[x]) == old(EntryOf(clients[x]))
      ensures a in clients ==> (a in old(clients) && clients[a] == old(clients[a])) || fresh(clients[a])
      ensures var fits := a in old(clients) && old(Fits(EntryOf(clients[a]), p, listener));
        && (a in clients <==> fits || (p.pwd in users && fd != INVALID && bound))
        && (fits ==> EntryOf(clients[a]) == old(EntryOf(clients[a])).(lastTime := now))
        && (a in clients && !fits ==> EntryOf(clients[a]) == Created(p, listener, fd, users[p.pwd], now))
    {
      var s := GetGameClientPairSession(a, p, listener, fd, bound);
      SameElsewhere(clients, old(clients), a);
      if s != null { Touch(s, now); }
    }

    method Clear(now: int, timeout: int)
      requires Valid()
      modifies this`clients, this`servers, clients.Values`fd
      ensures Valid() && Kept() && Lingering({})
      ensures Now() == After(Timeout(now, timeout), old(Now()))
    {
      ClearSocketTimeout(now, timeout);
      assert forall a :: a in clients ==> EntryOf(clients[a]) == old(EntryOf(clients[a]));
      ClearedIs(Now().sessions, old(Now()), now, timeout);
    }

    /** The socket of a session is closed. */
    method CloseSocket(fd: int)
      requires Valid() && fd in servers
      modifies this`servers, {servers[fd]}
      ensures Valid() && clients == old(clients) && Lingering({})
      ensures Now() == After(Closed(fd), old(Now()))
    {
      HandleGameServerClose(servers[fd]);
    }

    /** A session had traffic from its server. */
    method ServerTraffic(fd: int, now: int)
      requires Valid() && fd in servers
      modifies {servers[fd]}
      ensures Valid() && clients == old(clients) && Lingering({})
      ensures Now() == After(Traffic(fd, now), old(Now()))
    {
      Touch(servers[fd], now);
    }

    /** One event: the index after it is the one the plain data say, the two indexes agree, and a
        session without a socket stays until its client sends again. */
    method Step(e: Event)
      requires Valid() && Possible(e)
      modifies this, clients.Values
      ensures Valid() && Kept()
      ensures Lingering(if e.FromClient? then {e.a} else {})
      ensures Now() == After(e, old(Now()))
    {
      match e {
        case FromClient(a, p, listener, fd, bound, now) => HandleGameClientData(a, p, listener, fd, bound, now);
        case Closed(fd) => CloseSocket(fd);
        case Traffic(fd, now) => ServerTraffic(fd, now);
        case Timeout(now, timeout) => Clear(now, timeout);
        case Reload(u) => users := u;
      }
    }

    /** Whole runs: the events happen in order up to the first impossible one, and the indexes
        agree after each of them.  Sessions without a socket never time out. */
    method Run(events: seq<Event>) returns (n: nat)
      requires Valid()
      modifies this, clients.Values
      ensures Valid() && Kept() && n <= |events| && (n < |events| ==> !Possible(events[n]))
      ensures Lingering(Talked(events[..n]))
      ensures Now() == Play(old(Now()), events[..n])
    {
      n := 0;
      while n < |events| && Possible(events[n])
        invariant Valid() && Kept() && n <= |events|
        invariant Lingering(Talked(events[..n]))
        invariant Now() == Play(old(Now()), events[..n])
      {
        assert events[..n + 1][..n] == events[..n];
        Step(events[n]);
        TalkedSnoc(events, n);
        n := n + 1;
      }
    }
  }
}
