/** The daemon's server-side handlers: the port setter, and the attach and
    detach requests a client node sends to the server. The handlers work on
    the daemon's package state: the access code, the configured port, the
    address pool and the WireGuard backend (absent until a server is
    started). Each call is treated as running alone. */
module Daemon {
  import opened GoLib
  import opened AddressPool
  import opened WireGuardBackend

  const ConfAccessKey := "access"
  const ConfCIDRKey := "default.cidr"
  const ConfPortKey := "default.port"
  const ConfNetICKey := "default.nic"

  const MinPort := 10000
  const MaxPort := 20000

  /** The status part of every reply: code 0 and an empty message on
      success, code 1 and a message otherwise. */
  datatype Reply = Reply(code: int, msg: string)

  datatype AttachReply = AttachReply(status: Reply, assignedCidr: string, srvPublicKey: string, srvListenPort: string)

  datatype DetachReply = DetachReply(status: Reply, peerPublicKey: string)

  /** A handler either answers or panics (Go's runtime panic takes the
      daemon down). */
  datatype Handled<T> = Answered(reply: T) | Panicked

  /** What the outside world does while the daemon rewrites the tunnel
      configuration: whether writing the file fails, whether `ifconfig wg`
      finds a running interface, and the errors of wg-quick down and up. */
  datatype Tunnel = Tunnel(writeFails: bool, running: bool, downErr: Option<string>, upErr: Option<string>)

  /** The restart step goes through: the file is written, a running
      interface goes down, and the interface comes up. */
  predicate RestartSucceeds(t: Tunnel)
  {
    !t.writeFails && (t.running ==> t.downErr.None?) && t.upErr.None?
  }

  /** The message of the first restart step that fails: writing the
      file, taking the running interface down, or bringing it up. */
  function RestartError(t: Tunnel): string
  {
    if t.writeFails then "failed to generate conf file"
    else if t.running && t.downErr.Some? then "failed to down interface"
    else "failed to up interface"
  }

  /** utils.ReadString: the stored string, or "" when the key is not set. */
  function Setting(settings: map<string, string>, key: string): (v: string)
    ensures key in settings ==> v == settings[key]
    ensures key !in settings ==> v == ""
  {
    if key in settings then settings[key] else ""
  }

  /** The ports SetPort accepts: Atoi parses them to a value in
      [MinPort, MaxPort]. */
  predicate PortAccepted(config: string)
  {
    Atoi(config).Parsed? && MinPort <= Atoi(config).value <= MaxPort
  }

  /** SetPort accepts exactly an optional sign followed by decimal digits
      whose value lies in [10000, 20000]; so leading zeros and a '+' are
      accepted, spaces are not. */
  lemma PortAcceptedSpec(config: string)
    ensures PortAccepted(config) <==> IsDecimal(config) && MinPort <= DecimalValue(config) <= MaxPort
  {
    AtoiSpec(config);
  }

  /** dumpConfigAndRestartVirtualTap: render the backend's configuration,
      write it to confPath, take a running interface down and bring it up
      again. The first failure ends the step with its message. Config()
      is the backend's dumpConfig text, which cannot fail, so the "failed
      to generate config" error cannot be returned. */
  method DumpConfigAndRestart(be: WireGuard, confPath: string, t: Tunnel) returns (text: string, calls: seq<Command>, err: Option<string>)
    ensures PlaceholderFree(be.ifaceSec, be.peersSec) ==> text == DumpText(be.ifaceSec, be.peersSec)
    ensures err.None? <==> RestartSucceeds(t)
    ensures !RestartSucceeds(t) ==> err == Some(RestartError(t))
    ensures t.writeFails ==> calls == [] && err == Some("failed to generate conf file")
    ensures Down(confPath) in calls <==> !t.writeFails && t.running
    ensures Up(confPath) in calls <==> !t.writeFails && (t.running ==> t.downErr.None?)
    ensures Up(confPath) in calls ==> calls[|calls| - 1] == Up(confPath)
    ensures forall c :: c in calls ==> c == Down(confPath) || c == Up(confPath)
    ensures !t.writeFails && t.running && t.downErr.Some? ==> err == Some("failed to down interface")
    ensures Up(confPath) in calls ==> err == if t.upErr.Some? then Some("failed to up interface") else None
  {
    text := be.DumpConfig();
    calls := [];
    if t.writeFails {
      return text, calls, Some("failed to generate conf file");
    }
    if t.running {
      calls := calls + [Down(confPath)];
      if t.downErr.Some? {
        return text, calls, Some("failed to down interface");
      }
    }
    calls := calls + [Up(confPath)];
    if t.upErr.Some? {
      return text, calls, Some("failed to up interface");
    }
    err := None;
  }

  /** The peer record ServerAttach hands to AddPeer. */
  function AttachedPeer(peerKey: string, ip: string): (config: map<string, string>)
    ensures NewPeer(config) == Peer(peerKey, ip + "/32", "", "")
  {
    map["PublicKey" := peerKey, "AllowedIPs" := ip + "/32"]
  }

  /** The part of ServerAttach after an address was assigned: add the peer
      to the backend, write the configuration and restart the tunnel. */
  method AttachPeer(be: WireGuard, confPath: string, peerKey: string, ip: string, t: Tunnel) returns (reply: AttachReply)
    modifies be
    ensures be.peersSec == DecodePeers(old(be.storedPeers)) + [Peer(peerKey, ip + "/32", "", "")]
    ensures be.ifaceSec == DecodeIface(old(be.storedIface), old(be.ifaceSec)) && be.kp == old(be.kp)
    ensures be.storedIface == IfaceMap(be.ifaceSec) && be.storedPeers == PeerMaps(be.peersSec)
    ensures RestartSucceeds(t) ==> reply == AttachReply(Reply(0, ""), ip + "/24", be.kp.publicKey, be.ifaceSec.listenPort)
    ensures !RestartSucceeds(t) ==> reply == AttachReply(Reply(1, RestartError(t)), "", "", "")
    ensures old(be.Synced()) ==>
      be.Synced() && be.ifaceSec == old(be.ifaceSec) && be.peersSec == old(be.peersSec) + [Peer(peerKey, ip + "/32", "", "")]
  {
    var newPeer := AttachedPeer(peerKey, ip);
    // addPeer reports only store errors, which are not modelled, so
    // "failed to attach to client node" cannot be returned.
    be.AddPeer(newPeer);
    var _, _, err := DumpConfigAndRestart(be, confPath, t);
    if err.Some? {
      return AttachReply(Reply(1, err.value), "", "", "");
    }
    reply := AttachReply(Reply(0, ""), ip + "/24", be.kp.publicKey, be.ifaceSec.listenPort);
  }

  /** The daemon's package state. */
  class Daemon {
    var accessCode: string
    var tricarbCIDR: string
    var tricarbPort: string
    var tricarbNetIC: string
    var addrPool: Pool
    var be: WireGuard?
    var confPath: string
    /** The configuration store, as far as the daemon writes it. */
    var settings: map<string, string>

    /** init: an empty pool, no backend, the settings read from the store
        and a generated access code when none is stored. The random code
        and the path of wg.conf under $HOME are parameters. */
    constructor (settings: map<string, string>, generated: string, confPath: string)
      ensures this.settings == settings && this.confPath == confPath
      ensures accessCode == if Setting(settings, ConfAccessKey) == "" then generated else Setting(settings, ConfAccessKey)
      ensures tricarbCIDR == Setting(settings, ConfCIDRKey)
      ensures tricarbPort == Setting(settings, ConfPortKey)
      ensures tricarbNetIC == Setting(settings, ConfNetICKey)
      ensures addrPool == map[] && be == null
    {
      this.settings := settings;
      this.confPath := confPath;
      addrPool := map[];
      be := null;
      var stored := Setting(settings, ConfAccessKey);
      accessCode := if stored == "" then generated else stored;
      tricarbCIDR := Setting(settings, ConfCIDRKey);
      tricarbPort := Setting(settings, ConfPortKey);
      tricarbNetIC := Setting(settings, ConfNetICKey);
    }

    /** SetPort: a port that does not parse, or parses outside
        [10000, 20000], is refused with nothing changed; an accepted one is
        stored and becomes the daemon's port, as given. Only the parse
        failure also returns a gRPC error. */
    method SetPort(config: string) returns (reply: Reply, failed: bool)
      modifies this
      ensures !Atoi(config).Parsed? ==> reply == Reply(1, "failed to parse the given port") && failed
      ensures Atoi(config).Parsed? && !PortAccepted(config) ==>
        reply == Reply(1, "invalid range of the given port, 10000-20000") && !failed
      ensures PortAccepted(config) ==> reply == Reply(0, "") && !failed
      ensures PortAccepted(config) ==> tricarbPort == config && settings == old(settings)[ConfPortKey := config]
      ensures !PortAccepted(config) ==> tricarbPort == old(tricarbPort) && settings == old(settings)
      ensures accessCode == old(accessCode) && tricarbCIDR == old(tricarbCIDR) && tricarbNetIC == old(tricarbNetIC)
      ensures addrPool == old(addrPool) && be == old(be) && confPath == old(confPath)
    {
      var i := Atoi(config);
      if !i.Parsed? {
        return Reply(1, "failed to parse the given port"), true;
      }
      if i.value < MinPort || i.value > MaxPort {
        return Reply(1, "invalid range of the given port, 10000-20000"), false;
      }
      settings := settings[ConfPortKey := config];
      tricarbPort := config;
      reply, failed := Reply(0, ""), false;
    }

    /** ServerAttach: check the access code, then that a server runs, then
        allocate an address, add the peer with that address as a /32 and
        restart the tunnel. The pool keeps whatever the allocation did to
        it; a failed restart leaves the new peer in place. */
    method ServerAttach(code: string, peerKey: string, t: Tunnel) returns (r: Handled<AttachReply>)
      modifies this, be
      ensures accessCode == old(accessCode) && tricarbCIDR == old(tricarbCIDR) && tricarbPort == old(tricarbPort)
      ensures tricarbNetIC == old(tricarbNetIC) && be == old(be) && confPath == old(confPath) && settings == old(settings)
      ensures code != accessCode ==>
        r == Answered(AttachReply(Reply(1, "invalid access code"), "", "", "")) &&
        addrPool == old(addrPool) && (be != null ==> unchanged(be))
      ensures code == accessCode && be == null ==>
        r == Answered(AttachReply(Reply(1, "no server was started"), "", "", "")) && addrPool == old(addrPool)
      ensures code == accessCode && be != null ==>
        var a := Allocate(old(be.ifaceSec.address), old(be.peersSec), old(addrPool));
        addrPool == a.pool &&
        (a.outcome.AllocPanic? ==> r == Panicked && unchanged(be)) &&
        (a.outcome.AllocFailed? ==>
          r == Answered(AttachReply(Reply(1, "failed to get dynamic ip address"), "", "", "")) && unchanged(be)) &&
        (a.outcome.Assigned? ==>
          be.peersSec == DecodePeers(old(be.storedPeers)) + [Peer(peerKey, a.outcome.ip + "/32", "", "")] &&
          be.ifaceSec == DecodeIface(old(be.storedIface), old(be.ifaceSec)) && be.kp == old(be.kp) &&
          be.storedIface == IfaceMap(be.ifaceSec) && be.storedPeers == PeerMaps(be.peersSec) &&
          r.Answered? &&
          (RestartSucceeds(t) ==>
            r.reply == AttachReply(Reply(0, ""), a.outcome.ip + "/24", be.kp.publicKey, be.ifaceSec.listenPort)) &&
          (!RestartSucceeds(t) ==> r.reply == AttachReply(Reply(1, RestartError(t)), "", "", "")))
      ensures code == accessCode && be != null && old(be.Synced()) ==>
        var a := Allocate(old(be.ifaceSec.address), old(be.peersSec), old(addrPool));
        a.outcome.Assigned? ==>
          be.Synced() && be.ifaceSec == old(be.ifaceSec) &&
          be.peersSec == old(be.peersSec) + [Peer(peerKey, a.outcome.ip + "/32", "", "")]
    {
      if accessCode != code {
        return Answered(AttachReply(Reply(1, "invalid access code"), "", "", ""));
      }
      if be == null {
        return Answered(AttachReply(Reply(1, "no server was started"), "", "", ""));
      }
      var dynamicIp, pool := NewDynamicIpUnderCIDR(be.ifaceSec.address, be.peersSec, addrPool);
      addrPool := pool;
      match dynamicIp {
        case AllocPanic =>
          return Panicked;
        case AllocFailed =>
          return Answered(AttachReply(Reply(1, "failed to get dynamic ip address"), "", "", ""));
        case Assigned(ip) =>
          var reply := AttachPeer(be, confPath, peerKey, ip, t);
          r := Answered(reply);
      }
    }

    /** ServerDetach: check the access code, then that a server runs, then
        remove the first peer whose key contains peerKey and restart the
        tunnel. A failed restart leaves the peer removed. */
    method ServerDetach(code: string, peerKey: string, t: Tunnel) returns (reply: DetachReply)
      modifies be
      ensures code != accessCode ==>
        reply == DetachReply(Reply(1, "invalid access code"), "") && (be != null ==> unchanged(be))
      ensures code == accessCode && be == null ==> reply == DetachReply(Reply(1, "no server was started"), "")
      ensures code == accessCode && be != null ==>
        be.peersSec == RemoveFirst(DecodePeers(old(be.storedPeers)), peerKey) &&
        be.ifaceSec == DecodeIface(old(be.storedIface), old(be.ifaceSec)) && be.kp == old(be.kp) &&
        be.storedIface == IfaceMap(be.ifaceSec) && be.storedPeers == PeerMaps(be.peersSec) &&
        (RestartSucceeds(t) ==> reply == DetachReply(Reply(0, ""), be.kp.publicKey)) &&
        (!RestartSucceeds(t) ==> reply == DetachReply(Reply(1, RestartError(t)), ""))
      ensures code == accessCode && be != null && old(be.Synced()) ==>
        be.Synced() && be.ifaceSec == old(be.ifaceSec) && be.peersSec == RemoveFirst(old(be.peersSec), peerKey)
    {
      if accessCode != code {
        return DetachReply(Reply(1, "invalid access code"), "");
      }
      if be == null {
        return DetachReply(Reply(1, "no server was started"), "");
      }
      // delPeer reports only store errors, which are not modelled, so
      // "failed to detach client node" cannot be returned.
      be.DelPeer(peerKey);
      var _, _, err := DumpConfigAndRestart(be, confPath, t);
      if err.Some? {
        return DetachReply(Reply(1, err.value), "");
      }
      reply := DetachReply(Reply(0, ""), be.kp.publicKey);
    }
  }
}
