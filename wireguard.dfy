/** The WireGuard backend: the interface and peer records it keeps, the
    configuration store it saves them to and loads them from, and the text
    configuration it renders for wg-quick. */
module WireGuardBackend {
  import opened GoLib
  import opened Utils

  /** A key pair as the output of `wg genkey` and `wg pubkey`. */
  datatype KeyPair = KeyPair(privateKey: string, publicKey: string)

  /** The [Interface] section. */
  datatype Interface = Interface(listenPort: string, address: string, privateKey: string, localEth: string)

  /** One [Peer] section. */
  datatype Peer = Peer(publicKey: string, allowedIps: string, endPointIp: string, endPointPort: string)

  /** A Go map lookup: a missing key reads as "". */
  function Field(m: map<string, string>, k: string): string
  {
    if k in m then m[k] else ""
  }

  // ---------------------------------------------------------------------
  // portValidator

  /** portValidator: the input is accepted exactly when strconv.Atoi
      parses it. */
  predicate PortValidator(i: string)
  {
    Atoi(i).Parsed?
  }

  /** portValidator accepts exactly an optional sign followed by decimal
      digits whose value fits in a 64-bit int. */
  lemma PortValidatorSpec(i: string)
    ensures PortValidator(i) <==> IsDecimal(i) && MinInt64 <= DecimalValue(i) <= MaxInt64
  {
    AtoiSpec(i);
  }

  // ---------------------------------------------------------------------
  // The store: the maps saveConfig submits and loadConfig decodes

  /** The "wg.iface" entry saveConfig submits. */
  function IfaceMap(i: Interface): map<string, string>
  {
    map["ListenPort" := i.listenPort, "Address" := i.address, "PrivateKey" := i.privateKey, "LocalEth" := i.localEth]
  }

  /** The map saveConfig submits for one peer. */
  function PeerMap(p: Peer): map<string, string>
  {
    var m := map["PublicKey" := p.publicKey, "AllowedIPs" := p.allowedIps];
    if p.endPointIp != "" then m["EndPointIp" := p.endPointIp]["EndPointPort" := p.endPointPort] else m
  }

  /** The "wg.peers" entry saveConfig submits: one map per peer, in order. */
  function PeerMaps(peers: seq<Peer>): (r: seq<map<string, string>>)
    ensures |r| == |peers|
  {
    seq(|peers|, i requires 0 <= i < |peers| => PeerMap(peers[i]))
  }

  /** mapstructure decoding of the "wg.iface" entry into the current
      record: a field whose key is present takes the stored value, the
      others keep their value. */
  function DecodeIface(m: map<string, string>, cur: Interface): Interface
  {
    Interface(
      if "ListenPort" in m then m["ListenPort"] else cur.listenPort,
      if "Address" in m then m["Address"] else cur.address,
      if "PrivateKey" in m then m["PrivateKey"] else cur.privateKey,
      if "LocalEth" in m then m["LocalEth"] else cur.localEth)
  }

  /** mapstructure decoding of one stored peer map; a missing key leaves
      the field empty. */
  function DecodePeer(m: map<string, string>): Peer
  {
    Peer(Field(m, "PublicKey"), Field(m, "AllowedIPs"), Field(m, "EndPointIp"), Field(m, "EndPointPort"))
  }

  function DecodePeers(ms: seq<map<string, string>>): (r: seq<Peer>)
    ensures |r| == |ms|
  {
    seq(|ms|, i requires 0 <= i < |ms| => DecodePeer(ms[i]))
  }

  /** A peer as addPeer builds it: an endpoint port only with an endpoint
      address. */
  predicate WellFormed(p: Peer)
  {
    p.endPointIp == "" ==> p.endPointPort == ""
  }

  predicate AllWellFormed(peers: seq<Peer>)
  {
    forall i :: 0 <= i < |peers| ==> WellFormed(peers[i])
  }

  /** Each saved peer map always holds the public key and the allowed IPs,
      and holds the endpoint address and port exactly when the endpoint
      address is non-empty. */
  lemma SavedPeerKeys(p: Peer)
    ensures "PublicKey" in PeerMap(p) && PeerMap(p)["PublicKey"] == p.publicKey
    ensures "AllowedIPs" in PeerMap(p) && PeerMap(p)["AllowedIPs"] == p.allowedIps
    ensures "EndPointIp" in PeerMap(p) <==> p.endPointIp != ""
    ensures "EndPointPort" in PeerMap(p) <==> p.endPointIp != ""
    ensures PeerMap(p).Keys <= {"PublicKey", "AllowedIPs", "EndPointIp", "EndPointPort"}
  {
  }

  /** Loading what was saved gives back the interface record. */
  lemma IfaceRoundTrip(i: Interface, cur: Interface)
    ensures DecodeIface(IfaceMap(i), cur) == i
  {
  }

  /** Loading a saved peer gives it back exactly when it is well formed:
      an endpoint port without an endpoint address is not saved. */
  lemma PeerRoundTrip(p: Peer)
    ensures DecodePeer(PeerMap(p)) == p <==> WellFormed(p)
  {
  }

  /** Loading the saved peer list gives back a list of well-formed peers. */
  lemma PeersRoundTrip(peers: seq<Peer>)
    requires AllWellFormed(peers)
    ensures DecodePeers(PeerMaps(peers)) == peers
  {
    forall i | 0 <= i < |peers|
      ensures DecodePeers(PeerMaps(peers))[i] == peers[i]
    {
      PeerRoundTrip(peers[i]);
    }
  }

  // ---------------------------------------------------------------------
  // addPeer and delPeer on the peer list

  /** The peer addPeer builds from its config map. */
  function NewPeer(config: map<string, string>): Peer
  {
    var ip := Field(config, "EndPointIp");
    Peer(Field(config, "PublicKey"), Field(config, "AllowedIPs"), ip, if ip != "" then Field(config, "EndPointPort") else "")
  }

  /** delPeer on a list: the first peer whose public key contains hash is
      spliced out. */
  function RemoveFirst(peers: seq<Peer>, hash: string): seq<Peer>
  {
    if peers == [] then []
    else if Contains(peers[0].publicKey, hash) then peers[1..]
    else [peers[0]] + RemoveFirst(peers[1..], hash)
  }

  /** When peer i is the first whose public key contains hash, exactly that
      peer goes and the others keep their order. */
  lemma {:induction false} RemoveFirstAt(peers: seq<Peer>, hash: string, i: nat)
    requires i < |peers| && Contains(peers[i].publicKey, hash)
    requires forall j :: 0 <= j < i ==> !Contains(peers[j].publicKey, hash)
    ensures RemoveFirst(peers, hash) == peers[..i] + peers[i + 1..]
  {
    if i > 0 {
      RemoveFirstAt(peers[1..], hash, i - 1);
      assert peers[1..][..i - 1] + peers[1..][i..] == peers[1..i] + peers[i + 1..];
      assert peers[..i] == [peers[0]] + peers[1..i];
    }
  }

  /** When no public key contains hash the list is unchanged. */
  lemma {:induction false} RemoveFirstNone(peers: seq<Peer>, hash: string)
    requires forall j :: 0 <= j < |peers| ==> !Contains(peers[j].publicKey, hash)
    ensures RemoveFirst(peers, hash) == peers
  {
    if peers != [] {
      RemoveFirstNone(peers[1..], hash);
    }
  }

  /** The empty string is contained in every key: it removes the first
      peer. */
  lemma RemoveFirstEmptyHash(peers: seq<Peer>)
    requires peers != []
    ensures RemoveFirst(peers, "") == peers[1..]
  {
    ContainsEmpty(peers[0].publicKey);
  }

  /** A removal keeps well-formedness. */
  lemma {:induction false} RemoveFirstWellFormed(peers: seq<Peer>, hash: string)
    requires AllWellFormed(peers)
    ensures AllWellFormed(RemoveFirst(peers, hash))
  {
    if peers != [] && !Contains(peers[0].publicKey, hash) {
      RemoveFirstWellFormed(peers[1..], hash);
      var r := RemoveFirst(peers[1..], hash);
      assert forall i :: 0 <= i < |r| ==> ([peers[0]] + r)[i + 1] == r[i];
    }
  }

  // ---------------------------------------------------------------------
  // dumpConfig templates

  const PortKey := "RWTH_PORT"
  const CidrKey := "RWTH_CIDR"
  const PrivateKeyKey := "RWTH_PRV_KEY"
  const EthKey := "RWTH_ETH"
  const PublicKeyKey := "RWTH_PUB_KEY"
  const ServerIpKey := "RWTH_SERVER_IP"

  /** The iptables rules of the PostUp (op "-A") and PostDown (op "-D")
      lines, up to the name of the local interface. */
  function Rules(op: string): string
  {
    "iptables " + op + " FORWARD -i wg0 -j ACCEPT; " +
    "iptables " + op + " FORWARD -o wg0 -j ACCEPT; " +
    "iptables -t nat " + op + " POSTROUTING -o "
  }

  const PostUpHead := "\nPostUp   = " + Rules("-A")
  const PostDownHead := " -j MASQUERADE\nPostDown = " + Rules("-D")
  const Masquerade := " -j MASQUERADE\n\n"
  const KeepAlive := "\nPersistentKeepalive = 10\n"

  /** The four templates, written with their placeholders. */
  const ConfigServerInterface := "ListenPort = " + (PortKey + "\n")
  const ConfigServerPeer := "PublicKey = " + (PublicKeyKey + ("\nAllowedIPs = " + (CidrKey + "\n")))
  const ConfigClientInterface :=
    "Address = " + (CidrKey + ("\nPrivateKey = " + (PrivateKeyKey +
    (PostUpHead + (EthKey + (PostDownHead + (EthKey + Masquerade)))))))
  const ConfigClientPeer := "Endpoint = " + (ServerIpKey + (":" + (PortKey + KeepAlive)))

  /** The same templates cut into pieces. */
  const ServerInterfacePieces := Then(Text("ListenPort = "), Then(Hole(PortKey), Then(Text("\n"), End)))
  const ClientInterfacePieces :=
    Then(Text("Address = "), Then(Hole(CidrKey), Then(Text("\nPrivateKey = "), Then(Hole(PrivateKeyKey),
    Then(Text(PostUpHead), Then(Hole(EthKey), Then(Text(PostDownHead), Then(Hole(EthKey), Then(Text(Masquerade), End)))))))))
  const ServerPeerPieces :=
    Then(Text("PublicKey = "), Then(Hole(PublicKeyKey), Then(Text("\nAllowedIPs = "), Then(Hole(CidrKey), Then(Text("\n"), End)))))
  const ClientPeerPieces :=
    Then(Text("Endpoint = "), Then(Hole(ServerIpKey), Then(Text(":"), Then(Hole(PortKey), Then(Text(KeepAlive), End)))))

  /** The replacer dumpConfig builds for the interface. */
  function IfaceReplacer(i: Interface): map<string, string>
  {
    map[PortKey := i.listenPort, CidrKey := i.address, PrivateKeyKey := i.privateKey, EthKey := i.localEth]
  }

  /** The replacer dumpConfig builds for a peer. */
  function PeerReplacer(p: Peer): map<string, string>
  {
    map[PublicKeyKey := p.publicKey, CidrKey := p.allowedIps, ServerIpKey := p.endPointIp, PortKey := p.endPointPort]
  }

  /** No replacement value holds a key of its replacer. */
  predicate NoPlaceholder(rp: map<string, string>)
  {
    forall k, j :: k in rp && j in rp ==> !Contains(rp[j], k)
  }

  /** No value of the interface or of any peer holds a placeholder of its
      replacer. */
  predicate PlaceholderFree(i: Interface, peers: seq<Peer>)
  {
    NoPlaceholder(IfaceReplacer(i)) && forall k :: 0 <= k < |peers| ==> NoPlaceholder(PeerReplacer(peers[k]))
  }

  /** The ListenPort line, with the trimmed port. */
  function ServerInterfaceLines(i: Interface): string
  {
    "ListenPort = " + (TrimSpace(i.listenPort) + "\n")
  }

  /** The address and private key lines and the forwarding rules for the
      local interface, all trimmed. */
  function ClientInterfaceLines(i: Interface): string
  {
    "Address = " + (TrimSpace(i.address) + ("\nPrivateKey = " + (TrimSpace(i.privateKey) +
    (PostUpHead + (TrimSpace(i.localEth) + (PostDownHead + (TrimSpace(i.localEth) + Masquerade)))))))
  }

  /** The public key and allowed IPs lines of a peer. */
  function ServerPeerLines(p: Peer): string
  {
    "PublicKey = " + (TrimSpace(p.publicKey) + ("\nAllowedIPs = " + (TrimSpace(p.allowedIps) + "\n")))
  }

  /** The endpoint and keep-alive lines of a peer. */
  function ClientPeerLines(p: Peer): string
  {
    "Endpoint = " + (TrimSpace(p.endPointIp) + (":" + (TrimSpace(p.endPointPort) + KeepAlive)))
  }

  /** The [Interface] section dumpConfig renders: the ListenPort line only
      for a non-empty port, then the client lines. */
  function InterfaceSection(i: Interface): string
  {
    "[Interface]\n" + (if i.listenPort != "" then ServerInterfaceLines(i) else "") + ClientInterfaceLines(i)
  }

  /** The [Peer] section dumpConfig renders for one peer: the endpoint
      lines only for a non-empty endpoint address, then a blank line. */
  function PeerSection(p: Peer): string
  {
    "[Peer]\n" + ServerPeerLines(p) + (if p.endPointIp != "" then ClientPeerLines(p) else "") + "\n"
  }

  /** One section per peer, in list order. */
  function PeerSections(peers: seq<Peer>): string
  {
    if peers == [] then "" else PeerSections(peers[..|peers| - 1]) + PeerSection(peers[|peers| - 1])
  }

  /** The whole text dumpConfig writes. */
  function DumpText(i: Interface, peers: seq<Peer>): string
  {
    InterfaceSection(i) + PeerSections(peers)
  }

  /** The rendered text starts with the [Interface] header followed by the
      ListenPort line when the port is non-empty and by the Address line
      when it is empty. */
  lemma DumpTextShape(i: Interface, peers: seq<Peer>)
    ensures i.listenPort != "" ==> "[Interface]\n" + "ListenPort = " <= DumpText(i, peers)
    ensures i.listenPort == "" ==> "[Interface]\n" + "Address = " <= DumpText(i, peers)
  {
    var cl := ClientInterfaceLines(i);
    if i.listenPort != "" {
      PrefixThrough("[Interface]\n", "ListenPort = ", TrimSpace(i.listenPort) + "\n", cl, PeerSections(peers));
    } else {
      AddressFirst(i);
      PrefixAfter("[Interface]\n", "Address = ", cl, PeerSections(peers));
    }
  }

  lemma AddressFirst(i: Interface)
    ensures "Address = " <= ClientInterfaceLines(i)
  {
    var rest := TrimSpace(i.address) + ("\nPrivateKey = " + (TrimSpace(i.privateKey) +
      (PostUpHead + (TrimSpace(i.localEth) + (PostDownHead + (TrimSpace(i.localEth) + Masquerade))))));
    PrefixThrough("", "Address = ", rest, "", "");
  }

  lemma PrefixAfter(a: string, b: string, c: string, d: string)
    requires b <= c
    ensures a + b <= a + "" + c + d
  {
    assert (a + "" + c + d)[..|a + b|] == a + b;
  }

  lemma PrefixThrough(a: string, b: string, c: string, d: string, e: string)
    ensures a + b <= a + (b + c) + d + e
  {
    assert (a + (b + c) + d + e)[..|a + b|] == a + b;
  }

  /** Each peer section starts with the [Peer] header and the public key
      line and ends with a line break. */
  lemma PeerSectionShape(p: Peer)
    ensures "[Peer]\n" + "PublicKey = " <= PeerSection(p)
    ensures PeerSection(p)[|PeerSection(p)| - 1] == '\n'
  {
    PrefixThrough("[Peer]\n", "PublicKey = ", TrimSpace(p.publicKey) + ("\nAllowedIPs = " + (TrimSpace(p.allowedIps) + "\n")),
      if p.endPointIp != "" then ClientPeerLines(p) else "", "\n");
  }

  // ---- the templates are placeholder templates

  /** Stop characters: no key holds them, so no key can straddle a seam
      next to one. */
  predicate Stop(c: char)
  {
    c == ' ' || c == '\n' || c == ':'
  }

  predicate StopSeam(p: Piece, q: Piece)
  {
    (p.Text? && p.text != [] && Stop(p.text[|p.text| - 1])) || (q.Text? && q.text != [] && Stop(q.text[0]))
  }

  /** A key name: it has an underscore and no stop character. */
  predicate KeyName(key: string)
  {
    '_' in key && !(' ' in key) && !('\n' in key) && !(':' in key)
  }

  /** The literal text of the pieces has no underscore, every placeholder
      is a key of rp, and every seam has a stop character. */
  predicate Fits(ps: Pieces, rp: map<string, string>)
  {
    match ps
    case End => true
    case Then(p, rest) =>
      (if p.Text? then !('_' in p.text) else p.key in rp) &&
      (rest.Then? ==> StopSeam(p, rest.head)) &&
      Fits(rest, rp)
  }

  /** A template that fits is fit for order-free substitution by a
      replacer whose key names do not hold one another and whose values
      hold no key. */
  lemma TemplateOf(ps: Pieces, rp: map<string, string>)
    requires forall key :: key in rp ==> KeyName(key)
    requires forall k, key :: k in rp && key in rp && k != key ==> !Contains(k, key)
    requires NoPlaceholder(rp)
    requires Fits(ps, rp)
    ensures Template(ps, rp)
  {
    forall key | key in rp
      ensures key != "" && CleanFor(ps, rp, key)
    {
      CleanForOf(ps, rp, key);
    }
  }

  lemma {:induction false} CleanForOf(ps: Pieces, rp: map<string, string>, key: string)
    requires key in rp && KeyName(key)
    requires forall k :: k in rp && k != key ==> !Contains(k, key)
    requires NoPlaceholder(rp)
    requires Fits(ps, rp)
    ensures CleanFor(ps, rp, key)
  {
    match ps
    case End =>
    case Then(p, rest) =>
      CleanForOf(rest, rp, key);
      match p
      case Text(t) =>
        MissingCharNotContained(t, key, '_');
      case Hole(k) =>
        TrimSpaceKeepsAbsence(rp[k], key);
  }

  /** key has an underscore, no stop character, and an adjacent character
      pair at index j that x, y and z lack. */
  predicate TellsApart(key: string, j: nat, x: string, y: string, z: string)
  {
    KeyName(key) && j + 1 < |key| &&
    PairFree(x, key[j], key[j + 1]) && PairFree(y, key[j], key[j + 1]) && PairFree(z, key[j], key[j + 1])
  }

  /** The key names of a four-key replacer are told apart from one
      another. */
  predicate Apart(a: string, b: string, c: string, d: string, ja: nat, jb: nat, jc: nat, jd: nat)
  {
    TellsApart(a, ja, b, c, d) && TellsApart(b, jb, a, c, d) &&
    TellsApart(c, jc, a, b, d) && TellsApart(d, jd, a, b, c)
  }

  /** A template that fits a four-key replacer whose names are told apart
      and whose values hold no key is a placeholder template. */
  lemma FourKeysTemplate(ps: Pieces, rp: map<string, string>,
                         a: string, b: string, c: string, d: string, ja: nat, jb: nat, jc: nat, jd: nat)
    requires rp.Keys == {a, b, c, d} && Apart(a, b, c, d, ja, jb, jc, jd)
    requires NoPlaceholder(rp) && Fits(ps, rp)
    ensures Template(ps, rp)
  {
    forall k, key | k in rp && key in rp && k != key
      ensures !Contains(k, key)
    {
      if key == a {
        MissingPairNotContained(k, key, ja);
      } else if key == b {
        MissingPairNotContained(k, key, jb);
      } else if key == c {
        MissingPairNotContained(k, key, jc);
      } else {
        MissingPairNotContained(k, key, jd);
      }
    }
    TemplateOf(ps, rp);
  }

  // The placeholders are told apart by "PO", "CI", "RV", "_E", "UB" and
  // "SE": each pair occurs in its own key and in no other.

  lemma PortKeyApart()
    ensures TellsApart(PortKey, 5, CidrKey, PrivateKeyKey, EthKey)
    ensures TellsApart(PortKey, 5, PublicKeyKey, CidrKey, ServerIpKey)
  {
  }

  lemma CidrKeyApart()
    ensures TellsApart(CidrKey, 5, PortKey, PrivateKeyKey, EthKey)
    ensures TellsApart(CidrKey, 5, PublicKeyKey, ServerIpKey, PortKey)
  {
  }

  lemma PrivateKeyKeyApart()
    ensures TellsApart(PrivateKeyKey, 6, PortKey, CidrKey, EthKey)
  {
  }

  lemma EthKeyApart()
    ensures TellsApart(EthKey, 4, PortKey, CidrKey, PrivateKeyKey)
  {
  }

  lemma PublicKeyKeyApart()
    ensures TellsApart(PublicKeyKey, 6, CidrKey, ServerIpKey, PortKey)
  {
  }

  lemma ServerIpKeyApart()
    ensures TellsApart(ServerIpKey, 5, PublicKeyKey, CidrKey, PortKey)
  {
  }

  lemma IfaceKeysApart()
    ensures Apart(PortKey, CidrKey, PrivateKeyKey, EthKey, 5, 5, 6, 4)
  {
    PortKeyApart();
    CidrKeyApart();
    PrivateKeyKeyApart();
    EthKeyApart();
  }

  lemma PeerKeysApart()
    ensures Apart(PublicKeyKey, CidrKey, ServerIpKey, PortKey, 6, 5, 5, 5)
  {
    PublicKeyKeyApart();
    CidrKeyApart();
    ServerIpKeyApart();
    PortKeyApart();
  }

  // ---- the four templates, piece by piece

  lemma FillTH(a: string, k: string, rest: Pieces, rp: map<string, string>, d: set<string>)
    ensures Fill(Then(Text(a), Then(Hole(k), rest)), rp, d) == a + (PieceText(Hole(k), rp, d) + Fill(rest, rp, d))
  {
  }

  lemma FillT(a: string, rp: map<string, string>, d: set<string>)
    ensures Fill(Then(Text(a), End), rp, d) == a
  {
  }

  lemma FitsTH(a: string, k: string, rest: Pieces, rp: map<string, string>)
    requires !('_' in a) && a != [] && Stop(a[|a| - 1]) && k in rp
    requires rest.Then? && rest.head.Text? && rest.head.text != [] && Stop(rest.head.text[0]) && Fits(rest, rp)
    ensures Fits(Then(Text(a), Then(Hole(k), rest)), rp)
  {
  }

  lemma FitsT(a: string, rp: map<string, string>)
    requires !('_' in a)
    ensures Fits(Then(Text(a), End), rp)
  {
  }

  lemma ServerInterfaceFits(rp: map<string, string>)
    requires PortKey in rp
    ensures Fits(ServerInterfacePieces, rp)
  {
    var p1 := Then(Text("\n"), End);
    FitsT("\n", rp);
    FitsTH("ListenPort = ", PortKey, p1, rp);
  }

  lemma ServerInterfaceFill(rp: map<string, string>, d: set<string>)
    ensures Fill(ServerInterfacePieces, rp, d) == "ListenPort = " + (PieceText(Hole(PortKey), rp, d) + "\n")
  {
    var p1 := Then(Text("\n"), End);
    FillT("\n", rp, d);
    FillTH("ListenPort = ", PortKey, p1, rp, d);
  }

  /** A literal piece that fits between two placeholders: no underscore,
      and a stop character at both ends. */
  predicate Plain(t: string)
  {
    !('_' in t) && t != [] && Stop(t[0]) && Stop(t[|t| - 1])
  }

  lemma PostUpHeadPlain()
    ensures Plain(PostUpHead)
  {
  }

  lemma PostDownHeadPlain()
    ensures Plain(PostDownHead)
  {
  }

  lemma MasqueradePlain()
    ensures Plain(Masquerade)
  {
  }

  lemma ClientInterfaceFits(rp: map<string, string>)
    requires CidrKey in rp && PrivateKeyKey in rp && EthKey in rp
    ensures Fits(ClientInterfacePieces, rp)
  {
    var p4 := Then(Text(Masquerade), End);
    var p3 := Then(Text(PostDownHead), Then(Hole(EthKey), p4));
    var p2 := Then(Text(PostUpHead), Then(Hole(EthKey), p3));
    var p1 := Then(Text("\nPrivateKey = "), Then(Hole(PrivateKeyKey), p2));
    PostUpHeadPlain();
    PostDownHeadPlain();
    MasqueradePlain();
    FitsT(Masquerade, rp);
    FitsTH(PostDownHead, EthKey, p4, rp);
    FitsTH(PostUpHead, EthKey, p3, rp);
    FitsTH("\nPrivateKey = ", PrivateKeyKey, p2, rp);
    FitsTH("Address = ", CidrKey, p1, rp);
  }

  lemma ClientInterfaceFill(rp: map<string, string>, d: set<string>)
    ensures Fill(ClientInterfacePieces, rp, d) ==
      "Address = " + (PieceText(Hole(CidrKey), rp, d) + ("\nPrivateKey = " + (PieceText(Hole(PrivateKeyKey), rp, d) +
      (PostUpHead + (PieceText(Hole(EthKey), rp, d) + (PostDownHead + (PieceText(Hole(EthKey), rp, d) + Masquerade)))))))
  {
    var p4 := Then(Text(Masquerade), End);
    var p3 := Then(Text(PostDownHead), Then(Hole(EthKey), p4));
    var p2 := Then(Text(PostUpHead), Then(Hole(EthKey), p3));
    var p1 := Then(Text("\nPrivateKey = "), Then(Hole(PrivateKeyKey), p2));
    FillT(Masquerade, rp, d);
    FillTH(PostDownHead, EthKey, p4, rp, d);
    FillTH(PostUpHead, EthKey, p3, rp, d);
    FillTH("\nPrivateKey = ", PrivateKeyKey, p2, rp, d);
    FillTH("Address = ", CidrKey, p1, rp, d);
  }

  lemma ServerPeerFits(rp: map<string, string>)
    requires PublicKeyKey in rp && CidrKey in rp
    ensures Fits(ServerPeerPieces, rp)
  {
    var p2 := Then(Text("\n"), End);
    var p1 := Then(Text("\nAllowedIPs = "), Then(Hole(CidrKey), p2));
    FitsT("\n", rp);
    FitsTH("\nAllowedIPs = ", CidrKey, p2, rp);
    FitsTH("PublicKey = ", PublicKeyKey, p1, rp);
  }

  lemma ServerPeerFill(rp: map<string, string>, d: set<string>)
    ensures Fill(ServerPeerPieces, rp, d) ==
      "PublicKey = " + (PieceText(Hole(PublicKeyKey), rp, d) + ("\nAllowedIPs = " + (PieceText(Hole(CidrKey), rp, d) + "\n")))
  {
    var p2 := Then(Text("\n"), End);
    var p1 := Then(Text("\nAllowedIPs = "), Then(Hole(CidrKey), p2));
    FillT("\n", rp, d);
    FillTH("\nAllowedIPs = ", CidrKey, p2, rp, d);
    FillTH("PublicKey = ", PublicKeyKey, p1, rp, d);
  }

  lemma ClientPeerFits(rp: map<string, string>)
    requires ServerIpKey in rp && PortKey in rp
    ensures Fits(ClientPeerPieces, rp)
  {
    var p2 := Then(Text(KeepAlive), End);
    var p1 := Then(Text(":"), Then(Hole(PortKey), p2));
    FitsT(KeepAlive, rp);
    FitsTH(":", PortKey, p2, rp);
    FitsTH("Endpoint = ", ServerIpKey, p1, rp);
  }

  lemma ClientPeerFill(rp: map<string, string>, d: set<string>)
    ensures Fill(ClientPeerPieces, rp, d) ==
      "Endpoint = " + (PieceText(Hole(ServerIpKey), rp, d) + (":" + (PieceText(Hole(PortKey), rp, d) + KeepAlive)))
  {
    var p2 := Then(Text(KeepAlive), End);
    var p1 := Then(Text(":"), Then(Hole(PortKey), p2));
    FillT(KeepAlive, rp, d);
    FillTH(":", PortKey, p2, rp, d);
    FillTH("Endpoint = ", ServerIpKey, p1, rp, d);
  }

  /** The keys and values of the interface replacer. */
  lemma IfaceReplacerEntries(i: Interface)
    ensures IfaceReplacer(i).Keys == {PortKey, CidrKey, PrivateKeyKey, EthKey}
    ensures IfaceReplacer(i)[PortKey] == i.listenPort && IfaceReplacer(i)[CidrKey] == i.address
    ensures IfaceReplacer(i)[PrivateKeyKey] == i.privateKey && IfaceReplacer(i)[EthKey] == i.localEth
  {
  }

  /** The keys and values of the peer replacer. */
  lemma PeerReplacerEntries(p: Peer)
    ensures PeerReplacer(p).Keys == {PublicKeyKey, CidrKey, ServerIpKey, PortKey}
    ensures PeerReplacer(p)[PublicKeyKey] == p.publicKey && PeerReplacer(p)[CidrKey] == p.allowedIps
    ensures PeerReplacer(p)[ServerIpKey] == p.endPointIp && PeerReplacer(p)[PortKey] == p.endPointPort
  {
  }

  /** A placeholder reads as its key before the substitution and as the
      trimmed value after it. */
  lemma HoleText(k: string, rp: map<string, string>)
    requires k in rp
    ensures PieceText(Hole(k), rp, {}) == k && PieceText(Hole(k), rp, rp.Keys) == TrimSpace(rp[k])
  {
  }

  // ---- MakeText on the four templates

  /** dumpConfig's MakeText on the server-interface template renders the
      ListenPort line, whatever order the replacer is visited in, as long
      as no value holds a placeholder. */
  lemma ServerInterfaceRendered(i: Interface, text: string)
    requires NoPlaceholder(IfaceReplacer(i))
    requires exists order :: Enumerates(order, IfaceReplacer(i).Keys) && text == ReplaceInOrder(ConfigServerInterface, order, IfaceReplacer(i))
    ensures text == ServerInterfaceLines(i)
  {
    var rp := IfaceReplacer(i);
    var order :| Enumerates(order, rp.Keys) && text == ReplaceInOrder(ConfigServerInterface, order, rp);
    IfaceReplacerEntries(i);
    HoleText(PortKey, rp);
    ServerInterfaceFits(rp);
    IfaceKeysApart();
    FourKeysTemplate(ServerInterfacePieces, rp, PortKey, CidrKey, PrivateKeyKey, EthKey, 5, 5, 6, 4);
    ServerInterfaceFill(rp, {});
    ServerInterfaceFill(rp, rp.Keys);
    MakeTextTemplate(ServerInterfacePieces, rp, order);
  }

  /** MakeText on the client-interface template renders the address, the
      private key and the forwarding rules. */
  lemma ClientInterfaceRendered(i: Interface, text: string)
    requires NoPlaceholder(IfaceReplacer(i))
    requires exists order :: Enumerates(order, IfaceReplacer(i).Keys) && text == ReplaceInOrder(ConfigClientInterface, order, IfaceReplacer(i))
    ensures text == ClientInterfaceLines(i)
  {
    var rp := IfaceReplacer(i);
    var order :| Enumerates(order, rp.Keys) && text == ReplaceInOrder(ConfigClientInterface, order, rp);
    IfaceReplacerEntries(i);
    HoleText(CidrKey, rp);
    HoleText(PrivateKeyKey, rp);
    HoleText(EthKey, rp);
    ClientInterfaceFits(rp);
    IfaceKeysApart();
    FourKeysTemplate(ClientInterfacePieces, rp, PortKey, CidrKey, PrivateKeyKey, EthKey, 5, 5, 6, 4);
    ClientInterfaceFill(rp, {});
    ClientInterfaceFill(rp, rp.Keys);
    MakeTextTemplate(ClientInterfacePieces, rp, order);
  }

  /** MakeText on the server-peer template renders the public key and the
      allowed IPs lines. */
  lemma ServerPeerRendered(p: Peer, text: string)
    requires NoPlaceholder(PeerReplacer(p))
    requires exists order :: Enumerates(order, PeerReplacer(p).Keys) && text == ReplaceInOrder(ConfigServerPeer, order, PeerReplacer(p))
    ensures text == ServerPeerLines(p)
  {
    var rp := PeerReplacer(p);
    var order :| Enumerates(order, rp.Keys) && text == ReplaceInOrder(ConfigServerPeer, order, rp);
    PeerReplacerEntries(p);
    HoleText(PublicKeyKey, rp);
    HoleText(CidrKey, rp);
    ServerPeerFits(rp);
    PeerKeysApart();
    FourKeysTemplate(ServerPeerPieces, rp, PublicKeyKey, CidrKey, ServerIpKey, PortKey, 6, 5, 5, 5);
    ServerPeerFill(rp, {});
    ServerPeerFill(rp, rp.Keys);
    MakeTextTemplate(ServerPeerPieces, rp, order);
  }

  /** MakeText on the client-peer template renders the endpoint and the
      keep-alive lines. */
  lemma ClientPeerRendered(p: Peer, text: string)
    requires NoPlaceholder(PeerReplacer(p))
    requires exists order :: Enumerates(order, PeerReplacer(p).Keys) && text == ReplaceInOrder(ConfigClientPeer, order, PeerReplacer(p))
    ensures text == ClientPeerLines(p)
  {
    var rp := PeerReplacer(p);
    var order :| Enumerates(order, rp.Keys) && text == ReplaceInOrder(ConfigClientPeer, order, rp);
    PeerReplacerEntries(p);
    HoleText(ServerIpKey, rp);
    HoleText(PortKey, rp);
    ClientPeerFits(rp);
    PeerKeysApart();
    FourKeysTemplate(ClientPeerPieces, rp, PublicKeyKey, CidrKey, ServerIpKey, PortKey, 6, 5, 5, 5);
    ClientPeerFill(rp, {});
    ClientPeerFill(rp, rp.Keys);
    MakeTextTemplate(ClientPeerPieces, rp, order);
  }

  // ---------------------------------------------------------------------
  // The backend object

  /** What `wg genkey` and `wg pubkey` deliver: genkey fails; or pubkey
      fails after genkey, with whatever output it produced; or both
      succeed. Keys are the raw command outputs. */
  datatype KeyGen =
    | GenKeyFailed(msg: string)
    | PubKeyFailed(privateKey: string, output: string, msg: string)
    | KeysMade(privateKey: string, publicKey: string)

  /** A wg-quick invocation. */
  datatype Command = Down(iface: string) | Up(iface: string)

  /** The record of the interface newInterface builds from its config map
      and the raw private key. */
  function NewIface(config: map<string, string>, privateKey: string): Interface
  {
    Interface(Field(config, "ListenPort"), Field(config, "Address"), TrimSpace(privateKey), Field(config, "LocalEth"))
  }

  /** addPeer's peer is well formed, so it survives a save and a load. */
  lemma NewPeerWellFormed(config: map<string, string>)
    ensures WellFormed(NewPeer(config))
    ensures DecodePeer(PeerMap(NewPeer(config))) == NewPeer(config)
  {
    PeerRoundTrip(NewPeer(config));
  }

  /** The [Interface] part of dumpConfig: the ListenPort line only for a
      server interface, then the address, key and forwarding rules. */
  method InterfaceConfig(i: Interface) returns (text: string)
    ensures NoPlaceholder(IfaceReplacer(i)) ==> text == InterfaceSection(i)
  {
    ghost var free := NoPlaceholder(IfaceReplacer(i));
    var rp := IfaceReplacer(i);
    // MakeText never reports an error, so the error returns of the
    // source cannot be taken.
    var server := "";
    if i.listenPort != "" {
      var err;
      server, err := MakeText(ConfigServerInterface, rp);
      if free {
        ServerInterfaceRendered(i, server);
      }
    }
    var client, _ := MakeText(ConfigClientInterface, rp);
    if free {
      ClientInterfaceRendered(i, client);
    }
    text := "[Interface]\n" + server + client;
  }

  /** One [Peer] part of dumpConfig: the key and allowed IPs, then the
      endpoint and keep-alive only for a peer with an endpoint address. */
  method PeerConfig(p: Peer) returns (text: string)
    ensures NoPlaceholder(PeerReplacer(p)) ==> text == PeerSection(p)
  {
    ghost var free := NoPlaceholder(PeerReplacer(p));
    var rp := PeerReplacer(p);
    var server, _ := MakeText(ConfigServerPeer, rp);
    var client := "";
    if p.endPointIp != "" {
      var err;
      client, err := MakeText(ConfigClientPeer, rp);
      if free {
        ClientPeerRendered(p, client);
      }
    }
    if free {
      ServerPeerRendered(p, server);
    }
    text := "[Peer]\n" + server + client + "\n";
  }

  lemma SectionsStep(head: string, peers: seq<Peer>, i: nat)
    requires i < |peers|
    ensures head + PeerSections(peers[..i]) + PeerSection(peers[i]) == head + PeerSections(peers[..i + 1])
  {
    assert peers[..i + 1][..i] == peers[..i];
    assert head + (PeerSections(peers[..i]) + PeerSection(peers[i])) == head + PeerSections(peers[..i]) + PeerSection(peers[i]);
  }

  /** The WireGuard backend: its key pair, interface record and peer list,
      together with the "wg.iface" and "wg.peers" entries of the
      configuration store it loads from and saves to. */
  class WireGuard {
    var kp: KeyPair
    var ifaceSec: Interface
    var peersSec: seq<Peer>
    var storedIface: map<string, string>
    var storedPeers: seq<map<string, string>>

    /** A backend with empty records over the given store. */
    constructor (iface: map<string, string>, peers: seq<map<string, string>>)
      ensures kp == KeyPair("", "") && ifaceSec == Interface("", "", "", "") && peersSec == []
      ensures storedIface == iface && storedPeers == peers
    {
      kp := KeyPair("", "");
      ifaceSec := Interface("", "", "", "");
      peersSec := [];
      storedIface := iface;
      storedPeers := peers;
    }

    /** The store holds what saveConfig writes for the records, and the
        peers are well formed. */
    predicate Synced()
      reads this
    {
      storedIface == IfaceMap(ifaceSec) && storedPeers == PeerMaps(peersSec) && AllWellFormed(peersSec)
    }

    /** loadConfig: decode the stored entries into the records. On a store
        in step with the records this changes nothing. */
    method LoadConfig()
      modifies this
      ensures ifaceSec == DecodeIface(old(storedIface), old(ifaceSec))
      ensures peersSec == DecodePeers(old(storedPeers))
      ensures kp == old(kp) && storedIface == old(storedIface) && storedPeers == old(storedPeers)
      ensures old(Synced()) ==> Synced() && ifaceSec == old(ifaceSec) && peersSec == old(peersSec)
    {
      ghost var wasSynced := Synced();
      ifaceSec := DecodeIface(storedIface, ifaceSec);
      if wasSynced {
        IfaceRoundTrip(old(ifaceSec), old(ifaceSec));
        PeersRoundTrip(peersSec);
      }
      peersSec := DecodePeers(storedPeers);
    }

    /** saveConfig: write the interface map and one map per peer, in list
        order. Saving well-formed peers brings the store in step. */
    method SaveConfig()
      modifies this
      ensures storedIface == IfaceMap(ifaceSec) && storedPeers == PeerMaps(peersSec)
      ensures kp == old(kp) && ifaceSec == old(ifaceSec) && peersSec == old(peersSec)
      ensures AllWellFormed(peersSec) ==> Synced()
    {
      storedIface := map["ListenPort" := ifaceSec.listenPort, "Address" := ifaceSec.address,
                         "PrivateKey" := ifaceSec.privateKey, "LocalEth" := ifaceSec.localEth];
      var peers: seq<map<string, string>> := [];
      var i := 0;
      while i < |peersSec|
        invariant 0 <= i <= |peersSec|
        invariant |peers| == i
        invariant forall j :: 0 <= j < i ==> peers[j] == PeerMap(peersSec[j])
      {
        var p := peersSec[i];
        var peer := map["PublicKey" := p.publicKey, "AllowedIPs" := p.allowedIps];
        if p.endPointIp != "" {
          peer := peer["EndPointIp" := p.endPointIp]["EndPointPort" := p.endPointPort];
        }
        peers := peers + [peer];
        i := i + 1;
      }
      storedPeers := peers;
    }

    /** newKeyPair: the private key is kept as soon as genkey succeeds, the
        public key (or pubkey's partial output) after pubkey ran. */
    method NewKeyPair(gen: KeyGen) returns (err: Option<string>)
      modifies this
      ensures gen.GenKeyFailed? ==> kp == old(kp) && err == Some(gen.msg)
      ensures gen.PubKeyFailed? ==> kp == KeyPair(gen.privateKey, gen.output) && err == Some(gen.msg)
      ensures gen.KeysMade? ==> kp == KeyPair(gen.privateKey, gen.publicKey) && err == None
      ensures ifaceSec == old(ifaceSec) && peersSec == old(peersSec)
      ensures storedIface == old(storedIface) && storedPeers == old(storedPeers)
    {
      match gen
      case GenKeyFailed(msg) =>
        return Some(msg);
      case PubKeyFailed(privateKey, output, msg) =>
        kp := KeyPair(privateKey, output);
        return Some(msg);
      case KeysMade(privateKey, publicKey) =>
        kp := KeyPair(privateKey, publicKey);
        return None;
    }

    /** newInterface: load, make a key pair, replace the interface record
        wholesale and save; the peers are those loaded. A key-generation
        failure returns before anything is saved. */
    method NewInterface(config: map<string, string>, gen: KeyGen) returns (err: Option<string>)
      modifies this
      ensures peersSec == DecodePeers(old(storedPeers))
      ensures err.None? <==> gen.KeysMade?
      ensures gen.GenKeyFailed? ==> kp == old(kp) && err == Some(gen.msg)
      ensures gen.PubKeyFailed? ==> kp == KeyPair(gen.privateKey, gen.output) && err == Some(gen.msg)
      ensures gen.KeysMade? ==>
        ifaceSec == NewIface(config, gen.privateKey) && kp == KeyPair(gen.privateKey, gen.publicKey) &&
        storedIface == IfaceMap(ifaceSec) && storedPeers == PeerMaps(peersSec)
      ensures !gen.KeysMade? ==>
        ifaceSec == DecodeIface(old(storedIface), old(ifaceSec)) &&
        storedIface == old(storedIface) && storedPeers == old(storedPeers)
      ensures old(Synced()) ==> Synced() && peersSec == old(peersSec)
    {
      LoadConfig();
      err := NewKeyPair(gen);
      if err.Some? {
        return;
      }
      ifaceSec := Interface(Field(config, "ListenPort"), Field(config, "Address"), TrimSpace(kp.privateKey), Field(config, "LocalEth"));
      SaveConfig();
    }

    /** addPeer: load, append the new peer and save. Every loaded peer
        keeps its place. */
    method AddPeer(config: map<string, string>)
      modifies this
      ensures peersSec == DecodePeers(old(storedPeers)) + [NewPeer(config)]
      ensures ifaceSec == DecodeIface(old(storedIface), old(ifaceSec)) && kp == old(kp)
      ensures storedIface == IfaceMap(ifaceSec) && storedPeers == PeerMaps(peersSec)
      ensures old(Synced()) ==> Synced() && peersSec == old(peersSec) + [NewPeer(config)] && ifaceSec == old(ifaceSec)
    {
      LoadConfig();
      var ip := Field(config, "EndPointIp");
      var newPeer := Peer(Field(config, "PublicKey"), Field(config, "AllowedIPs"), "", "");
      if ip != "" {
        newPeer := newPeer.(endPointIp := ip, endPointPort := Field(config, "EndPointPort"));
      }
      ghost var loaded := peersSec;
      peersSec := peersSec + [newPeer];
      NewPeerWellFormed(config);
      assert AllWellFormed(loaded) ==> AllWellFormed(peersSec) by {
        if AllWellFormed(loaded) {
          forall j | 0 <= j < |peersSec|
            ensures WellFormed(peersSec[j])
          {
            if j < |loaded| {
              assert peersSec[j] == loaded[j];
            }
          }
        }
      }
      SaveConfig();
    }

    /** delPeer: load, splice out the first peer whose public key contains
        hash, and save. */
    method DelPeer(hash: string)
      modifies this
      ensures peersSec == RemoveFirst(DecodePeers(old(storedPeers)), hash)
      ensures ifaceSec == DecodeIface(old(storedIface), old(ifaceSec)) && kp == old(kp)
      ensures storedIface == IfaceMap(ifaceSec) && storedPeers == PeerMaps(peersSec)
      ensures old(Synced()) ==> Synced() && peersSec == RemoveFirst(old(peersSec), hash) && ifaceSec == old(ifaceSec)
    {
      LoadConfig();
      ghost var loaded := peersSec;
      var i := 0;
      while i < |peersSec|
        invariant 0 <= i <= |peersSec|
        invariant peersSec == loaded
        invariant forall j :: 0 <= j < i ==> !Contains(loaded[j].publicKey, hash)
      {
        if Contains(peersSec[i].publicKey, hash) {
          RemoveFirstAt(loaded, hash, i);
          peersSec := peersSec[..i] + peersSec[i + 1..];
          break;
        }
        i := i + 1;
      }
      if i == |loaded| {
        RemoveFirstNone(loaded, hash);
      }
      if AllWellFormed(loaded) {
        RemoveFirstWellFormed(loaded, hash);
      }
      SaveConfig();
    }

    /** dumpConfig's text: the [Interface] section, then one [Peer] section
        per peer, in list order. When no value holds a placeholder of its
        replacer, the text is DumpText whatever order MakeText visits the
        replacers in. Writing the file is not part of the model. */
    method DumpConfig() returns (text: string)
      ensures PlaceholderFree(ifaceSec, peersSec) ==> text == DumpText(ifaceSec, peersSec)
    {
      ghost var free := PlaceholderFree(ifaceSec, peersSec);
      text := InterfaceConfig(ifaceSec);
      var i := 0;
      while i < |peersSec|
        invariant 0 <= i <= |peersSec|
        invariant free ==> text == InterfaceSection(ifaceSec) + PeerSections(peersSec[..i])
      {
        var section := PeerConfig(peersSec[i]);
        if free {
          SectionsStep(InterfaceSection(ifaceSec), peersSec, i);
        }
        text := text + section;
        i := i + 1;
      }
      assert peersSec[..i] == peersSec;
    }

    /** restartIface: wg-quick down, then wg-quick up only when down
        succeeded; the first failure is returned. */
    method RestartIface(i: string, downErr: Option<string>, upErr: Option<string>) returns (calls: seq<Command>, err: Option<string>)
      ensures |calls| >= 1 && calls[0] == Down(i)
      ensures Up(i) in calls <==> downErr.None?
      ensures Up(i) in calls ==> calls == [Down(i), Up(i)]
      ensures downErr.Some? ==> err == downErr
      ensures downErr.None? ==> err == upErr
    {
      calls := [Down(i)];
      if downErr.Some? {
        return calls, downErr;
      }
      calls := calls + [Up(i)];
      err := upErr;
    }
  }
}
