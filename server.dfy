/** The HTTP front of server.go: a node owns the keys the ring assigns to it,
    stores and serves them from its cache, forwards requests for other keys
    to their owner, and replicates every set it accepts from a client to each
    peer entry that differs from its own id. The transport is not modelled: an outgoing request is a
    value (`Outbound`), and a forwarded reply is the request it relays. */
module Server {
  import opened Sequences
  import opened LruCache
  import opened Ring

  /** The address the server gives its own node on the ring. */
  const SelfAddr := "self"
  const ReplicationHeader := "X-Replication"
  const ForwardedFor := "X-Forwarded-For"
  const ContentType := "Content-Type"
  /** NewCache(10) */
  const CacheCapacity := 10
  /** time.Hour, in nanoseconds: the time-to-live of every entry set here. */
  const Hour := 3_600_000_000_000

  /** One value per header name (Header.Set replaces, Header.Get reads the
      first). */
  type Header = map<string, string>

  /** Header.Get, and Query().Get: a missing name reads as "". */
  function ValueOf(m: map<string, string>, name: string): string {
    if name in m then m[name] else ""
  }

  /** A request or response body: raw bytes, or the JSON encoding of a
      key/value pair (json.Marshal of the replication payload). */
  datatype Body = Bytes(text: string) | Encoded(key: string, value: string)

  /** An incoming request. `body` is what is left of the body when the
      handler looks at it, so after SetHandler's JSON decoding it is the
      unread remainder. */
  datatype Request = Request(verb: string, path: string, rawQuery: string,
                             query: map<string, string>, header: Header, body: Body)

  /** A request this server sends to another node. */
  datatype Outbound = Outbound(verb: string, url: string, header: Header, body: Body)

  /** What json.Decoder.Decode made of a set request's body. */
  datatype Decoded = Pair(key: string, value: string) | Malformed(error: string)

  /** What a handler answers. `Relayed(o)` is whatever the other node answers
      to `o`, copied back; `Crash` is a nil-pointer panic in the handler. */
  datatype Reply =
    | Stored
    | Found(value: string)
    | NotFound
    | BadRequest(message: string)
    | Relayed(request: Outbound)
    | Crash

  /** SetHandler's decision once it knows the key's owner. */
  datatype SetAction = StoreLocally(replicate: bool) | ForwardSet(to: Node)

  /** GetHandler's decision once it knows the key's owner. */
  datatype GetAction = LookupLocally | RejectLoop | ForwardGet(to: Node, header: Header)

  /** A set is stored here exactly when this node owns the key, and
      replicated exactly when it did not itself come from a replication. */
  function SetRoute(owner: Node, header: Header): (a: SetAction)
    ensures a.StoreLocally? <==> owner.addr == SelfAddr
    ensures a.StoreLocally? ==> (a.replicate <==> ReplicationHeader !in header || header[ReplicationHeader] == "")
    ensures a.ForwardSet? ==> a.to == owner
  {
    if owner.addr == SelfAddr then StoreLocally(ValueOf(header, ReplicationHeader) == "")
    else ForwardSet(owner)
  }

  /** A get is served here when this node owns the key; otherwise it is
      refused when it names this node as its sender, and forwarded, with
      this node stamped as sender, when it does not. */
  function GetRoute(owner: Node, header: Header, selfID: string): (a: GetAction)
    ensures a.LookupLocally? <==> owner.addr == SelfAddr
    ensures a.RejectLoop? <==> && owner.addr != SelfAddr
                               && if ForwardedFor in header then header[ForwardedFor] == selfID else selfID == ""
    ensures a.ForwardGet? ==> && a.to == owner
                              && a.header.Keys == header.Keys + {ForwardedFor}
                              && a.header[ForwardedFor] == selfID
                              && forall k :: k in header && k != ForwardedFor ==> a.header[k] == header[k]
  {
    if owner.addr == SelfAddr then LookupLocally
    else if ValueOf(header, ForwardedFor) == selfID then RejectLoop
    else ForwardGet(owner, header[ForwardedFor := selfID])
  }

  /** forwardRequest's outgoing request: a GET keeps its query and has no
      body, a POST keeps its body; both carry the incoming request's header
      unchanged. Any other method leaves the request nil, and setting its
      header panics. */
  function ForwardRequest(to: Node, r: Request): (o: Outcome<Outbound>)
    ensures o.Done? <==> r.verb == "GET" || r.verb == "POST"
    ensures o.Done? ==> && o.value.verb == r.verb
                        && o.value.header == r.header
                        && |o.value.url| >= |to.addr| + |r.path|
                        && o.value.url[..|to.addr|] == to.addr
                        && o.value.url[|to.addr|..|to.addr| + |r.path|] == r.path
    ensures o.Done? && r.verb == "GET" ==>
              && o.value.url[|to.addr| + |r.path|..] == "?" + r.rawQuery
              && o.value.body == Bytes("")
    ensures o.Done? && r.verb == "POST" ==>
              && |o.value.url| == |to.addr| + |r.path|
              && o.value.body == r.body
  {
    if r.verb == "GET" then
      Done(Outbound(r.verb, to.addr + r.path + "?" + r.rawQuery, r.header, Bytes("")))
    else if r.verb == "POST" then
      Done(Outbound(r.verb, to.addr + r.path, r.header, r.body))
    else Panic
  }

  /** The reply a handler gives when it forwards. */
  function Relay(o: Outcome<Outbound>): Reply {
    if o.Done? then Relayed(o.value) else Crash
  }

  /** The peers a set is replicated to: every peer whose string differs
      from selfID, in list order, as many times as it occurs there. */
  function ReplicationTargets(peers: seq<string>, selfID: string): (t: seq<string>)
    ensures forall p :: p in t <==> p in peers && p != selfID
    ensures multiset(t) == multiset(peers)[selfID := 0]
  {
    WithoutCounts(peers, {selfID});
    Without(peers, {selfID})
  }

  /** The targets keep the order of the peer list. */
  lemma ReplicationTargetsKeepOrder(peers: seq<string>, selfID: string, a: string, b: string)
    requires a != selfID && b != selfID
    ensures Precedes(ReplicationTargets(peers, selfID), a, b) <==> Precedes(peers, a, b)
  {
    WithoutKeepsOrder(peers, {selfID}, a, b);
  }

  /** The request replicateSet sends to one peer: a POST to the peer's /set
      carrying the pair, marked so that no receiver replicates it again. */
  function ReplicationRequest(peer: string, key: string, value: string): (r: Outbound)
    ensures r.verb == "POST" && r.url == peer + "/set" && r.body == Encoded(key, value)
    ensures forall owner: Node :: SetRoute(owner, r.header) != StoreLocally(true)
  {
    Outbound("POST", peer + "/set",
             map[ContentType := "application/json", ReplicationHeader := "true"],
             Encoded(key, value))
  }

  /** The requests replicateSet sends, one per target, in order. */
  function Replications(targets: seq<string>, key: string, value: string): seq<Outbound> {
    seq(|targets|, i requires 0 <= i < |targets| => ReplicationRequest(targets[i], key, value))
  }

  /** The requests for two runs of targets, one after the other. */
  lemma ReplicationsAppend(a: seq<string>, b: seq<string>, key: string, value: string)
    ensures Replications(a + b, key, value) == Replications(a, key, value) + Replications(b, key, value)
  {
  }

  /** replicateSet: one POST of the pair to /set of each peer other than
      this node, marked as a replication. */
  method ReplicateSet(peers: seq<string>, selfID: string, key: string, value: string)
    returns (out: seq<Outbound>)
    ensures out == Replications(ReplicationTargets(peers, selfID), key, value)
  {
    out := [];
    var i := 0;
    while i < |peers|
      invariant i <= |peers|
      invariant out == Replications(ReplicationTargets(peers[..i], selfID), key, value)
    {
      ReplicationStep(peers, i, selfID, key, value);
      if peers[i] != selfID {
        out := out + [ReplicationRequest(peers[i], key, value)];
      }
      i := i + 1;
    }
    assert peers[..i] == peers;
  }

  /** One more peer visited by replicateSet's loop. */
  lemma ReplicationStep(peers: seq<string>, i: nat, selfID: string, key: string, value: string)
    requires i < |peers|
    ensures Replications(ReplicationTargets(peers[..i + 1], selfID), key, value)
         == Replications(ReplicationTargets(peers[..i], selfID), key, value)
            + (if peers[i] != selfID then [ReplicationRequest(peers[i], key, value)] else [])
  {
    var peer := peers[i];
    var done := ReplicationTargets(peers[..i], selfID);
    var step := Without([peer], {selfID});
    assert ReplicationTargets(peers[..i + 1], selfID) == done + step by {
      assert peers[..i + 1] == peers[..i] + [peer];
      WithoutAppend(peers[..i], [peer], {selfID});
    }
    ReplicationsAppend(done, step, key, value);
    assert step == if peer != selfID then [peer] else [];
  }

  /** Each peer whose string differs from selfID is sent the pair, and no
      one else is. Peers are compared with selfID as strings, so a peer
      entry holding this node's own address is not filtered out. */
  lemma ReplicationReachesOtherPeers(peers: seq<string>, selfID: string, key: string, value: string, p: string)
    ensures ReplicationRequest(p, key, value) in Replications(ReplicationTargets(peers, selfID), key, value)
            <==> p in peers && p != selfID
  {
    var t := ReplicationTargets(peers, selfID);
    var out := Replications(t, key, value);
    if ReplicationRequest(p, key, value) in out {
      var i :| 0 <= i < |out| && out[i] == ReplicationRequest(p, key, value);
      assert t[i] in t;
      assert t[i] + "/set" == p + "/set";
      assert t[i] == (t[i] + "/set")[..|t[i]|];
      assert p == (p + "/set")[..|p|];
    }
    if p in peers && p != selfID {
      var i :| 0 <= i < |t| && t[i] == p;
      assert out[i] == ReplicationRequest(p, key, value);
    }
  }

  /** A replication never starts another. The peer that receives it stores
      it without replicating when it owns the key. When it does not, it
      forwards it with the replication mark still on it, so whichever node
      receives the forwarded request does not replicate either. */
  lemma ReplicationDoesNotCascade(peers: seq<string>, selfID: string, key: string, value: string,
                                   i: nat, owner: Node, owner2: Node,
                                   path: string, rawQuery: string, query: map<string, string>)
    requires i < |ReplicationTargets(peers, selfID)|
    ensures var o := ReplicationRequest(ReplicationTargets(peers, selfID)[i], key, value);
            var received := Request(o.verb, path, rawQuery, query, o.header, Bytes(""));
            && SetRoute(owner, received.header) != StoreLocally(true)
            && (owner.addr != SelfAddr ==>
                  && ForwardRequest(owner, received).Done?
                  && ReplicationHeader in ForwardRequest(owner, received).value.header
                  && ForwardRequest(owner, received).value.header[ReplicationHeader] == "true"
                  && SetRoute(owner2, ForwardRequest(owner, received).value.header) != StoreLocally(true))
  {
  }

  /** Loop detection compares the stamped sender with the receiver's own id.
      Every forwarding node stamps itself, so a get forwarded by `sender` is
      refused by a receiver only when the receiver has the same id: a
      request bouncing between two differently named nodes is never
      refused. */
  lemma LoopDetectedOnlyBySameId(owner1: Node, header: Header, sender: string, owner2: Node, receiver: string)
    requires GetRoute(owner1, header, sender).ForwardGet?
    ensures var stamped := GetRoute(owner1, header, sender).header;
            GetRoute(owner2, stamped, receiver).RejectLoop? <==> owner2.addr != SelfAddr && receiver == sender
  {
  }

  /** The ring NewCacheServer builds for `peers`: one node per peer, its
      address its id. */
  function PeerNodes(peers: seq<string>): (ns: seq<Node>)
    ensures |ns| == |peers|
    ensures forall i :: 0 <= i < |peers| ==> ns[i] == Node(peers[i], peers[i])
  {
    seq(|peers|, i requires 0 <= i < |peers| => Node(peers[i], peers[i]))
  }

  lemma PeerNodesAppend(peers: seq<string>, peer: string)
    ensures PeerNodes(peers + [peer]) == PeerNodes(peers) + [Node(peer, peer)]
  {
  }

  /** NewCacheServer's ring: every peer added under its own address, then
      this node under the address "self". */
  method BuildRing(sha1: string -> Digest, peers: seq<string>, selfID: string) returns (h: HashRing)
    ensures fresh(h)
    ensures h.Valid() && h.Aligned() && h.sha1 == sha1
    ensures h.nodes == PeerNodes(peers) + [Node(selfID, SelfAddr)]
  {
    h := new HashRing(sha1);
    var i := 0;
    while i < |peers|
      invariant i <= |peers|
      invariant fresh(h)
      invariant h.Valid() && h.Aligned() && h.sha1 == sha1
      invariant h.nodes == PeerNodes(peers[..i])
    {
      PeerNodesAppend(peers[..i], peers[i]);
      assert peers[..i + 1] == peers[..i] + [peers[i]];
      h.AddNode(Node(peers[i], peers[i]));
      i := i + 1;
    }
    assert peers[..i] == peers;
    h.AddNode(Node(selfID, SelfAddr));
  }

  /** server.go's CacheServer. */
  class CacheServer {
    const cache: Cache
    const peers: seq<string>
    const ring: HashRing
    const selfID: string

    /** The cache keeps its invariant and the ring's slices stay sorted and
        parallel, with at least this node on it, so GetNode never panics. */
    ghost predicate Valid()
      reads this, cache, ring
    {
      && cache.Valid()
      && cache.capacity == CacheCapacity
      && ring.Valid()
      && ring.Aligned()
      && ring.nodes != []
    }

    /** NewCacheServer: every peer is added to the ring under its own
        address, then this node under the address "self". */
    constructor (sha1: string -> Digest, peers: seq<string>, selfID: string)
      ensures Valid()
      ensures this.peers == peers && this.selfID == selfID
      ensures ring.nodes == PeerNodes(peers) + [Node(selfID, SelfAddr)]
      ensures ring.sha1 == sha1
      ensures cache.Abs() == Store([], map[])
    {
      var h := BuildRing(sha1, peers, selfID);
      var c := new Cache(CacheCapacity);
      cache := c;
      ring := h;
      this.peers := peers;
      this.selfID := selfID;
    }

    /** The node the ring assigns `key` to; never a panic here. */
    method Owner(key: string) returns (owner: Node)
      requires Valid()
      ensures ring.Owner(key) == Done(owner)
      ensures owner in ring.nodes
    {
      AlignedLength(ring.sha1, ring.nodes, ring.hashes);
      var r := ring.GetNode(key);
      owner := r.value;
    }

    /** SetHandler, given what JSON decoding made of the body and the current
        time. Also returns the replication requests it starts. */
    method SetHandler(r: Request, decoded: Decoded, now: int) returns (reply: Reply, replications: seq<Outbound>)
      requires Valid()
      modifies cache
      ensures Valid()
      ensures decoded.Malformed? ==>
                reply == BadRequest(decoded.error) && replications == [] && cache.Abs() == old(cache.Abs())
      ensures decoded.Pair? ==>
                var owner := ring.Owner(decoded.key).value;
                match SetRoute(owner, r.header)
                case StoreLocally(replicate) =>
                  && reply == Stored
                  && cache.Abs() == AfterSet(old(cache.Abs()), CacheCapacity, decoded.key, decoded.value, now + Hour)
                  && replications == (if replicate then Replications(ReplicationTargets(peers, selfID), decoded.key, decoded.value)
                                      else [])
                case ForwardSet(to) =>
                  && reply == Relay(ForwardRequest(to, r))
                  && replications == []
                  && cache.Abs() == old(cache.Abs())
    {
      replications := [];
      if decoded.Malformed? {
        return BadRequest(decoded.error), [];
      }
      var owner := Owner(decoded.key);
      var action := SetRoute(owner, r.header);
      if action.StoreLocally? {
        cache.Set(decoded.key, decoded.value, Hour, now);
        if action.replicate {
          replications := ReplicateSet(peers, selfID, decoded.key, decoded.value);
        }
        reply := Stored;
      } else {
        reply := Relay(ForwardRequest(owner, r));
      }
    }

    /** GetHandler at the current time `now`. */
    method GetHandler(r: Request, now: int) returns (reply: Reply)
      requires Valid()
      modifies cache
      ensures Valid()
      ensures var key := ValueOf(r.query, "key");
              var owner := ring.Owner(key).value;
              match GetRoute(owner, r.header, selfID)
              case LookupLocally =>
                var l := AfterGet(old(cache.Abs()), key, now);
                && cache.Abs() == l.store
                && reply == if l.found then Found(l.value) else NotFound
              case RejectLoop =>
                reply == BadRequest("Loop Detected") && cache.Abs() == old(cache.Abs())
              case ForwardGet(to, header) =>
                reply == Relay(ForwardRequest(to, r.(header := header))) && cache.Abs() == old(cache.Abs())
    {
      var key := ValueOf(r.query, "key");
      var owner := Owner(key);
      var action := GetRoute(owner, r.header, selfID);
      match action
      case LookupLocally =>
        var value, found := cache.Get(key, now);
        reply := if found then Found(value) else NotFound;
      case RejectLoop =>
        reply := BadRequest("Loop Detected");
      case ForwardGet(to, header) =>
        reply := Relay(ForwardRequest(to, r.(header := header)));
    }
  }
}
