# spewg-cache: a verified model of the cache shard's core

spewg-cache is a distributed in-memory key-value cache. Each node keeps a
bounded local cache with per-entry expiry and least-recently-used
eviction. A consistent-hash ring assigns each key to one node. A node
stores and serves the keys it owns and forwards requests for other keys to
their owner. It replicates every set it accepts from a client to each entry of
its peer list that differs from its own id.

This project models the three core files in Dafny and proves what they
promise:

- `sequences.dfy` (module `Sequences`) holds the sequence operations the other
  modules share. `Without` removes a set of elements and keeps the order of
  the rest. It models `list.Remove` on the recency list and the peer filter
  of `replicateSet`. `Precedes` is the "occurs before" relation used to state
  recency order.
- `lru_cache.dfy` (module `LruCache`) models `cache.go`.
  - The doubly-linked recency list becomes `eviction: seq<string>`, with the
    front at index 0.
  - The element map becomes `items: map<string, Item>`.
  - `Cache` is a class whose methods change these two fields in place.
  - Each method is proved against a pure function of the old state
    (`AfterSet`, `AfterGet`, `AfterSweep`, `AfterEvictLru`), and the
    properties are proved about those functions.
  - Time is the integer `now` passed in by the caller.
- `hash_ring.dfy` (module `Ring`) models `hashring.go` as the code has it.
  - `nodes` stays in insertion order.
  - Only `hashes` is sorted, so the two slices are not index-aligned.
  - `GetNode` returns `nodes[i]` for the index `i` it finds in `hashes`.
  - `MisroutedKey` exhibits a key routed to a node other than the one whose
    position is the first at or after the key.
  - SHA-1 is the ring's `sha1` parameter, an arbitrary function to 20-byte
    digests. `bytesToUint32` is modelled exactly.
  - The Go panics are outcomes: `RemoveNode` on an empty ring, and
    `GetNode` when `hashes` holds an index `nodes` lacks.
- `server.dfy` (module `Server`) models `server.go`.
  - Routing is two pure functions returning an action:
    - `SetRoute` chooses between a local write (with or without replication)
      and a forward.
    - `GetRoute` chooses between a local lookup, a loop rejection, and
      stamp-and-forward.
  - `ForwardRequest` builds the outgoing request and its URL.
  - `ReplicateSet` builds the replication requests.
  - `CacheServer` builds the ring the way `NewCacheServer` does. Its handlers
    update the cache and return the reply, together with the replication
    requests they start.

In a few places the code does not do what a reader would expect of such a
cache. The model follows the code:

- **Expiry is strict.** One would expect an entry to expire at its expiry
  instant. But `time.Now().After(expiry)` means an entry is expired only
  when `now > expiry`. At `now == expiry` it is still served
  (`LruCache.ExpiryIsStrict`, `LruCache.AfterGet`).
- **`RemoveNode` with an unknown id is not a no-op**, as one would expect. The index keeps its
  initial value 0 and the hash its initial value 0. So `nodes[0]` is removed,
  and a hash is removed only if some position equals 0
  (`Ring.RemoveAbsentDropsFirst`).
- **`nodes` and `hashes` are not kept aligned.** A ring is expected to keep
  nodes and positions index-aligned. As long as every removed id is on the
  ring, these slices hold the same positions, but in different orders
  (`Ring.MisroutedKey`). After `RemoveNode` with an id that is not on the
  ring they no longer hold the same positions either.
- **Loop detection catches less than one would expect.** One would expect a
  get that returns to the node that forwarded it to be refused. Every forwarding node
  stamps its own id into `X-Forwarded-For`. A stamped request is therefore
  refused only by a node whose id equals the stamp, that is, the node that
  just forwarded it. A get bouncing between two differently named nodes is
  forwarded again each time (`Server.LoopDetectedOnlyBySameId`).
- **Peers are addresses, but self is filtered by id.** `replicateSet`
  compares each peer entry with `selfID`, and `NewCacheServer` uses each
  entry as a node's address. A node expects its own address not to be
  replicated to. But when the peer list holds that address, it is kept:
  the node replicates to itself over HTTP, and its ring holds it twice
  (`Server.ReplicationTargets`, `Server.BuildRing`).
- **A forwarded set usually loses its body.** One would expect a set sent
  to a node that does not own the key to reach the owner intact. But
  `SetHandler` decodes the JSON body before it looks up the owner
  (`server.go:45`), and `forwardRequest` then reads what is left of that
  body (`server.go:135`). What is left is normally nothing, so the owner
  receives an empty body and answers 400. In the model a request's `body`
  is that remainder, and a forwarded POST carries exactly it
  (`Server.ForwardRequest`, `Server.CacheServer.SetHandler`).

## Model

| member | source | states |
|---|---|---|
| LruCache.Cache.constructor | cache.go:26-32 | A new cache has an empty list and map, the given capacity, and satisfies the list/map bijection and the size bound. |
| LruCache.ConsistentSize | cache.go:14-19 | When every listed key is in the map and vice versa, each listed once, the list is exactly as long as the map is large. |
| LruCache.AfterSet | cache.go:34-55 | After a set, the key is at the front of the list and maps to the new value with the new expiry. No other key is added or changed. The list/map bijection is kept. |
| LruCache.Cache.Set | cache.go:34-55 | The new state is `AfterSet` of the old state with expiry `now + ttl`. The bijection and the bound of max(capacity, 1) entries hold afterwards. |
| LruCache.SetBoundsSize | cache.go:38-47 | Because the old entry is removed first and the back is evicted at capacity, a set leaves list length = map size ≤ max(capacity, 1). |
| LruCache.SetEvictsBack | cache.go:44-47 | A new key set at capacity evicts exactly the least recently used key: the list becomes the key followed by the old list minus its back, and the map keys change by that key in and the back out. |
| LruCache.SetBelowCapacityKeepsAll | cache.go:44-54 | A new key set below capacity evicts nothing: the key is pushed in front of the unchanged list and added to the map. |
| LruCache.SetRefreshEvictsNothing | cache.go:38-54 | Setting a present key replaces its item, keeps the list length, and keeps the relative order of every other key. |
| LruCache.AfterEvictLru | cache.go:98-105 | On an empty list nothing changes. Otherwise the back is dropped from the list and its key from the map, nothing else changes, and the bijection is kept. |
| LruCache.Cache.EvictLru | cache.go:98-105 | The new state is `AfterEvictLru` of the old one. The invariant is kept. |
| LruCache.ExpiryIsStrict | cache.go:63 | `Expired` (the `After` test of cache.go:63 and cache.go:91): an item is still live at its expiry instant, and once expired it stays expired at every later time. |
| LruCache.AfterGet | cache.go:57-74 | A get is found iff the key is present and `now` is not after its expiry. A hit returns the value, leaves the map alone and moves the key to the front. A miss returns "" and drops the key from the map. An absent key leaves the store unchanged. The bijection is kept and the list never grows. |
| LruCache.Cache.Get | cache.go:57-74 | The returned value and found flag, and the new state, are those of `AfterGet` at `now`. The invariant is kept. |
| LruCache.GetKeepsOthersOrder | cache.go:65-73 | Hit or miss, a get never changes the relative order of the other keys. |
| LruCache.AfterSweep | cache.go:85-96 | A sweep keeps exactly the keys that are not expired at `now`, with their values unchanged. The list does not grow and the bijection is kept. |
| LruCache.Cache.EvictExpiredItems | cache.go:85-96 | Visiting the map's keys in any order and deleting the expired ones yields `AfterSweep` of the old state. |
| LruCache.SweepKeepsOrder | cache.go:90-94 | A sweep keeps the relative recency order of the keys it keeps. |
| Ring.KeyHash | hashring.go:77-81 | A key's ring position is the big-endian value of the first four bytes of its SHA-1 digest. |
| Ring.BytesToUint32 | hashring.go:84-86 | The result is b[0]·2^24 + b[1]·2^16 + b[2]·2^8 + b[3], as a 32-bit unsigned value; at least four bytes are needed. |
| Ring.FirstAtLeast | hashring.go:68-70 | The index is the smallest whose hash is ≥ h, or the length when there is none. |
| Ring.RingIndex | hashring.go:67-73 | On a non-empty slice the index is in range. It is 0 when every hash is below h (the wrap). Otherwise it is the first index with a hash ≥ h. |
| Ring.Search | hashring.go:68-70 | The binary search over the sorted hashes returns exactly `FirstAtLeast`. |
| Ring.Insert | hashring.go:30-34 | Appending a hash and sorting gives a sorted slice holding the old hashes plus the new one. |
| Ring.SortedPermutationUnique | hashring.go:32-34 | Two sorted slices with the same elements are equal. So the sorted insert is exactly what `sort.Slice` produces. |
| Ring.HashRing.constructor | hashring.go:20-22 | A new ring is empty, and sorted and aligned trivially. |
| Ring.HashRing.AddNode | hashring.go:24-35 | The node is appended to `nodes`, which is not re-sorted. `hashes` gains the node's position and stays sorted. Positions stay in step with nodes as multisets. |
| Ring.AlignedLength | hashring.go:29-30 | Slices that hold the same positions are equally long. |
| Ring.FindNode | hashring.go:41-49 | The first loop yields the first index with the id and its hash, or 0 and 0 when the id is absent. |
| Ring.RemoveFirst | hashring.go:51-56 | The second loop cuts out the first slot holding the hash, or changes nothing when no slot holds it. |
| Ring.HashRing.RemoveNode | hashring.go:37-57 | The call panics exactly on an empty ring, changing nothing. Otherwise it removes the node at the found index (0 when absent) and the first occurrence of the found hash (0 when absent). `hashes` stays sorted. Removing a present id keeps positions in step with nodes. |
| Ring.RemoveAt | hashring.go:50 | The splice `append(s[:i], s[i+1:]...)` is one shorter, holds the old elements minus `s[i]`, and keeps the others in order: index k < i is unchanged, the rest shift down by one. |
| Ring.RemoveValue | hashring.go:51-56 | Cutting out the first slot holding `h` removes one copy of `h`, so the length drops by one exactly when `h` occurs. A slice without `h` is returned unchanged. |
| Ring.RemoveValueKeepsSorted | hashring.go:51-56 | Cutting a value out of a sorted slice leaves it sorted. |
| Ring.RemovePresentKeepsAligned | hashring.go:43-56 | Removing a present id drops its node and one copy of its position. Both slices shrink by one and stay in step. |
| Ring.RemoveAbsentDropsFirst | hashring.go:41-56 | For an id not on a non-empty ring, index and hash are 0. `nodes[0]` is removed, and `hashes` is unchanged exactly when no position is 0. |
| Ring.HashRing.Owner | hashring.go:59-75 | An empty ring yields the zero Node. Any other answer is one of the ring's nodes. The lookup cannot panic while both slices have the same length. |
| Ring.HashRing.GetNode | hashring.go:59-75 | GetNode reads the ring without changing it and returns `Owner(key)`, so the same key always gets the same node. |
| Ring.MisroutedKey | hashring.go:68-74 | Node a is added before node b, and b's position is lower. A key at or below b's position is then handed to a, although b's position is the first at or after the key. |
| Server.PeerNodes | server.go:33-35 | Each peer p becomes `Node{p, p}`, in list order. |
| Server.BuildRing | server.go:33-36 | The ring holds the peers' nodes in order, then `Node{selfID, "self"}`. Its slices are sorted and aligned. |
| Server.CacheServer.constructor | server.go:24-38 | The server starts with an empty cache of capacity 10 and the ring built from its peers and itself. |
| Server.CacheServer.Owner | server.go:50 | The server's ring always names an owner, one of its nodes: it never panics. |
| Server.SetRoute | server.go:51-58 | A set is stored locally iff the owner's address is "self". A local set is replicated iff its X-Replication header is empty or absent. Otherwise it is forwarded to the owner. |
| Server.CacheServer.SetHandler | server.go:40-60 | A malformed body gives 400 with the decoder's error and changes nothing. An owned key is set with a one-hour TTL, answered 200, and replicated per `SetRoute`. Any other key is forwarded, with no local write and no replication. |
| Server.GetRoute | server.go:66-86 | A get is looked up locally iff this node owns the key. For a peer-owned key, it is rejected iff X-Forwarded-For equals selfID (an absent header reads as ""). Otherwise it is forwarded to the owner with X-Forwarded-For set to selfID and every other header kept. |
| Server.CacheServer.GetHandler | server.go:62-88 | For an owned key, the reply and the new cache state are `AfterGet`'s: the value, or not-found. A detected loop gives 400 "Loop Detected". Otherwise the stamped request is forwarded. The cache changes only on a local lookup. |
| Server.ForwardRequest | server.go:125-155 | A GET goes to addr + path + "?" + rawQuery with no body. A POST goes to addr + path with the request's body. Both carry the incoming header. Any other method panics. |
| Server.ReplicationTargets | server.go:104-105 | The targets are exactly the peer entries whose string differs from selfID, each as many times as it occurs in the peer list, since the loop sends one POST per entry. An entry holding this node's own address stays in. |
| Server.ReplicationTargetsKeepOrder | server.go:104-105 | The targets keep the order of the peer list. |
| Server.ReplicationRequest | server.go:108-114 | Each replication request is a POST to the peer's address followed by "/set". It carries the encoded pair and a header with which no owner that receives it replicates again. |
| Server.ReplicateSet | server.go:90-123 | Exactly one POST to peer + "/set" goes to each target, in order. It carries the encoded pair, Content-Type application/json, and X-Replication "true". |
| Server.ReplicationReachesOtherPeers | server.go:104-108 | A peer entry is sent the pair iff it is on the peer list and its string differs from selfID. |
| Server.ReplicationDoesNotCascade | server.go:53-54 | A replication request received by the key's owner is stored without a further fan-out. A non-owner forwards it with X-Replication still "true" (server.go:114, server.go:155). Whichever node then receives the forwarded request does not replicate it either. |
| Server.LoopDetectedOnlyBySameId | server.go:80-86 | A get forwarded by `sender` is refused by a receiver whose key is peer-owned iff the receiver's id equals `sender`. |

## Left out

- Concurrency is not modelled. This covers the cache's `sync.RWMutex`, the ring's lock, the server's `mu`, the goroutines that run `replicateSet` and each replication request, and the eviction ticker (`startEvictionTicker`). The model is sequential. The Go code's `Get` changes the list under a read lock, which is a race outside a sequential model.
- The clock is not modelled. `time.Now()` is the parameter `now`, in nanoseconds. `Cache.Set` and `Cache.Get` each read the clock in Go; the handlers here pass one `now` to both. `time.Hour` is `Hour`.
- SHA-1 is not modelled. `hash` applies the ring's `sha1` parameter, an arbitrary function to 20-byte digests, then `bytesToUint32`.
- JSON is not modelled. `SetHandler` takes what decoding produced (`Decoded`), and a request's `body` is what the decoder left unread. That remainder is what a forwarded set carries, since `forwardRequest` reads the body after decoding has consumed it. The replication payload is the pair itself (`Encoded`), not its bytes. Encoding the get reply cannot fail in the model, so the 500 answer of `server.go:75-77` is left out.
- HTTP transport is not modelled. This covers `http.Client.Do`, the status and body copied back from the owner, `io.ReadAll` failures, `http.NewRequest` URL parse failures, `io.Copy`, and the logging of replication results. A forwarded reply is `Relayed(request)`: whatever the owner answers to that request.
- Header names are used as given, not canonicalised. A header holds one value per name.
- Server.GetRoute: the stamp is part of the request value that is forwarded. Go writes it into the caller's `r.Header` in place; that aliasing is not modelled.
- Server.ForwardRequest: the Content-Type copied onto a forwarded POST is not modelled separately. The header is replaced by the incoming header right after, so it has no effect.
- Query strings are one value per name, and `Query().Get("key")` reads that value, or "" when absent.
- Logging, and `cmd/main.go` (flags, the random node id, `ListenAndServe`), are not part of this model.
