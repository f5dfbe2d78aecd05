/** DHT peer discovery: the work list of nodes to query (BEP 5 `get_peers`). */
module Dht {
  import opened Bytes
  import Bencode

  const NODE_COMPACT_SIZE: nat := 26
  const PEER_COMPACT_SIZE: nat := 6

  /** Four address bytes and two port bytes, as in the compact forms. */
  type Address = string

  datatype Endpoint = Endpoint(host: string, port: nat)

  const DEFAULT_NODES: seq<Endpoint> := [
    Endpoint("router.bittorrent.com", 6881),
    Endpoint("router.utorrent.com", 6881),
    Endpoint("dht.transmissionbt.com", 6881)]

  const ZERO_IP: string := [0 as char, 0 as char, 0 as char, 0 as char]
  const ZERO_PORT: string := [0 as char, 0 as char]

  /** The root of the reply that a queried node gives, if it gives one in time. */
  type Network = Address -> Option<seq<Bencode.Entry>>

  // ----- Lists without repetition

  function Add<T(==)>(order: seq<T>, x: T): seq<T> {
    if x in order then order else order + [x]
  }

  /** `order` and then, in order of first appearance, what is new in `xs`. */
  function AddAll<T(==)>(order: seq<T>, xs: seq<T>): seq<T>
    decreases |xs|
  {
    if xs == [] then order else AddAll(Add(order, xs[0]), xs[1..])
  }

  function Capped<T>(s: seq<T>, n: nat): seq<T> {
    if |s| <= n then s else s[..n]
  }

  ghost predicate Distinct<T(!new)>(s: seq<T>) {
    forall i, j | 0 <= i < j < |s| :: s[i] != s[j]
  }

  lemma {:induction false} AddAllAppend<T>(order: seq<T>, xs: seq<T>, ys: seq<T>)
    ensures AddAll(order, xs + ys) == AddAll(AddAll(order, xs), ys)
    decreases |xs|
  {
    if xs == [] {
      assert xs + ys == ys;
    } else {
      AddAllAppend(Add(order, xs[0]), xs[1..], ys);
      assert (xs + ys)[1..] == xs[1..] + ys;
    }
  }

  /** Nothing listed moves, nothing is listed twice, and what is listed is what was there or is in `xs`. */
  lemma {:induction false} AddAllIsUnion<T(!new)>(order: seq<T>, xs: seq<T>)
    requires Distinct(order)
    ensures order <= AddAll(order, xs) && Distinct(AddAll(order, xs))
    ensures forall x :: x in AddAll(order, xs) <==> x in order || x in xs
    decreases |xs|
  {
    if xs != [] {
      AddAllIsUnion(Add(order, xs[0]), xs[1..]);
      assert forall x :: x in xs <==> x == xs[0] || x in xs[1..];
    }
  }

  // ----- Replies

  predicate UsableNode(a: Address) {
    |a| == 6 && a[..4] != ZERO_IP && a[4..] != ZERO_PORT
  }

  predicate UsablePeer(a: Address) {
    |a| == 6 && a[4..] != ZERO_PORT
  }

  /** The usable addresses of a compact node list; a cut-off entry at the end is ignored. */
  function CompactNodes(s: string): seq<Address>
    decreases |s|
  {
    if |s| < NODE_COMPACT_SIZE then []
    else
      (if UsableNode(s[20..26]) then [s[20..26]] else []) + CompactNodes(s[NODE_COMPACT_SIZE..])
  }

  function CompactPeers(s: string): (peers: seq<Address>)
    ensures forall p | p in peers :: |p| == 6
    decreases |s|
  {
    if |s| < PEER_COMPACT_SIZE then [] else [s[..6]] + CompactPeers(s[PEER_COMPACT_SIZE..])
  }

  function Usable(peers: seq<Address>): seq<Address> {
    if peers == [] then []
    else (if UsablePeer(peers[0]) then [peers[0]] else []) + Usable(peers[1..])
  }

  function PeersIn(values: seq<Bencode.Value>): seq<Address> {
    if values == [] then []
    else (if values[0].Str? then Usable(CompactPeers(values[0].s)) else []) + PeersIn(values[1..])
  }

  function Body(reply: Option<seq<Bencode.Entry>>): seq<Bencode.Entry> {
    if reply.None? then [] else
    match Bencode.Lookup(reply.value, "r")
    case Some(Dict(body)) => body
    case _ => []
  }

  /** The nodes that a reply names. */
  function NodesOf(reply: Option<seq<Bencode.Entry>>): seq<Address> {
    match Bencode.GetString(Body(reply), "nodes")
    case Some(nodes) => CompactNodes(nodes)
    case None => []
  }

  /** The peers that a reply names. */
  function PeersOf(reply: Option<seq<Bencode.Entry>>): seq<Address> {
    match Bencode.Lookup(Body(reply), "values")
    case Some(List(values)) => PeersIn(values)
    case _ => []
  }

  function Joined<T>(lists: seq<seq<T>>): seq<T> {
    if lists == [] then [] else Joined(lists[..|lists| - 1]) + lists[|lists| - 1]
  }

  function NodeLists(queried: seq<Address>, answer: Network): seq<seq<Address>> {
    seq(|queried|, i requires 0 <= i < |queried| => NodesOf(answer(queried[i])))
  }

  function PeerLists(queried: seq<Address>, answer: Network): seq<seq<Address>> {
    seq(|queried|, i requires 0 <= i < |queried| => PeersOf(answer(queried[i])))
  }

  function AllNodes(queried: seq<Address>, answer: Network): seq<Address> {
    Joined(NodeLists(queried, answer))
  }

  function AllPeers(queried: seq<Address>, answer: Network): seq<Address> {
    Joined(PeerLists(queried, answer))
  }

  /** The nodes known after some queries: the seeds, then those learned, in order of discovery. */
  function Known(seeds: seq<Address>, queried: seq<Address>, answer: Network): seq<Address> {
    AddAll(AddAll([], seeds), AllNodes(queried, answer))
  }

  /** The peers found by some queries, in order of discovery. */
  function Found(queried: seq<Address>, answer: Network): seq<Address> {
    AddAll([], AllPeers(queried, answer))
  }

  /** Each query goes to the node that comes next in the order of discovery. */
  ghost predicate BreadthFirst(seeds: seq<Address>, queried: seq<Address>, answer: Network) {
    forall k | 0 <= k < |queried| :: queried[..k + 1] <= Known(seeds, queried[..k], answer)
  }

  /** No query is sent once there are enough peers. */
  ghost predicate Needy(queried: seq<Address>, answer: Network, maxPeers: nat) {
    forall k | 0 <= k < |queried| :: |Found(queried[..k], answer)| < maxPeers
  }

  /** The seeds that resolve. */
  function Seeds(endpoints: seq<Endpoint>, resolve: Endpoint -> Option<Address>): seq<Address> {
    if endpoints == [] then []
    else (match resolve(endpoints[0]) case Some(a) => [a] case None => []) + Seeds(endpoints[1..], resolve)
  }

  function Endpoints(bootstrap: seq<Endpoint>): seq<Endpoint> {
    if bootstrap == [] then DEFAULT_NODES else bootstrap
  }

  // ----- The search

  /** The set has the members of the list. */
  ghost predicate Holds(known: set<Address>, order: seq<Address>) {
    forall a :: a in known <==> a in order
  }

  /** Appends an address that is not known yet. */
  method Remember(list: seq<Address>, known: set<Address>, x: Address)
    returns (list': seq<Address>, known': set<Address>)
    requires Holds(known, list)
    ensures list' == Add(list, x) && Holds(known', list')
  {
    list', known' := list, known;
    if x !in known {
      list', known' := list + [x], known + {x};
    }
  }

  method EnqueueCompactNodes(nodes: string, pending: seq<Address>, known: set<Address>, ghost queried: seq<Address>)
    returns (pending': seq<Address>, known': set<Address>)
    requires Holds(known, queried + pending)
    ensures queried + pending' == AddAll(queried + pending, CompactNodes(nodes))
    ensures Holds(known', queried + pending')
  {
    pending', known' := pending, known;
    var offset := 0;
    assert nodes[0..] == nodes;
    while offset + NODE_COMPACT_SIZE <= |nodes|
      invariant 0 <= offset <= |nodes|
      invariant AddAll(queried + pending', CompactNodes(nodes[offset..]))
             == AddAll(queried + pending, CompactNodes(nodes))
      invariant Holds(known', queried + pending')
    {
      var address := nodes[offset + 20..offset + 26];
      NextNode(nodes, offset, queried + pending');
      if UsableNode(address) {
        if address !in known' {
          OneMoreKnown(known', queried, pending', address);
          known' := known' + {address};
          pending' := pending' + [address];
        }
      }
      offset := offset + NODE_COMPACT_SIZE;
    }
  }

  lemma OneMoreKnown(known: set<Address>, queried: seq<Address>, pending: seq<Address>, x: Address)
    requires Holds(known, queried + pending) && x !in known
    ensures queried + (pending + [x]) == Add(queried + pending, x)
    ensures Holds(known + {x}, queried + (pending + [x]))
  {
    assert queried + (pending + [x]) == queried + pending + [x];
  }

  lemma NextNode(nodes: string, offset: nat, order: seq<Address>)
    requires offset + NODE_COMPACT_SIZE <= |nodes|
    ensures var a, rest := nodes[offset + 20..offset + 26], CompactNodes(nodes[offset + NODE_COMPACT_SIZE..]);
            AddAll(order, CompactNodes(nodes[offset..])) == AddAll(if UsableNode(a) then Add(order, a) else order, rest)
  {
    var s := nodes[offset..];
    var a, rest := s[20..26], CompactNodes(s[NODE_COMPACT_SIZE..]);
    assert a == nodes[offset + 20..offset + 26] && s[NODE_COMPACT_SIZE..] == nodes[offset + NODE_COMPACT_SIZE..];
    if UsableNode(a) {
      AddAllFirst(order, a, rest);
    } else {
      assert [] + rest == rest;
    }
  }

  lemma AddAllFirst<T>(order: seq<T>, x: T, xs: seq<T>)
    ensures AddAll(order, [x] + xs) == AddAll(Add(order, x), xs)
  {
    assert ([x] + xs)[1..] == xs;
  }

  method ParseCompactPeers(data: string) returns (peers: seq<Address>)
    ensures peers == CompactPeers(data)
  {
    peers := [];
    var i := 0;
    assert data[0..] == data;
    while i + PEER_COMPACT_SIZE <= |data|
      invariant 0 <= i <= |data| && peers + CompactPeers(data[i..]) == CompactPeers(data)
    {
      NextCompactPeer(data, i);
      AppendFirst(peers, data[i..i + 6], CompactPeers(data[i + 6..]));
      peers := peers + [data[i..i + 6]];
      i := i + PEER_COMPACT_SIZE;
    }
  }

  lemma NextCompactPeer(data: string, i: nat)
    requires i + PEER_COMPACT_SIZE <= |data|
    ensures CompactPeers(data[i..]) == [data[i..i + 6]] + CompactPeers(data[i + 6..])
  {
    assert data[i..][..6] == data[i..i + 6] && data[i..][6..] == data[i + 6..];
  }

  lemma AppendFirst<T>(s: seq<T>, x: T, t: seq<T>)
    ensures s + ([x] + t) == s + [x] + t
  {
  }

  method AppendPeers(values: seq<Bencode.Value>, peers: seq<Address>, known: set<Address>, maxPeers: nat)
    returns (peers': seq<Address>, known': set<Address>)
    requires Holds(known, peers)
    requires Distinct(peers) && |peers| < maxPeers
    ensures peers' == Capped(AddAll(peers, PeersIn(values)), maxPeers)
    ensures Holds(known', peers')
  {
    peers', known' := peers, known;
    for i := 0 to |values|
      invariant |peers'| < maxPeers && Distinct(peers') && Holds(known', peers')
      invariant AddAll(peers', PeersIn(values[i..])) == AddAll(peers, PeersIn(values))
    {
      NextValue(values, i, peers');
      if values[i].Str? {
        var listed := ParseCompactPeers(values[i].s);
        ghost var all := AddAll(peers', Usable(listed));
        CapIsFinal(peers', Usable(listed), PeersIn(values[i + 1..]), maxPeers);
        peers', known' := AppendUsable(listed, peers', known', maxPeers);
        if |peers'| >= maxPeers {
          return;
        }
        assert peers' == all;
      }
    }
    assert values[|values|..] == [];
  }

  lemma NextValue(values: seq<Bencode.Value>, i: nat, order: seq<Address>)
    requires i < |values|
    ensures AddAll(order, PeersIn(values[i..])) ==
              AddAll(if values[i].Str? then AddAll(order, Usable(CompactPeers(values[i].s))) else order,
                     PeersIn(values[i + 1..]))
  {
    assert values[i..][1..] == values[i + 1..];
    if values[i].Str? {
      AddAllAppend(order, Usable(CompactPeers(values[i].s)), PeersIn(values[i + 1..]));
    } else {
      assert [] + PeersIn(values[i + 1..]) == PeersIn(values[i + 1..]);
    }
  }

  /** Once the cap is reached, what comes later does not matter. */
  lemma CapIsFinal<T(!new)>(order: seq<T>, xs: seq<T>, ys: seq<T>, n: nat)
    requires Distinct(order)
    ensures |AddAll(order, xs)| >= n ==> Capped(AddAll(AddAll(order, xs), ys), n) == Capped(AddAll(order, xs), n)
    ensures Distinct(AddAll(order, xs))
  {
    AddAllIsUnion(order, xs);
    AddAllIsUnion(AddAll(order, xs), ys);
  }

  method AppendUsable(listed: seq<Address>, peers: seq<Address>, known: set<Address>, maxPeers: nat)
    returns (peers': seq<Address>, known': set<Address>)
    requires Holds(known, peers)
    requires Distinct(peers) && |peers| < maxPeers && forall p | p in listed :: |p| == 6
    ensures peers' == Capped(AddAll(peers, Usable(listed)), maxPeers) && Distinct(peers')
    ensures Holds(known', peers')
  {
    peers', known' := peers, known;
    for i := 0 to |listed|
      invariant |peers'| < maxPeers && Distinct(peers') && Holds(known', peers')
      invariant AddAll(peers', Usable(listed[i..])) == AddAll(peers, Usable(listed))
    {
      var peer := listed[i];
      NextPeer(listed, i, peers');
      if peer[4..] != ZERO_PORT {
        OneMorePeer(peers', peer, Usable(listed[i + 1..]), maxPeers);
        peers', known' := Remember(peers', known', peer);
        if |peers'| >= maxPeers {
          return;
        }
      }
    }
  }

  lemma OneMorePeer(order: seq<Address>, x: Address, rest: seq<Address>, n: nat)
    requires Distinct(order)
    ensures Distinct(Add(order, x))
    ensures |Add(order, x)| >= n ==> Capped(AddAll(Add(order, x), rest), n) == Capped(Add(order, x), n)
  {
    AddKeeps(order, x);
    CapIsFinal(order, [x], rest, n);
  }

  lemma AddKeeps<T(!new)>(order: seq<T>, x: T)
    requires Distinct(order)
    ensures Distinct(Add(order, x)) && AddAll(order, [x]) == Add(order, x)
  {
    assert AddAll(order, [x]) == AddAll(Add(order, x), []);
  }

  lemma NextPeer(listed: seq<Address>, i: nat, order: seq<Address>)
    requires i < |listed|
    ensures AddAll(order, Usable(listed[i..]))
         == AddAll(if UsablePeer(listed[i]) then Add(order, listed[i]) else order, Usable(listed[i + 1..]))
  {
    assert listed[i..][1..] == listed[i + 1..];
    if UsablePeer(listed[i]) {
      AddAllFirst(order, listed[i], Usable(listed[i + 1..]));
    } else {
      assert [] + Usable(listed[i + 1..]) == Usable(listed[i + 1..]);
    }
  }

  /** The nodes known so far are those queried and those pending; every usable peer of a reply is in `peers`. */
  ghost predicate Searching(seeds: seq<Address>, queried: seq<Address>, pending: seq<Address>, peers: seq<Address>,
                            answer: Network, maxPeers: nat)
  {
    && BreadthFirst(seeds, queried, answer) && Needy(queried, answer, maxPeers)
    && queried + pending == Known(seeds, queried, answer)
    && peers == Capped(Found(queried, answer), maxPeers)
  }

  method ResolveSeeds(endpoints: seq<Endpoint>, resolve: Endpoint -> Option<Address>)
    returns (pending: seq<Address>, known: set<Address>)
    ensures pending == AddAll([], Seeds(endpoints, resolve))
    ensures Holds(known, pending)
  {
    pending, known := [], {};
    for i := 0 to |endpoints|
      invariant Holds(known, pending)
      invariant AddAll(pending, Seeds(endpoints[i..], resolve)) == AddAll([], Seeds(endpoints, resolve))
    {
      assert endpoints[i..][1..] == endpoints[i + 1..];
      var node := resolve(endpoints[i]);
      ghost var rest := Seeds(endpoints[i + 1..], resolve);
      match node {
        case Some(address) =>
          AddAllFirst(pending, address, rest);
          pending, known := Remember(pending, known, address);
        case None =>
          assert [] + rest == rest;
      }
    }
  }

  /**
   * `queried` lists the nodes to which a query was sent. The answer of a node does not depend on when it is
   * asked: no node is asked twice.
   */
  method DiscoverDhtPeers(infoHash: string, bootstrap: seq<Endpoint>, maxQueries: nat, maxPeers: nat,
                          resolve: Endpoint -> Option<Address>, answer: Network)
    returns (peers: seq<Address>, queried: seq<Address>)
    ensures |infoHash| != 20 || maxQueries == 0 || maxPeers == 0 ==> peers == [] && queried == []
    ensures var seeds := Seeds(if bootstrap != [] then bootstrap
                               else [Endpoint("router.bittorrent.com", 6881), Endpoint("router.utorrent.com", 6881),
                                     Endpoint("dht.transmissionbt.com", 6881)], resolve);
            |infoHash| == 20 && maxQueries > 0 && maxPeers > 0 ==>
              && BreadthFirst(seeds, queried, answer) && Needy(queried, answer, maxPeers)
              && |queried| <= maxQueries
              && peers == Capped(Found(queried, answer), maxPeers)
              && (|queried| < maxQueries && |peers| < maxPeers ==> queried == Known(seeds, queried, answer))
  {
    peers, queried := [], [];
    if |infoHash| != 20 || maxQueries == 0 || maxPeers == 0 {
      return;
    }
    ghost var seeds := Seeds(Endpoints(bootstrap), resolve);
    var pending, knownNodes := ResolveSeeds(Endpoints(bootstrap), resolve);
    var knownPeers: set<Address> := {};
    assert queried + pending == pending;
    while pending != [] && |queried| < maxQueries && |peers| < maxPeers
      invariant |queried| <= maxQueries && |peers| <= maxPeers
      invariant Searching(seeds, queried, pending, peers, answer, maxPeers)
      invariant Holds(knownNodes, queried + pending)
      invariant Holds(knownPeers, peers)
      decreases maxQueries - |queried|
    {
      peers, knownPeers, pending, knownNodes, queried :=
        QueryNext(peers, knownPeers, pending, knownNodes, queried, maxPeers, answer, seeds);
    }
    assert pending == [] ==> queried + pending == queried;
  }

  /** One query: to the first pending node. */
  method QueryNext(peers: seq<Address>, knownPeers: set<Address>, pending: seq<Address>, knownNodes: set<Address>,
                   queried: seq<Address>, maxPeers: nat, answer: Network, ghost seeds: seq<Address>)
    returns (peers': seq<Address>, knownPeers': set<Address>, pending': seq<Address>, knownNodes': set<Address>,
             queried': seq<Address>)
    requires Searching(seeds, queried, pending, peers, answer, maxPeers) && pending != [] && |peers| < maxPeers
    requires Holds(knownNodes, queried + pending)
    requires Holds(knownPeers, peers)
    ensures queried' == queried + [pending[0]]
    ensures Searching(seeds, queried', pending', peers', answer, maxPeers)
    ensures Holds(knownNodes', queried' + pending')
    ensures Holds(knownPeers', peers')
  {
    var node := pending[0];
    queried' := queried + [node];
    FirstPending(queried, pending);
    FoundDistinct(queried, answer);
    peers', knownPeers', pending', knownNodes' :=
      ProcessReply(answer(node), peers, knownPeers, pending[1..], knownNodes, maxPeers, queried');
    StepSearches(seeds, queried, pending, peers, answer, maxPeers, pending', peers');
  }

  method ProcessReply(reply: Option<seq<Bencode.Entry>>, peers: seq<Address>, knownPeers: set<Address>,
                      pending: seq<Address>, knownNodes: set<Address>, maxPeers: nat, ghost queried: seq<Address>)
    returns (peers': seq<Address>, knownPeers': set<Address>, pending': seq<Address>, knownNodes': set<Address>)
    requires Holds(knownNodes, queried + pending)
    requires Holds(knownPeers, peers)
    requires Distinct(peers) && |peers| < maxPeers
    ensures peers' == Capped(AddAll(peers, PeersOf(reply)), maxPeers)
    ensures queried + pending' == AddAll(queried + pending, NodesOf(reply))
    ensures Holds(knownNodes', queried + pending')
    ensures Holds(knownPeers', peers')
  {
    peers', knownPeers', pending', knownNodes' := peers, knownPeers, pending, knownNodes;
    if reply.Some? {
      var body := Bencode.Lookup(reply.value, "r");
      if body.Some? && body.value.Dict? {
        var values := Bencode.Lookup(body.value.entries, "values");
        if values.Some? && values.value.List? {
          peers', knownPeers' := AppendPeers(values.value.items, peers, knownPeers, maxPeers);
        }
        var nodes := Bencode.GetString(body.value.entries, "nodes");
        if nodes.Some? {
          pending', knownNodes' := EnqueueCompactNodes(nodes.value, pending, knownNodes, queried);
        }
      }
    }
  }

  lemma JoinedOneMore<T>(lists: seq<seq<T>>, last: seq<T>)
    ensures Joined(lists + [last]) == Joined(lists) + last
  {
    assert (lists + [last])[..|lists|] == lists;
  }

  /** One more query adds what its reply names. */
  lemma StepKnown(seeds: seq<Address>, queried: seq<Address>, node: Address, answer: Network)
    ensures Known(seeds, queried + [node], answer) == AddAll(Known(seeds, queried, answer), NodesOf(answer(node)))
  {
    var named := NodesOf(answer(node));
    assert NodeLists(queried + [node], answer) == NodeLists(queried, answer) + [named];
    JoinedOneMore(NodeLists(queried, answer), named);
    AddAllAppend(AddAll([], seeds), AllNodes(queried, answer), named);
  }

  lemma StepFound(queried: seq<Address>, node: Address, answer: Network)
    ensures Found(queried + [node], answer) == AddAll(Found(queried, answer), PeersOf(answer(node)))
  {
    var named := PeersOf(answer(node));
    assert PeerLists(queried + [node], answer) == PeerLists(queried, answer) + [named];
    JoinedOneMore(PeerLists(queried, answer), named);
    AddAllAppend([], AllPeers(queried, answer), named);
  }

  lemma StepOrder(seeds: seq<Address>, queried: seq<Address>, node: Address, answer: Network)
    requires BreadthFirst(seeds, queried, answer) && queried + [node] <= Known(seeds, queried, answer)
    ensures BreadthFirst(seeds, queried + [node], answer)
  {
    var queried' := queried + [node];
    assert forall k | 0 <= k <= |queried| :: queried'[..k] == queried[..k];
    assert queried'[..|queried| + 1] == queried';
  }

  lemma FirstPending(queried: seq<Address>, pending: seq<Address>)
    requires pending != []
    ensures queried + [pending[0]] + pending[1..] == queried + pending && queried + [pending[0]] <= queried + pending
  {
  }

  /** Querying the first pending node and taking in its reply continues the search. */
  lemma StepSearches(seeds: seq<Address>, queried: seq<Address>, pending: seq<Address>, peers: seq<Address>,
                     answer: Network, maxPeers: nat, pending': seq<Address>, peers': seq<Address>)
    requires Searching(seeds, queried, pending, peers, answer, maxPeers) && pending != [] && |peers| < maxPeers
    requires queried + [pending[0]] + pending'
          == AddAll(queried + [pending[0]] + pending[1..], NodesOf(answer(pending[0])))
    requires peers' == Capped(AddAll(peers, PeersOf(answer(pending[0]))), maxPeers)
    ensures Searching(seeds, queried + [pending[0]], pending', peers', answer, maxPeers)
  {
    FirstPending(queried, pending);
    StepKnown(seeds, queried, pending[0], answer);
    StepFound(queried, pending[0], answer);
    StepOrder(seeds, queried, pending[0], answer);
    StepNeedy(queried, pending[0], answer, maxPeers);
  }

  lemma StepNeedy(queried: seq<Address>, node: Address, answer: Network, maxPeers: nat)
    requires Needy(queried, answer, maxPeers) && |Found(queried, answer)| < maxPeers
    ensures Needy(queried + [node], answer, maxPeers)
  {
    assert forall k | 0 <= k <= |queried| :: (queried + [node])[..k] == queried[..k];
    assert queried[..|queried|] == queried;
  }

  lemma FoundDistinct(queried: seq<Address>, answer: Network)
    ensures Distinct(Found(queried, answer))
  {
    AddAllIsUnion([], AllPeers(queried, answer));
  }

  // ----- What a search finds

  /** A way from a seed to a node, each step to a node that the reply before it named. */
  ghost predicate Path(path: seq<Address>, seeds: seq<Address>, answer: Network) {
    && path != []
    && path[0] in seeds
    && forall i | 0 < i < |path| :: path[i] in NodesOf(answer(path[i - 1]))
  }

  ghost predicate Reachable(node: Address, seeds: seq<Address>, answer: Network) {
    exists path :: Path(path, seeds, answer) && path[|path| - 1] == node
  }

  lemma KnownMembers(seeds: seq<Address>, queried: seq<Address>, answer: Network)
    ensures Distinct(Known(seeds, queried, answer))
    ensures forall a :: a in Known(seeds, queried, answer) <==> a in seeds || a in AllNodes(queried, answer)
  {
    AddAllIsUnion([], seeds);
    AddAllIsUnion(AddAll([], seeds), AllNodes(queried, answer));
  }

  ghost predicate NodeNamed(queried: seq<Address>, answer: Network, a: Address) {
    exists k :: 0 <= k < |queried| && a in NodesOf(answer(queried[k]))
  }

  ghost predicate PeerNamed(queried: seq<Address>, answer: Network, a: Address) {
    exists k :: 0 <= k < |queried| && a in PeersOf(answer(queried[k]))
  }

  lemma {:induction false} JoinedMembers<T>(lists: seq<seq<T>>, x: T)
    ensures x in Joined(lists) <==> exists k :: 0 <= k < |lists| && x in lists[k]
    decreases |lists|
  {
    if lists != [] {
      var front := lists[..|lists| - 1];
      JoinedMembers(front, x);
      assert forall k | 0 <= k < |front| :: lists[k] == front[k];
    }
  }

  lemma LearnedNodes(queried: seq<Address>, answer: Network, a: Address)
    ensures a in AllNodes(queried, answer) <==> NodeNamed(queried, answer, a)
  {
    var lists := NodeLists(queried, answer);
    JoinedMembers(lists, a);
    assert forall k | 0 <= k < |queried| :: lists[k] == NodesOf(answer(queried[k]));
  }

  lemma LearnedPeers(queried: seq<Address>, answer: Network, a: Address)
    ensures a in AllPeers(queried, answer) <==> PeerNamed(queried, answer, a)
  {
    var lists := PeerLists(queried, answer);
    JoinedMembers(lists, a);
    assert forall k | 0 <= k < |queried| :: lists[k] == PeersOf(answer(queried[k]));
  }

  /** No node is queried twice. */
  lemma QueriesAreDistinct(seeds: seq<Address>, queried: seq<Address>, answer: Network)
    requires BreadthFirst(seeds, queried, answer)
    ensures Distinct(queried)
  {
    if queried != [] {
      var front := queried[..|queried| - 1];
      KnownMembers(seeds, front, answer);
      assert queried[..|queried| - 1 + 1] == queried;
      assert forall i | 0 <= i < |queried| :: queried[i] == Known(seeds, front, answer)[i];
    }
  }

  /** Only seeds and nodes that earlier replies named are queried. */
  lemma {:induction false} QueriedAreReachable(seeds: seq<Address>, queried: seq<Address>, answer: Network, k: nat)
    requires BreadthFirst(seeds, queried, answer) && k < |queried|
    ensures Reachable(queried[k], seeds, answer)
    decreases k
  {
    var front, node := queried[..k], queried[k];
    KnownMembers(seeds, front, answer);
    assert queried[..k + 1][k] == node && node in Known(seeds, front, answer);
    if node in seeds {
      assert Path([node], seeds, answer);
    } else {
      LearnedNodes(front, answer, node);
      var j :| 0 <= j < |front| && node in NodesOf(answer(front[j]));
      QueriedAreReachable(seeds, queried, answer, j);
      OneStepFurther(seeds, answer, queried[j], node);
    }
  }

  lemma OneStepFurther(seeds: seq<Address>, answer: Network, a: Address, b: Address)
    requires Reachable(a, seeds, answer) && b in NodesOf(answer(a))
    ensures Reachable(b, seeds, answer)
  {
    var path :| Path(path, seeds, answer) && path[|path| - 1] == a;
    ExtendPath(path, seeds, answer, b);
  }

  lemma ExtendPath(path: seq<Address>, seeds: seq<Address>, answer: Network, b: Address)
    requires Path(path, seeds, answer) && b in NodesOf(answer(path[|path| - 1]))
    ensures Reachable(b, seeds, answer)
  {
    var longer := path + [b];
    assert forall i | 0 <= i < |path| :: longer[i] == path[i];
    assert Path(longer, seeds, answer) && longer[|longer| - 1] == b;
  }

  lemma {:induction false} PathIsQueried(seeds: seq<Address>, queried: seq<Address>, answer: Network,
      path: seq<Address>)
    requires queried == Known(seeds, queried, answer) && Path(path, seeds, answer)
    ensures path[|path| - 1] in queried
    decreases |path|
  {
    KnownMembers(seeds, queried, answer);
    if |path| > 1 {
      var front, last := path[..|path| - 1], path[|path| - 1];
      assert Path(front, seeds, answer);
      PathIsQueried(seeds, queried, answer, front);
      var k :| 0 <= k < |queried| && queried[k] == front[|front| - 1];
      LearnedNodes(queried, answer, last);
    }
  }

  /**
   * A search that stops below both limits has queried exactly the nodes that replies lead to from the seeds,
   * each once, and returns exactly the peers with a port that those nodes named, each once.
   */
  lemma SearchIsComplete(seeds: seq<Address>, queried: seq<Address>, answer: Network, maxPeers: nat)
    requires BreadthFirst(seeds, queried, answer) && queried == Known(seeds, queried, answer)
    requires |Found(queried, answer)| <= maxPeers
    ensures Distinct(queried) && forall a :: a in queried <==> Reachable(a, seeds, answer)
    ensures var peers := Capped(Found(queried, answer), maxPeers);
            Distinct(peers) && forall p :: p in peers <==>
              exists a :: Reachable(a, seeds, answer) && p in PeersOf(answer(a))
  {
    QueriesAreDistinct(seeds, queried, answer);
    FoundDistinct(queried, answer);
    forall a
      ensures a in queried <==> Reachable(a, seeds, answer)
    {
      QueriedHoldsReachable(seeds, queried, answer, a);
    }
    AddAllIsUnion([], AllPeers(queried, answer));
    forall p
      ensures p in Found(queried, answer) <==> exists a :: Reachable(a, seeds, answer) && p in PeersOf(answer(a))
    {
      LearnedPeers(queried, answer, p);
      assert forall k | 0 <= k < |queried| :: queried[k] in queried;
      assert forall a | a in queried :: exists k :: 0 <= k < |queried| && queried[k] == a;
    }
  }

  lemma QueriedHoldsReachable(seeds: seq<Address>, queried: seq<Address>, answer: Network, a: Address)
    requires BreadthFirst(seeds, queried, answer) && queried == Known(seeds, queried, answer)
    ensures a in queried <==> Reachable(a, seeds, answer)
  {
    if a in queried {
      var k :| 0 <= k < |queried| && queried[k] == a;
      QueriedAreReachable(seeds, queried, answer, k);
    }
    if Reachable(a, seeds, answer) {
      var path :| Path(path, seeds, answer) && path[|path| - 1] == a;
      PathIsQueried(seeds, queried, answer, path);
    }
  }

  /** However it stops, a search returns distinct peers within the limit, each named by a node it queried. */
  lemma SearchIsSound(seeds: seq<Address>, queried: seq<Address>, answer: Network, maxPeers: nat)
    ensures var peers := Capped(Found(queried, answer), maxPeers);
            && Distinct(peers) && |peers| <= maxPeers
            && forall p | p in peers ::
                 UsablePeer(p) && exists k | 0 <= k < |queried| :: p in PeersOf(answer(queried[k]))
  {
    AddAllIsUnion([], AllPeers(queried, answer));
    forall p | p in Found(queried, answer)
      ensures UsablePeer(p) && exists k | 0 <= k < |queried| :: p in PeersOf(answer(queried[k]))
    {
      LearnedPeers(queried, answer, p);
      var k :| 0 <= k < |queried| && p in PeersOf(answer(queried[k]));
      NamedAreUsable(answer(queried[k]), p);
    }
  }

  lemma NamedAreUsable(reply: Option<seq<Bencode.Entry>>, p: Address)
    requires p in PeersOf(reply)
    ensures UsablePeer(p)
  {
    var values := Bencode.Lookup(Body(reply), "values");
    ListedAreUsable(values.value.items, p);
  }

  lemma {:induction false} ListedAreUsable(values: seq<Bencode.Value>, p: Address)
    requires p in PeersIn(values)
    ensures UsablePeer(p)
    decreases |values|
  {
    if values[0].Str? && p in Usable(CompactPeers(values[0].s)) {
      UsableAre(CompactPeers(values[0].s), p);
    } else {
      ListedAreUsable(values[1..], p);
    }
  }

  lemma {:induction false} UsableAre(peers: seq<Address>, p: Address)
    ensures p in Usable(peers) <==> p in peers && UsablePeer(p)
    decreases |peers|
  {
    if peers != [] {
      UsableAre(peers[1..], p);
    }
  }

  /** The peers in a list of compact strings: those with a port in some whole entry of some string. */
  lemma {:induction false} PeerListed(values: seq<Bencode.Value>, p: Address)
    ensures p in PeersIn(values) <==> exists k :: 0 <= k < |values| && ListsPeer(values[k], p)
    decreases |values|
  {
    if values != [] {
      PeerListed(values[1..], p);
      assert forall k | 0 < k < |values| :: values[k] == values[1..][k - 1];
      if values[0].Str? {
        UsableAre(CompactPeers(values[0].s), p);
        if |p| == 6 {
          CompactHolds(values[0].s, p);
        }
      }
    }
  }

  /** The value is a string with the address, whose port is not zero, in a whole entry of six bytes. */
  ghost predicate ListsPeer(value: Bencode.Value, p: Address) {
    && value.Str? && |p| == 6 && p[4..] != [0 as char, 0 as char]
    && exists j: nat :: PeerEntry(value.s, j) == p
  }

  /** Entry `j` of a compact string, if it is whole. */
  function PeerEntry(s: string, j: nat): string {
    if 6 * j + 6 <= |s| then s[6 * j..6 * j + 6] else ""
  }

  lemma CompactHolds(s: string, p: Address)
    requires |p| == 6
    ensures p in CompactPeers(s) <==> exists j: nat :: PeerEntry(s, j) == p
  {
    forall j: nat
      ensures PeerEntry(s, j) == if j < |CompactPeers(s)| then CompactPeers(s)[j] else ""
    {
      PeerAt(s, j);
    }
  }

  /** A reply names a peer when the list under `values` in the dictionary under `r` does. */
  lemma ReplyNamesPeer(reply: seq<Bencode.Entry>, p: Address)
    ensures p in PeersOf(Some(reply)) <==>
              match Bencode.Lookup(reply, "r")
              case Some(Dict(body)) =>
                (match Bencode.Lookup(body, "values")
                 case Some(List(values)) => exists k :: 0 <= k < |values| && ListsPeer(values[k], p)
                 case _ => false)
              case _ => false
  {
    match Bencode.Lookup(Body(Some(reply)), "values")
    case Some(List(values)) => PeerListed(values, p);
    case _ =>
  }

  /** A reply names a node when the string under `nodes` in the dictionary under `r` does. */
  lemma ReplyNamesNode(reply: seq<Bencode.Entry>, a: Address)
    ensures a in NodesOf(Some(reply)) <==>
              match Bencode.Lookup(reply, "r")
              case Some(Dict(body)) =>
                (match Bencode.Lookup(body, "nodes")
                 case Some(Str(nodes)) => ListsNode(nodes, a)
                 case _ => false)
              case _ => false
  {
    match Bencode.Lookup(Body(Some(reply)), "nodes")
    case Some(Str(nodes)) =>
      NodeListed(nodes, a);
      if |a| == 6 {
        NodeEntries(nodes, a);
      }
    case _ =>
  }

  /** The address, of which neither host nor port is zero, ends a whole entry of 26 bytes. */
  ghost predicate ListsNode(nodes: string, a: Address) {
    && |a| == 6 && a[..4] != [0 as char, 0 as char, 0 as char, 0 as char] && a[4..] != [0 as char, 0 as char]
    && exists k: nat :: NodeEntry(nodes, k) == a
  }

  function NodeEntry(s: string, k: nat): string {
    if 26 * k + 26 <= |s| then s[26 * k + 20..26 * k + 26] else ""
  }

  lemma NodeEntries(s: string, a: Address)
    requires |a| == 6
    ensures HasNode(s, a) <==> exists k: nat :: NodeEntry(s, k) == a
  {
    assert forall k: nat :: NodeEntry(s, k) == NodeAt(s, k);
    if HasNode(s, a) {
      var k: nat :| IsNode(s, k) && NodeAt(s, k) == a;
      assert NodeEntry(s, k) == a;
    }
    if exists k: nat :: NodeEntry(s, k) == a {
      var k: nat :| NodeEntry(s, k) == a;
      assert IsNode(s, k) && NodeAt(s, k) == a;
    }
  }

  // ----- The compact forms

  /** An entry of the compact peer form, by its position. */
  lemma {:induction false} PeerAt(s: string, k: nat)
    ensures k < |CompactPeers(s)| <==> k * PEER_COMPACT_SIZE + PEER_COMPACT_SIZE <= |s|
    ensures k < |CompactPeers(s)| ==>
              CompactPeers(s)[k] == s[k * PEER_COMPACT_SIZE..k * PEER_COMPACT_SIZE + PEER_COMPACT_SIZE]
    decreases |s|
  {
    if |s| >= PEER_COMPACT_SIZE && k > 0 {
      var t, at := s[PEER_COMPACT_SIZE..], (k - 1) * PEER_COMPACT_SIZE;
      PeerAt(t, k - 1);
      assert CompactPeers(s) == [s[..6]] + CompactPeers(t);
      if k - 1 < |CompactPeers(t)| {
        Bencode.SliceShift(s, PEER_COMPACT_SIZE, at, at + PEER_COMPACT_SIZE);
      }
    }
  }

  /** The usable nodes of a compact list are those of its whole entries. */
  lemma {:induction false} NodeListed(s: string, a: Address)
    ensures a in CompactNodes(s) <==> UsableNode(a) && HasNode(s, a)
    decreases |s|
  {
    if |s| >= NODE_COMPACT_SIZE {
      var t := s[NODE_COMPACT_SIZE..];
      NodeListed(t, a);
      assert NodeAt(s, 0) == s[20..26];
      NodesMove(s);
      assert HasNode(s, a) <==> s[20..26] == a || HasNode(t, a) by {
        if HasNode(t, a) {
          var k: nat :| IsNode(t, k) && NodeAt(t, k) == a;
          assert IsNode(s, k + 1);
        }
        if HasNode(s, a) {
          var k: nat :| IsNode(s, k) && NodeAt(s, k) == a;
          assert k > 0 ==> IsNode(t, k - 1);
        }
      }
    }
  }

  lemma NodesMove(s: string)
    requires |s| >= NODE_COMPACT_SIZE
    ensures forall k: nat | k > 0 :: IsNode(s, k) <==> IsNode(s[NODE_COMPACT_SIZE..], k - 1)
    ensures forall k: nat | k > 0 && IsNode(s, k) :: NodeAt(s, k) == NodeAt(s[NODE_COMPACT_SIZE..], k - 1)
  {
  }

  predicate IsNode(s: string, k: nat) {
    k * NODE_COMPACT_SIZE + NODE_COMPACT_SIZE <= |s|
  }

  ghost predicate HasNode(s: string, a: Address) {
    exists k: nat :: IsNode(s, k) && NodeAt(s, k) == a
  }

  /** The address in the `k`-th entry of a compact node list. */
  function NodeAt(s: string, k: nat): Address {
    if IsNode(s, k) then s[k * NODE_COMPACT_SIZE + 20..k * NODE_COMPACT_SIZE + 26] else ""
  }
}
