/** The iterative peer lookup and the announce store of qvs-dht; the network is an oracle. */
module Krpc {
  import opened Wrappers
  import opened Identifiers
  import opened Sorting
  import opened RoutingModel
  import opened Routing

  const MAX_PEERS_PER_HASH: nat := 50
  const MAX_ROUNDS: nat := 8

  datatype Contact = Contact(nodeId: NodeId, addr: Addr)

  /** What a query brings back: nothing usable, a list of peers, or a list of nodes. */
  datatype Reply = Silence | Peers(peers: seq<Addr>) | Nodes(nodes: seq<Contact>)

  /** The reply to the k-th query, sent to an address. */
  type Network = (nat, Addr) -> Reply

  type PeerStore = map<NodeId, seq<Addr>>

  datatype Outcome = Outcome(peers: seq<Addr>, closestNodes: seq<Entry>)

  // ----- The peer store -----

  /** Peers are appended while there is room for one more. */
  function StorePeers(list: seq<Addr>, peers: seq<Addr>): (r: seq<Addr>)
    ensures |list| <= MAX_PEERS_PER_HASH ==> |r| <= MAX_PEERS_PER_HASH
    ensures list <= r
    decreases |peers|
  {
    if peers == [] then list
    else StorePeers(if |list| < MAX_PEERS_PER_HASH then list + [peers[0]] else list, peers[1..])
  }

  /** Storing keeps what was there and adds the first new peers until the list is full. */
  lemma {:induction false} StoreFillsUp(list: seq<Addr>, peers: seq<Addr>)
    requires |list| <= MAX_PEERS_PER_HASH
    ensures var room := MAX_PEERS_PER_HASH - |list|;
            StorePeers(list, peers) == list + (if |peers| <= room then peers else peers[..room])
    decreases |peers|
  {
    if peers != [] {
      if |list| < MAX_PEERS_PER_HASH {
        StoreFillsUp(list + [peers[0]], peers[1..]);
        StoreOne(list, peers, MAX_PEERS_PER_HASH - |list|);
      } else {
        StoreFillsUp(list, peers[1..]);
        assert peers[1..][..0] == peers[..0] == [];
      }
    }
  }

  lemma StoreOne(list: seq<Addr>, peers: seq<Addr>, room: nat)
    requires peers != [] && room > 0
    ensures var rest := peers[1..];
            list + [peers[0]] + (if |rest| <= room - 1 then rest else rest[..room - 1])
            == list + (if |peers| <= room then peers else peers[..room])
  {
    assert peers == [peers[0]] + peers[1..];
    if room < |peers| {
      assert peers[..room] == [peers[0]] + peers[1..][..room - 1];
    }
  }

  function Stored(store: PeerStore, hash: NodeId): seq<Addr> {
    if hash in store then store[hash] else []
  }

  ghost predicate Bounded(store: PeerStore) {
    forall h <- store :: |store[h]| <= MAX_PEERS_PER_HASH
  }

  /** What is offered for a hash: a peer that announces itself, its token good or not, or the peers a lookup found. */
  datatype Offer = Announced(hash: NodeId, peer: Addr, tokenOk: bool) | Found(hash: NodeId, peers: seq<Addr>)

  ghost function Offered(offer: Offer): seq<Addr> {
    match offer
    case Announced(_, peer, tokenOk) => if tokenOk then [peer] else []
    case Found(_, peers) => peers
  }

  /** The store after these offers, the last one last. */
  ghost function StoreRun(offers: seq<Offer>): PeerStore {
    if offers == [] then map[]
    else
      var store, offer := StoreRun(offers[..|offers| - 1]), offers[|offers| - 1];
      if Offered(offer) == [] then store
      else store[offer.hash := StorePeers(Stored(store, offer.hash), Offered(offer))]
  }

  /** Everything offered for one hash, in order. */
  ghost function AllOffered(offers: seq<Offer>, hash: NodeId): seq<Addr> {
    if offers == [] then []
    else
      var before, offer := AllOffered(offers[..|offers| - 1], hash), offers[|offers| - 1];
      if offer.hash == hash then before + Offered(offer) else before
  }

  /** In every run of announces and lookups a hash keeps the first fifty peers offered for it. */
  lemma {:induction false} StoreInRun(offers: seq<Offer>, hash: NodeId)
    ensures var all, store := AllOffered(offers, hash), StoreRun(offers);
            (if hash in store then store[hash] else []) == if |all| <= 50 then all else all[..50]
  {
    if offers != [] {
      var front, offer := offers[..|offers| - 1], offers[|offers| - 1];
      StoreInRun(front, hash);
      if offer.hash == hash && Offered(offer) != [] {
        StoreFillsUp(Stored(StoreRun(front), hash), Offered(offer));
        FirstOf(AllOffered(front, hash), Offered(offer), MAX_PEERS_PER_HASH);
      }
    }
  }

  lemma FirstOf(a: seq<Addr>, b: seq<Addr>, n: nat)
    ensures var first := if |a| <= n then a else a[..n];
            first + (if |b| <= n - |first| then b else b[..n - |first|]) == if |a + b| <= n then a + b else (a + b)[..n]
  {
  }

  // ----- The shortlist -----

  ghost predicate DistinctAddrs(s: seq<Entry>) {
    forall i, j :: 0 <= i < |s| && 0 <= j < |s| && i != j ==> s[i].addr != s[j].addr
  }

  ghost function AddrsOf(s: seq<Entry>): set<Addr> {
    set e | e in s :: e.addr
  }

  function HasAddr(s: seq<Entry>, addr: Addr): (b: bool)
    ensures b <==> addr in AddrsOf(s)
  {
    exists i :: 0 <= i < |s| && s[i].addr == addr
  }

  function FromNode(n: Contact, now: nat): Entry {
    Entry(n.nodeId, n.addr, now, 0, false)
  }

  /** Nodes join the shortlist unless their address is already there or was already queried. */
  function Absorb(s: seq<Entry>, queried: set<Addr>, nodes: seq<Contact>, now: nat): seq<Entry>
    decreases |nodes|
  {
    if nodes == [] then s
    else if HasAddr(s, nodes[0].addr) || nodes[0].addr in queried then Absorb(s, queried, nodes[1..], now)
    else Absorb(s + [FromNode(nodes[0], now)], queried, nodes[1..], now)
  }

  ghost predicate Reported(e: Entry, nodes: seq<Contact>, now: nat) {
    exists n <- nodes :: e == Entry(n.nodeId, n.addr, now, 0, false)
  }

  /** Absorbing keeps the shortlist and its distinctness, adds reported nodes only, and misses no address. */
  lemma {:induction false} AbsorbMeaning(s: seq<Entry>, queried: set<Addr>, nodes: seq<Contact>, now: nat)
    ensures var s' := Absorb(s, queried, nodes, now);
            && s <= s'
            && (DistinctAddrs(s) ==> DistinctAddrs(s'))
            && (forall e <- s' :: e in s || (Reported(e, nodes, now) && e.addr !in queried))
            && (forall n <- nodes :: n.addr in AddrsOf(s') + queried)
    decreases |nodes|
  {
    if nodes != [] {
      var n := nodes[0];
      var s1 := if HasAddr(s, n.addr) || n.addr in queried then s else s + [FromNode(n, now)];
      AbsorbMeaning(s1, queried, nodes[1..], now);
      var s' := Absorb(s1, queried, nodes[1..], now);
      assert n.addr in AddrsOf(s1) + queried by {
        if s1 != s {
          assert s1[|s|] == FromNode(n, now);
        }
      }
      PrefixAddrs(s1, s');
      forall e <- s' ensures e in s || (Reported(e, nodes, now) && e.addr !in queried) {
        if e !in s1 {
          var m :| m in nodes[1..] && e == FromNode(m, now);
          assert m in nodes;
        } else if e !in s {
          assert n in nodes;
        }
      }
    }
  }

  /** Of the nodes reported with one new address the first one joins. */
  lemma {:induction false} AbsorbFirst(s: seq<Entry>, queried: set<Addr>, nodes: seq<Contact>, now: nat, i: nat)
    requires i < |nodes| && nodes[i].addr !in AddrsOf(s) + queried
    requires forall j :: 0 <= j < i ==> nodes[j].addr != nodes[i].addr
    ensures Entry(nodes[i].nodeId, nodes[i].addr, now, 0, false) in Absorb(s, queried, nodes, now)
    decreases |nodes|
  {
    var n := nodes[0];
    var s1 := if HasAddr(s, n.addr) || n.addr in queried then s else s + [FromNode(n, now)];
    if i == 0 {
      AbsorbMeaning(s1, queried, nodes[1..], now);
      assert Absorb(s1, queried, nodes[1..], now)[|s|] == s1[|s|] == FromNode(n, now);
    } else {
      assert forall e <- s1 :: e in s || e.addr == n.addr;
      AbsorbFirst(s1, queried, nodes[1..], now, i - 1);
    }
  }

  lemma PrefixAddrs(s: seq<Entry>, s': seq<Entry>)
    requires s <= s'
    ensures AddrsOf(s) <= AddrsOf(s')
  {
    forall e | e in s ensures e in s' {
      var i :| 0 <= i < |s| && s[i] == e;
      assert s'[i] == e;
    }
  }

  /** The first `alpha` entries not yet queried. */
  function ToQuery(s: seq<Entry>, queried: set<Addr>, alpha: nat): (r: seq<Entry>)
    ensures |r| <= alpha
    ensures forall e <- r :: e in s && e.addr !in queried
  {
    if s == [] || alpha == 0 then []
    else if s[0].addr in queried then ToQuery(s[1..], queried, alpha)
    else [s[0]] + ToQuery(s[1..], queried, alpha - 1)
  }

  lemma {:induction false} ToQueryDistinct(s: seq<Entry>, queried: set<Addr>, alpha: nat)
    requires DistinctAddrs(s)
    ensures DistinctAddrs(ToQuery(s, queried, alpha))
  {
    if s != [] && alpha > 0 {
      assert DistinctAddrs(s[1..]);
      ToQueryDistinct(s[1..], queried, alpha);
      ToQueryDistinct(s[1..], queried, alpha - 1);
      forall e <- s[1..] ensures e.addr != s[0].addr {
        var i :| 0 <= i < |s[1..]| && s[1..][i] == e;
        assert s[i + 1] == e;
      }
    }
  }

  function Front(s: seq<Entry>, n: nat): seq<Entry> {
    if n <= |s| then s[..n] else s
  }

  lemma FrontOne(s: seq<Entry>, n: nat)
    requires s != [] && n > 0
    ensures Front(s, n) == [s[0]] + Front(s[1..], n - 1)
  {
    assert s == [s[0]] + s[1..];
    if n <= |s| {
      assert s[..n] == [s[0]] + s[1..][..n - 1];
    }
  }

  /** Before anything was queried it is simply the front of the shortlist, repeated addresses included. */
  lemma {:induction false} FirstBatch(s: seq<Entry>, alpha: nat)
    ensures ToQuery(s, {}, alpha) == Front(s, alpha)
  {
    if s != [] && alpha > 0 {
      hide Front;
      FirstBatch(s[1..], alpha - 1);
      FrontOne(s, alpha);
    }
  }

  /** It is empty only when everything on the shortlist was queried (or `alpha` is zero). */
  lemma {:induction false} NothingToQuery(s: seq<Entry>, queried: set<Addr>, alpha: nat)
    requires ToQuery(s, queried, alpha) == [] && alpha > 0
    ensures AddrsOf(s) <= queried
  {
    if s != [] {
      NothingToQuery(s[1..], queried, alpha);
      forall e <- s ensures e.addr in queried {
        assert e == s[0] || e in s[1..];
      }
    }
  }

  lemma SortKeepsShortlist(s: seq<Entry>, target: NodeId)
    ensures var r := SortByDistance(s, target);
            && |r| == |s| && (forall e :: e in r <==> e in s)
            && AddrsOf(r) == AddrsOf(s)
            && (DistinctAddrs(s) ==> DistinctAddrs(r))
            && (forall i :: 0 < i < |r| ==> Nearer(target, r[0].nodeId, r[i].nodeId))
  {
    var r := SortByDistance(s, target);
    SortPermutes(s, NearerEntry(target));
    NearerPreorder(target);
    SortSorts(s, NearerEntry(target));
    forall i | 0 < i < |r| ensures Nearer(target, r[0].nodeId, r[i].nodeId) {
      assert NearerEntry(target)(r[0], r[i]);
    }
    if DistinctAddrs(s) {
      PairwisePermutation(s, r, (x: Entry, y: Entry) => x.addr != y.addr);
    }
  }

  // ----- The lookup -----

  /** The queries sent, in order, and the nearest identifier known after each round. */
  datatype Trace = Trace(queries: seq<Addr>, closest: seq<NodeId>)

  /** The shortlist, the queries sent so far, and the peers that ended the lookup, if any did. */
  datatype Lookup = Lookup(shortlist: seq<Entry>, queries: seq<Addr>, found: seq<Addr>)

  function SetOf(s: seq<Addr>): set<Addr> {
    set a | a in s
  }

  /** One query and what its reply does. */
  function Ask(l: Lookup, addr: Addr, network: Network, now: nat): Lookup {
    var queries := l.queries + [addr];
    match network(|l.queries|, addr)
    case Silence => l.(queries := queries)
    case Peers(peers) => l.(queries := queries, found := peers)
    case Nodes(nodes) => l.(queries := queries, shortlist := Absorb(l.shortlist, SetOf(queries), nodes, now))
  }

  /** Queries the entries in turn; peers end it at once. */
  function AskAll(toQuery: seq<Entry>, l: Lookup, network: Network, now: nat): Lookup
    decreases |toQuery|
  {
    if toQuery == [] || l.found != [] then l
    else AskAll(toQuery[1..], Ask(l, toQuery[0].addr, network, now), network, now)
  }

  function Sorted(l: Lookup, hash: NodeId): Lookup {
    l.(shortlist := SortByDistance(l.shortlist, hash))
  }

  function Batch(l: Lookup, hash: NodeId, alpha: nat): seq<Entry> {
    ToQuery(Sorted(l, hash).shortlist, SetOf(l.queries), alpha)
  }

  /** Sort, pick, query; and, unless peers turned up, sort again to see who is nearest. */
  function Round(l: Lookup, hash: NodeId, alpha: nat, network: Network, now: nat): Lookup {
    var asked := AskAll(Batch(l, hash, alpha), Sorted(l, hash), network, now);
    if asked.found != [] then asked else Sorted(asked, hash)
  }

  /** A lookup between rounds: where it is, the nearest identifier after each round, and whether it is over. */
  datatype Status = Status(l: Lookup, closest: seq<NodeId>, over: bool)

  function NextRound(s: Status, hash: NodeId, alpha: nat, network: Network, now: nat): Status {
    if Batch(s.l, hash, alpha) == [] then Status(Sorted(s.l, hash), s.closest, true)
    else
      var l := Round(s.l, hash, alpha, network, now);
      if l.found != [] || l.shortlist == [] then Status(l, s.closest, true)
      else
        var nearest := l.shortlist[0].nodeId;
        if s.closest != [] && s.closest[|s.closest| - 1] == nearest then Status(l, s.closest, true)
        else Status(l, s.closest + [nearest], |l.shortlist| == |s.l.shortlist|)
  }

  /** The round, told apart by whether anything was asked. */
  lemma NextRoundCases(s: Status, hash: NodeId, alpha: nat, network: Network, now: nat)
    ensures var next, l := NextRound(s, hash, alpha, network, now), Round(s.l, hash, alpha, network, now);
            if Batch(s.l, hash, alpha) == [] then next == Status(Sorted(s.l, hash), s.closest, true)
            else if l.found != [] || l.shortlist == [] then next == Status(l, s.closest, true)
            else if s.closest != [] && s.closest[|s.closest| - 1] == l.shortlist[0].nodeId
            then next == Status(l, s.closest, true)
            else next == Status(l, s.closest + [l.shortlist[0].nodeId], |l.shortlist| == |s.l.shortlist|)
  {
  }

  /** At most `left` rounds, fewer if the lookup is over before. */
  function Rounds(left: nat, s: Status, next: Status -> Status): Status {
    if left == 0 || s.over then s else Rounds(left - 1, next(s), next)
  }

  /** What every round keeps holds at the end, with some number of rounds unused. */
  lemma {:induction false} RoundsKeep(left: nat, s: Status, next: Status -> Status, inv: (nat, Status) -> bool)
    returns (unused: nat)
    requires inv(left, s) && forall n: nat, x: Status | n > 0 && !x.over && inv(n, x) :: inv(n - 1, next(x))
    ensures unused <= left && inv(unused, Rounds(left, s, next))
  {
    if left == 0 || s.over {
      unused := left;
    } else {
      unused := RoundsKeep(left - 1, next(s), next, inv);
    }
  }

  function Rounder(hash: NodeId, alpha: nat, network: Network, now: nat): Status -> Status {
    (s: Status) => NextRound(s, hash, alpha, network, now)
  }

  function Begin(initial: seq<Entry>): Status {
    Status(Lookup(initial, [], []), [], false)
  }

  /** A lookup of at most `limit` rounds. */
  function LookUp(limit: nat, initial: seq<Entry>, hash: NodeId, alpha: nat, network: Network, now: nat)
    : (Outcome, Trace)
  {
    Report(Rounds(limit, Begin(initial), Rounder(hash, alpha, network, now)))
  }

  function Report(s: Status): (Outcome, Trace) {
    (Outcome(s.l.found, s.l.shortlist), Trace(s.l.queries, s.closest))
  }

  // ----- What it keeps -----

  /** Every entry was there at the start or was reported in a reply to one of the queries. */
  ghost predicate Known(s: seq<Entry>, initial: seq<Entry>, network: Network, queries: seq<Addr>, now: nat) {
    && (forall e <- initial :: e in s)
    && (forall e <- s :: e in initial || Heard(e, network, queries, now))
  }

  ghost predicate Heard(e: Entry, network: Network, queries: seq<Addr>, now: nat) {
    exists k :: 0 <= k < |queries| && network(k, queries[k]).Nodes? && Reported(e, network(k, queries[k]).nodes, now)
  }

  /** No peers came back from any of the queries. */
  ghost predicate NoPeers(network: Network, queries: seq<Addr>) {
    forall k :: 0 <= k < |queries| ==> network(k, queries[k]).Peers? ==> network(k, queries[k]).peers == []
  }

  /** The lookup holds peers exactly if its last reply was the first to hold any. */
  ghost predicate LastReply(network: Network, queries: seq<Addr>, found: seq<Addr>) {
    if found == [] then NoPeers(network, queries)
    else
      && queries != []
      && network(|queries| - 1, queries[|queries| - 1]) == Peers(found)
      && NoPeers(network, queries[..|queries| - 1])
  }

  ghost predicate Progress(l: Lookup, initial: seq<Entry>, network: Network, now: nat) {
    && SetOf(l.queries) <= AddrsOf(l.shortlist)
    && Known(l.shortlist, initial, network, l.queries, now)
    && (DistinctAddrs(initial) ==> DistinctAddrs(l.shortlist))
    && LastReply(network, l.queries, l.found)
  }

  /** Each identifier is strictly nearer to the target than the ones before it. */
  ghost predicate EverNearer(closest: seq<NodeId>, target: NodeId) {
    forall i, j :: 0 <= i < j < |closest| ==> !Nearer(target, closest[i], closest[j])
  }

  lemma HeardMore(e: Entry, network: Network, queries: seq<Addr>, addr: Addr, now: nat)
    requires Heard(e, network, queries, now)
    ensures Heard(e, network, queries + [addr], now)
  {
    var k :| 0 <= k < |queries| && network(k, queries[k]).Nodes? && Reported(e, network(k, queries[k]).nodes, now);
    assert (queries + [addr])[k] == queries[k];
  }

  /** Only the shortlist grows: nothing leaves it, and what joins was reported just now. */
  lemma AskShortlist(l: Lookup, addr: Addr, network: Network, now: nat)
    ensures var l' := Ask(l, addr, network, now);
            && |l.shortlist| <= |l'.shortlist| && AddrsOf(l.shortlist) <= AddrsOf(l'.shortlist)
            && (forall e <- l.shortlist :: e in l'.shortlist)
            && (DistinctAddrs(l.shortlist) ==> DistinctAddrs(l'.shortlist))
            && (forall e <- l'.shortlist :: e in l.shortlist
                  || (network(|l.queries|, addr).Nodes? && Reported(e, network(|l.queries|, addr).nodes, now)))
  {
    var l' := Ask(l, addr, network, now);
    if network(|l.queries|, addr).Nodes? {
      AbsorbMeaning(l.shortlist, SetOf(l'.queries), network(|l.queries|, addr).nodes, now);
      PrefixAddrs(l.shortlist, l'.shortlist);
      forall e <- l.shortlist ensures e in l'.shortlist {
        var i :| 0 <= i < |l.shortlist| && l.shortlist[i] == e;
        assert l'.shortlist[i] == e;
      }
    }
  }

  lemma AskKeepsKnown(l: Lookup, addr: Addr, initial: seq<Entry>, network: Network, now: nat)
    requires Known(l.shortlist, initial, network, l.queries, now)
    ensures var l' := Ask(l, addr, network, now); Known(l'.shortlist, initial, network, l'.queries, now)
  {
    var l' := Ask(l, addr, network, now);
    AskShortlist(l, addr, network, now);
    forall x <- l'.shortlist ensures x in initial || Heard(x, network, l'.queries, now) {
      if x in l.shortlist {
        if x !in initial {
          HeardMore(x, network, l.queries, addr, now);
        }
      } else {
        assert l'.queries[|l.queries|] == addr;
      }
    }
  }

  lemma AskKeepsLastReply(l: Lookup, addr: Addr, network: Network, now: nat)
    requires LastReply(network, l.queries, l.found) && l.found == []
    ensures var l' := Ask(l, addr, network, now); LastReply(network, l'.queries, l'.found)
  {
    hide Absorb;
    var l' := Ask(l, addr, network, now);
    assert l'.queries[..|l'.queries| - 1] == l.queries;
  }

  lemma AskKeepsProgress(l: Lookup, e: Entry, initial: seq<Entry>, network: Network, now: nat)
    requires Progress(l, initial, network, now) && l.found == [] && e.addr in AddrsOf(l.shortlist)
    ensures Progress(Ask(l, e.addr, network, now), initial, network, now)
  {
    hide Absorb, Known, LastReply;
    AskShortlist(l, e.addr, network, now);
    AskKeepsKnown(l, e.addr, initial, network, now);
    AskKeepsLastReply(l, e.addr, network, now);
    assert SetOf(Ask(l, e.addr, network, now).queries) == SetOf(l.queries) + {e.addr};
  }

  lemma {:induction false} AskAllKeepsProgress(
    toQuery: seq<Entry>, l: Lookup, initial: seq<Entry>, network: Network, now: nat)
    requires Progress(l, initial, network, now) && forall e <- toQuery :: e.addr in AddrsOf(l.shortlist)
    ensures var l' := AskAll(toQuery, l, network, now);
            && Progress(l', initial, network, now)
            && |l.shortlist| <= |l'.shortlist| && (forall e <- l.shortlist :: e in l'.shortlist)
            && |l'.queries| <= |l.queries| + |toQuery|
    decreases |toQuery|
  {
    if toQuery != [] && l.found == [] {
      var l1 := Ask(l, toQuery[0].addr, network, now);
      AskKeepsProgress(l, toQuery[0], initial, network, now);
      AskShortlist(l, toQuery[0].addr, network, now);
      assert forall e <- toQuery[1..] :: e in toQuery;
      AskAllKeepsProgress(toQuery[1..], l1, initial, network, now);
    }
  }

  lemma SortKeepsProgress(l: Lookup, hash: NodeId, initial: seq<Entry>, network: Network, now: nat)
    requires Progress(l, initial, network, now)
    ensures Progress(Sorted(l, hash), initial, network, now)
  {
    SortKeepsShortlist(l.shortlist, hash);
  }

  /** A round keeps the accounts, sends no more than a batch, and ends with the nearest node in front. */
  lemma RoundKeepsProgress(l: Lookup, hash: NodeId, alpha: nat, initial: seq<Entry>, network: Network, now: nat)
    requires Progress(l, initial, network, now) && l.found == []
    ensures var l' := Round(l, hash, alpha, network, now);
            && Progress(l', initial, network, now)
            && |l.shortlist| <= |l'.shortlist| && |l'.queries| <= |l.queries| + alpha
            && (forall e <- l.shortlist :: e in l'.shortlist)
            && (l'.found == [] ==> forall e <- l'.shortlist :: Nearer(hash, l'.shortlist[0].nodeId, e.nodeId))
  {
    var sorted := Sorted(l, hash);
    SortKeepsProgress(l, hash, initial, network, now);
    SortKeepsShortlist(l.shortlist, hash);
    var batch := Batch(l, hash, alpha);
    forall e <- batch ensures e.addr in AddrsOf(sorted.shortlist) {
    }
    AskAllKeepsProgress(batch, sorted, initial, network, now);
    var asked := AskAll(batch, sorted, network, now);
    if asked.found == [] {
      SortKeepsProgress(asked, hash, initial, network, now);
      SortKeepsShortlist(asked.shortlist, hash);
      if asked.shortlist != [] {
        NearestOfAll(Sorted(asked, hash).shortlist, hash);
      }
    }
  }

  lemma NearestOfAll(s: seq<Entry>, target: NodeId)
    requires s != [] && forall i :: 0 < i < |s| ==> Nearer(target, s[0].nodeId, s[i].nodeId)
    ensures forall e <- s :: Nearer(target, s[0].nodeId, e.nodeId)
  {
    NearerTotal(target, s[0].nodeId, s[0].nodeId);
  }

  /** At most as far and not the same is strictly nearer. */
  lemma EverNearerSnoc(closest: seq<NodeId>, id: NodeId, target: NodeId)
    requires EverNearer(closest, target)
    requires closest != [] ==> id != closest[|closest| - 1] && Nearer(target, id, closest[|closest| - 1])
    ensures EverNearer(closest + [id], target)
  {
    var longer := closest + [id];
    forall i, j | 0 <= i < j < |longer| ensures !Nearer(target, longer[i], longer[j]) {
      if j == |closest| {
        var last := closest[|closest| - 1];
        NearerTotal(target, id, last);
        if i < |closest| - 1 && Nearer(target, closest[i], id) {
          NearerTransitive(target, closest[i], id, last);
        }
      }
    }
  }

  ghost predicate NearestKnown(s: seq<Entry>, closest: seq<NodeId>) {
    closest != [] ==> exists e <- s :: e.nodeId == closest[|closest| - 1]
  }

  /** The accounts with `left` of `limit` rounds to go. */
  ghost predicate Kept(
    limit: nat, left: nat, s: Status, hash: NodeId, alpha: nat, initial: seq<Entry>, network: Network, now: nat)
  {
    && Progress(s.l, initial, network, now)
    && |s.l.queries| + left * alpha <= limit * alpha && |s.closest| + left <= limit
    && EverNearer(s.closest, hash)
    && (!s.over ==> s.l.found == [] && NearestKnown(s.l.shortlist, s.closest))
  }

  /** The nearest node after a round, if it is another one, is nearer than the nearest before it. */
  lemma NearestJoins(before: seq<Entry>, after: seq<Entry>, closest: seq<NodeId>, hash: NodeId)
    requires after != [] && (forall e <- before :: e in after)
    requires forall e <- after :: Nearer(hash, after[0].nodeId, e.nodeId)
    requires EverNearer(closest, hash) && NearestKnown(before, closest)
    ensures NearestKnown(after, closest + [after[0].nodeId])
    ensures closest == [] || closest[|closest| - 1] != after[0].nodeId ==>
              EverNearer(closest + [after[0].nodeId], hash)
  {
    if closest == [] || closest[|closest| - 1] != after[0].nodeId {
      EverNearerSnoc(closest, after[0].nodeId, hash);
    }
    assert after[0] in after;
  }

  lemma NextRoundKeeps(
    limit: nat, left: nat, s: Status, hash: NodeId, alpha: nat, initial: seq<Entry>, network: Network, now: nat)
    requires left > 0 && !s.over && Kept(limit, left, s, hash, alpha, initial, network, now)
    ensures Kept(limit, left - 1, NextRound(s, hash, alpha, network, now), hash, alpha, initial, network, now)
  {
    hide NextRound, Round, Batch, Progress, EverNearer;
    assert left * alpha == (left - 1) * alpha + alpha;
    NextRoundCases(s, hash, alpha, network, now);
    if Batch(s.l, hash, alpha) == [] {
      SortKeepsProgress(s.l, hash, initial, network, now);
    } else {
      RoundKeepsProgress(s.l, hash, alpha, initial, network, now);
      var l := Round(s.l, hash, alpha, network, now);
      if l.found == [] && l.shortlist != [] {
        NearestJoins(s.l.shortlist, l.shortlist, s.closest, hash);
      }
    }
  }

  // ----- What a lookup asks, and when it stops -----

  /** What a lookup starts from. */
  datatype Instance = Instance(initial: seq<Entry>, hash: NodeId, alpha: nat, network: Network, now: nat)

  /** The entries known once the replies to these queries are in, in the order they became known. */
  ghost function Pool(c: Instance, queries: seq<Addr>): seq<Entry> {
    if queries == [] then c.initial
    else
      var k := |queries| - 1;
      var before := Pool(c, queries[..k]);
      if c.network(k, queries[k]).Nodes?
      then Absorb(before, SetOf(queries), c.network(k, queries[k]).nodes, c.now)
      else before
  }

  /** The entries whose address was not asked yet, in order. */
  ghost function Unasked(s: seq<Entry>, asked: set<Addr>): seq<Entry> {
    if s == [] then []
    else if s[0].addr in asked then Unasked(s[1..], asked)
    else [s[0]] + Unasked(s[1..], asked)
  }

  /** `batch` lists the `alpha` nearest of the entries, nearest first, or all of them if there are fewer. */
  ghost predicate NearestFirst(batch: seq<Entry>, entries: seq<Entry>, alpha: nat, target: NodeId) {
    && |batch| == (if alpha < |entries| then alpha else |entries|)
    && exists rest: seq<Entry> ::
         multiset(batch + rest) == multiset(entries) && SortedBy(batch + rest, NearerEntry(target))
  }

  /** The addresses of all batches, in order. */
  ghost function Asked(batches: seq<seq<Entry>>): seq<Addr> {
    if batches == [] then [] else Asked(batches[..|batches| - 1]) + Addrs(batches[|batches| - 1])
  }

  /** The r-th round asks the nearest known entries not asked before, and there is one. */
  ghost predicate RightBatch(c: Instance, batches: seq<seq<Entry>>, r: nat)
    requires r < |batches|
  {
    var asked := Asked(batches[..r]);
    batches[r] != [] && NearestFirst(batches[r], Unasked(Pool(c, asked), SetOf(asked)), c.alpha, c.hash)
  }

  ghost predicate FoundNearer(before: seq<Entry>, after: seq<Entry>, target: NodeId) {
    exists x <- after :: forall e <- before :: !Nearer(target, e.nodeId, x.nodeId)
  }

  /** The r-th round brought a new address and, unless it was the first, a node nearer than all known before it. */
  ghost predicate GoesOn(c: Instance, batches: seq<seq<Entry>>, r: nat)
    requires r < |batches|
  {
    var before, after := Pool(c, Asked(batches[..r])), Pool(c, Asked(batches[..r + 1]));
    |before| < |after| && (r > 0 ==> FoundNearer(before, after, c.hash))
  }

  /** Nothing is left to ask, or the last round gave no reason for another. */
  ghost predicate Exhausted(c: Instance, batches: seq<seq<Entry>>) {
    || c.alpha == 0
    || AddrsOf(Pool(c, Asked(batches))) <= SetOf(Asked(batches))
    || (batches != [] && !GoesOn(c, batches, |batches| - 1))
  }

  /**
   Round after round the nearest known entries not asked before are asked. The first peers end the lookup; without
   any it goes on until `limit` rounds were run, nothing is left to ask, or a round gave no reason for another.
   Every entry that became known is returned, nearest first unless peers came.
   */
  ghost predicate RightLookup(limit: nat, c: Instance, o: Outcome, queries: seq<Addr>, batches: seq<seq<Entry>>) {
    && |batches| <= limit
    && (forall r :: 0 <= r < |batches| ==> RightBatch(c, batches, r))
    && (forall r :: 0 <= r < |batches| - 1 ==> GoesOn(c, batches, r))
    && LastReply(c.network, queries, o.peers)
    && (if o.peers == [] then queries == Asked(batches) && (|batches| == limit || Exhausted(c, batches))
        else batches != [] && Asked(batches[..|batches| - 1]) < queries <= Asked(batches))
    && multiset(o.closestNodes) == multiset(Pool(c, queries))
    && (o.peers == [] && limit > 0 ==> SortedBy(o.closestNodes, NearerEntry(c.hash)))
  }

  lemma {:induction false} AbsorbPermutes(
    s: seq<Entry>, t: seq<Entry>, queried: set<Addr>, nodes: seq<Contact>, now: nat)
    requires multiset(s) == multiset(t)
    ensures multiset(Absorb(s, queried, nodes, now)) == multiset(Absorb(t, queried, nodes, now))
    decreases |nodes|
  {
    if nodes != [] {
      SameElements(s, t);
      assert AddrsOf(s) == AddrsOf(t);
      var n := nodes[0];
      if HasAddr(s, n.addr) || n.addr in queried {
        AbsorbPermutes(s, t, queried, nodes[1..], now);
      } else {
        AbsorbPermutes(s + [FromNode(n, now)], t + [FromNode(n, now)], queried, nodes[1..], now);
      }
    }
  }

  /** The shortlist is a reordering of all that is known. */
  ghost predicate ListsPool(l: Lookup, c: Instance) {
    multiset(l.shortlist) == multiset(Pool(c, l.queries))
  }

  lemma AskListsPool(l: Lookup, addr: Addr, c: Instance)
    requires ListsPool(l, c)
    ensures ListsPool(Ask(l, addr, c.network, c.now), c)
    ensures Ask(l, addr, c.network, c.now).queries == l.queries + [addr]
  {
    hide Absorb;
    var queries := l.queries + [addr];
    assert queries[..|l.queries|] == l.queries;
    if c.network(|l.queries|, addr).Nodes? {
      var nodes := c.network(|l.queries|, addr).nodes;
      AbsorbPermutes(l.shortlist, Pool(c, l.queries), SetOf(queries), nodes, c.now);
    }
  }

  /** The batch is asked in order, up to the first peers. */
  lemma {:induction false} AskAllRight(toQuery: seq<Entry>, l: Lookup, c: Instance)
    requires ListsPool(l, c) && LastReply(c.network, l.queries, l.found)
    ensures var l' := AskAll(toQuery, l, c.network, c.now);
            && ListsPool(l', c) && LastReply(c.network, l'.queries, l'.found)
            && (l.found == [] ==>
                  && l.queries <= l'.queries <= l.queries + Addrs(toQuery)
                  && (if l'.found == [] then l'.queries == l.queries + Addrs(toQuery)
                      else |l.queries| < |l'.queries|))
    decreases |toQuery|
  {
    hide Ask, ListsPool, LastReply;
    if toQuery != [] && l.found == [] {
      var l1 := Ask(l, toQuery[0].addr, c.network, c.now);
      AskListsPool(l, toQuery[0].addr, c);
      AskKeepsLastReply(l, toQuery[0].addr, c.network, c.now);
      AskAllRight(toQuery[1..], l1, c);
      assert Addrs(toQuery) == [toQuery[0].addr] + Addrs(toQuery[1..]);
    } else {
      assert toQuery == [] ==> Addrs(toQuery) == [];
    }
  }

  // How a batch is picked.

  lemma {:induction false} UnaskedCount(s: seq<Entry>, asked: set<Addr>, e: Entry)
    ensures multiset(Unasked(s, asked))[e] == if e.addr in asked then 0 else multiset(s)[e]
  {
    if s != [] {
      UnaskedCount(s[1..], asked, e);
      assert s == [s[0]] + s[1..];
    }
  }

  lemma UnaskedPermutes(s: seq<Entry>, t: seq<Entry>, asked: set<Addr>)
    requires multiset(s) == multiset(t)
    ensures multiset(Unasked(s, asked)) == multiset(Unasked(t, asked))
    ensures |Unasked(s, asked)| == |Unasked(t, asked)|
  {
    forall e: Entry ensures multiset(Unasked(s, asked))[e] == multiset(Unasked(t, asked))[e] {
      UnaskedCount(s, asked, e);
      UnaskedCount(t, asked, e);
    }
    assert |multiset(Unasked(s, asked))| == |Unasked(s, asked)|;
    assert |multiset(Unasked(t, asked))| == |Unasked(t, asked)|;
  }

  lemma {:induction false} UnaskedElements(s: seq<Entry>, asked: set<Addr>)
    ensures forall i :: 0 <= i < |Unasked(s, asked)| ==> Unasked(s, asked)[i] in s
  {
    if s != [] {
      UnaskedElements(s[1..], asked);
      assert forall e :: e in s[1..] ==> e in s;
    }
  }

  lemma {:induction false} UnaskedSorted(s: seq<Entry>, asked: set<Addr>, leq: (Entry, Entry) -> bool)
    requires SortedBy(s, leq)
    ensures SortedBy(Unasked(s, asked), leq)
  {
    if s != [] {
      var rest := Unasked(s[1..], asked);
      UnaskedSorted(s[1..], asked, leq);
      UnaskedElements(s[1..], asked);
      forall j | 0 <= j < |rest| ensures leq(s[0], rest[j]) {
        var i :| 0 <= i < |s[1..]| && s[1..][i] == rest[j];
        assert s[i + 1] == rest[j];
      }
    }
  }

  lemma FrontCons(e: Entry, s: seq<Entry>, n: nat)
    requires n > 0
    ensures Front([e] + s, n) == [e] + Front(s, n - 1)
  {
    FrontOne([e] + s, n);
    assert ([e] + s)[1..] == s;
  }

  lemma FrontNone(s: seq<Entry>, n: nat)
    requires s == [] || n == 0
    ensures Front(s, n) == []
  {
  }

  /** The batch is the front of what was not asked yet. */
  lemma {:induction false} ToQueryFront(s: seq<Entry>, asked: set<Addr>, alpha: nat)
    ensures ToQuery(s, asked, alpha) == Front(Unasked(s, asked), alpha)
  {
    hide Front;
    if s == [] || alpha == 0 {
      FrontNone(Unasked(s, asked), alpha);
    } else if s[0].addr in asked {
      ToQueryFront(s[1..], asked, alpha);
    } else {
      ToQueryFront(s[1..], asked, alpha - 1);
      FrontCons(s[0], Unasked(s[1..], asked), alpha);
    }
  }

  lemma BatchNearest(l: Lookup, c: Instance)
    requires ListsPool(l, c)
    ensures NearestFirst(Batch(l, c.hash, c.alpha), Unasked(Pool(c, l.queries), SetOf(l.queries)), c.alpha, c.hash)
  {
    hide Pool, Unasked, ToQuery, Front, NearestFirst, SortedBy;
    var asked, sorted, leq := SetOf(l.queries), SortByDistance(l.shortlist, c.hash), NearerEntry(c.hash);
    NearerPreorder(c.hash);
    SortSorts(l.shortlist, leq);
    SortPermutes(l.shortlist, leq);
    UnaskedSorted(sorted, asked, leq);
    UnaskedPermutes(sorted, Pool(c, l.queries), asked);
    ToQueryFront(sorted, asked, c.alpha);
    FrontNearest(Unasked(sorted, asked), Unasked(Pool(c, l.queries), asked), c.alpha, c.hash);
  }

  lemma FrontNearest(sorted: seq<Entry>, entries: seq<Entry>, alpha: nat, target: NodeId)
    requires SortedBy(sorted, NearerEntry(target))
    requires multiset(sorted) == multiset(entries) && |sorted| == |entries|
    ensures NearestFirst(Front(sorted, alpha), entries, alpha, target)
  {
    hide SortedBy;
    var batch := Front(sorted, alpha);
    assert batch + sorted[|batch|..] == sorted;
  }

  // From round to round.

  /** What is known stays known. */
  lemma {:induction false} PoolGrows(c: Instance, queries: seq<Addr>, more: seq<Addr>)
    requires queries <= more
    ensures Pool(c, queries) <= Pool(c, more)
    decreases |more|
  {
    hide Absorb;
    if queries == more {
    } else {
      var k := |more| - 1;
      PoolGrows(c, queries, more[..k]);
      if c.network(k, more[k]).Nodes? {
        AbsorbMeaning(Pool(c, more[..k]), SetOf(more), c.network(k, more[k]).nodes, c.now);
      }
    }
  }

  ghost predicate NearestId(id: NodeId, entries: seq<Entry>, target: NodeId) {
    (exists e <- entries :: e.nodeId == id) && forall e <- entries :: Nearer(target, id, e.nodeId)
  }

  /** The nearest identifier changed exactly if a nearer node turned up. */
  lemma FoundNearerIff(before: seq<Entry>, after: seq<Entry>, old': NodeId, new': NodeId, target: NodeId)
    requires before <= after && NearestId(old', before, target) && NearestId(new', after, target)
    ensures FoundNearer(before, after, target) <==> old' != new'
  {
    var first :| first in before && first.nodeId == old';
    var last :| last in after && last.nodeId == new';
    var i :| 0 <= i < |before| && before[i] == first;
    assert after[i] == first;
    if old' != new' {
      forall e <- before ensures !Nearer(target, e.nodeId, last.nodeId) {
        if Nearer(target, e.nodeId, new') {
          NearerTransitive(target, old', e.nodeId, new');
          NearerTotal(target, old', new');
        }
      }
    }
  }

  lemma SortedNearest(s: seq<Entry>, target: NodeId)
    requires s != [] && SortedBy(s, NearerEntry(target))
    ensures NearestId(s[0].nodeId, s, target)
  {
    NearerTotal(target, s[0].nodeId, s[0].nodeId);
    forall e <- s ensures Nearer(target, s[0].nodeId, e.nodeId) {
      var i :| 0 <= i < |s| && s[i] == e;
      assert i > 0 ==> NearerEntry(target)(s[0], s[i]);
    }
  }

  lemma NearestIdPermutes(id: NodeId, s: seq<Entry>, t: seq<Entry>, target: NodeId)
    requires multiset(s) == multiset(t) && NearestId(id, s, target)
    ensures NearestId(id, t, target)
  {
    SameElements(s, t);
  }

  /** A lookup that is not over, after the rounds that asked these batches. */
  ghost predicate UnderWay(c: Instance, s: Status, batches: seq<seq<Entry>>) {
    && s.l.found == [] && s.l.queries == Asked(batches) && ListsPool(s.l, c)
    && LastReply(c.network, s.l.queries, [])
    && (forall r :: 0 <= r < |batches| ==> RightBatch(c, batches, r) && GoesOn(c, batches, r))
    && (if batches == [] then s.closest == []
        else s.closest != [] && NearestId(s.closest[|s.closest| - 1], s.l.shortlist, c.hash)
             && SortedBy(s.l.shortlist, NearerEntry(c.hash)))
  }

  lemma SortedRight(l: Lookup, c: Instance)
    requires ListsPool(l, c)
    ensures ListsPool(Sorted(l, c.hash), c)
    ensures SortedBy(Sorted(l, c.hash).shortlist, NearerEntry(c.hash))
  {
    NearerPreorder(c.hash);
    SortSorts(l.shortlist, NearerEntry(c.hash));
    SortPermutes(l.shortlist, NearerEntry(c.hash));
  }

  lemma RoundRight(l: Lookup, c: Instance)
    requires ListsPool(l, c) && LastReply(c.network, l.queries, l.found) && l.found == []
    ensures var l', batch := Round(l, c.hash, c.alpha, c.network, c.now), Batch(l, c.hash, c.alpha);
            && ListsPool(l', c) && LastReply(c.network, l'.queries, l'.found)
            && l.queries <= l'.queries <= l.queries + Addrs(batch)
            && (if l'.found == []
                then l'.queries == l.queries + Addrs(batch) && SortedBy(l'.shortlist, NearerEntry(c.hash))
                else |l.queries| < |l'.queries|)
  {
    hide Sorted, Batch, AskAll, ListsPool, LastReply;
    var batch := Batch(l, c.hash, c.alpha);
    SortedRight(l, c);
    SortedQueries(l, c.hash);
    AskAllRight(batch, Sorted(l, c.hash), c);
    var asked := AskAll(batch, Sorted(l, c.hash), c.network, c.now);
    SortedQueries(asked, c.hash);
    SortedRight(asked, c);
  }

  lemma SortedQueries(l: Lookup, hash: NodeId)
    ensures Sorted(l, hash).queries == l.queries && Sorted(l, hash).found == l.found
    ensures |Sorted(l, hash).shortlist| == |l.shortlist|
  {
  }

  /** One more batch changes nothing about the rounds before it. */
  lemma OneMoreBatch(c: Instance, batches: seq<seq<Entry>>, batch: seq<Entry>)
    ensures var more := batches + [batch];
            && Asked(more) == Asked(batches) + Addrs(batch)
            && more[..|batches|] == batches && more[..|more|] == more
            && forall r :: 0 <= r < |batches| ==>
                 && (RightBatch(c, more, r) <==> RightBatch(c, batches, r))
                 && (GoesOn(c, more, r) <==> GoesOn(c, batches, r))
  {
    hide NearestFirst, FoundNearer, Pool;
    var more := batches + [batch];
    assert more[..|batches|] == batches && more[..|more|] == more;
    forall r | 0 <= r < |batches|
      ensures RightBatch(c, more, r) <==> RightBatch(c, batches, r)
      ensures GoesOn(c, more, r) <==> GoesOn(c, batches, r)
    {
      assert more[..r] == batches[..r] && more[..r + 1] == batches[..r + 1];
    }
  }

  lemma NothingLeft(limit: nat, c: Instance, s: Status, batches: seq<seq<Entry>>)
    requires UnderWay(c, s, batches) && |batches| <= limit && Batch(s.l, c.hash, c.alpha) == []
    ensures RightLookup(limit, c, Outcome([], Sorted(s.l, c.hash).shortlist), s.l.queries, batches)
  {
    hide RightBatch, GoesOn, LastReply, Pool, NearestId;
    SortedRight(s.l, c);
    if c.alpha > 0 {
      var sorted := Sorted(s.l, c.hash).shortlist;
      NothingToQuery(sorted, SetOf(s.l.queries), c.alpha);
      SameElements(sorted, Pool(c, s.l.queries));
    }
  }

  /** What the round asked is a batch as it should be. */
  lemma RoundBatch(c: Instance, s: Status, batches: seq<seq<Entry>>)
    requires UnderWay(c, s, batches) && Batch(s.l, c.hash, c.alpha) != []
    ensures var more := batches + [Batch(s.l, c.hash, c.alpha)];
            && (forall r :: 0 <= r < |more| ==> RightBatch(c, more, r))
            && (forall r :: 0 <= r < |batches| ==> GoesOn(c, more, r))
  {
    hide GoesOn, LastReply, Pool, NearestId, ListsPool, Batch, NearestFirst;
    BatchNearest(s.l, c);
    OneMoreBatch(c, batches, Batch(s.l, c.hash, c.alpha));
  }

  lemma PeersCame(limit: nat, c: Instance, s: Status, batches: seq<seq<Entry>>)
    requires UnderWay(c, s, batches) && |batches| < limit && Batch(s.l, c.hash, c.alpha) != []
    requires Round(s.l, c.hash, c.alpha, c.network, c.now).found != []
    ensures var l := Round(s.l, c.hash, c.alpha, c.network, c.now);
            RightLookup(limit, c, Outcome(l.found, l.shortlist), l.queries, batches + [Batch(s.l, c.hash, c.alpha)])
  {
    hide RightBatch, GoesOn, LastReply, Pool, NearestId, Round, Batch;
    RoundBatch(c, s, batches);
    RoundRight(s.l, c);
    OneMoreBatch(c, batches, Batch(s.l, c.hash, c.alpha));
  }

  /** After a round without peers the node in front tells whether the round gave a reason to go on. */
  lemma RoundProgress(c: Instance, s: Status, batches: seq<seq<Entry>>)
    requires UnderWay(c, s, batches) && Batch(s.l, c.hash, c.alpha) != []
    requires Round(s.l, c.hash, c.alpha, c.network, c.now).found == []
    ensures var more, l := batches + [Batch(s.l, c.hash, c.alpha)], Round(s.l, c.hash, c.alpha, c.network, c.now);
            && l.shortlist != [] && NearestId(l.shortlist[0].nodeId, l.shortlist, c.hash)
            && |s.l.shortlist| <= |l.shortlist|
            && (GoesOn(c, more, |batches|) <==>
                  && |s.l.shortlist| < |l.shortlist|
                  && (s.closest != [] ==> s.closest[|s.closest| - 1] != l.shortlist[0].nodeId))
  {
    hide RightBatch, LastReply, Pool, NearestId, Round, FoundNearer;
    var more, l := batches + [Batch(s.l, c.hash, c.alpha)], Round(s.l, c.hash, c.alpha, c.network, c.now);
    RoundRight(s.l, c);
    OneMoreBatch(c, batches, Batch(s.l, c.hash, c.alpha));
    PoolGrows(c, s.l.queries, l.queries);
    var before, after := Pool(c, s.l.queries), Pool(c, l.queries);
    assert |s.l.shortlist| == |before| && |l.shortlist| == |after| by {
      assert |multiset(s.l.shortlist)| == |multiset(before)| && |multiset(l.shortlist)| == |multiset(after)|;
    }
    assert |s.l.shortlist| > 0;
    SortedNearest(l.shortlist, c.hash);
    if batches != [] {
      var old', new' := s.closest[|s.closest| - 1], l.shortlist[0].nodeId;
      NearestIdPermutes(old', s.l.shortlist, before, c.hash);
      NearestIdPermutes(new', l.shortlist, after, c.hash);
      FoundNearerIff(before, after, old', new', c.hash);
    }
  }

  /** The next round ends the lookup as it should, or leaves it under way with one more batch. */
  lemma NextRoundRight(limit: nat, c: Instance, s: Status, batches: seq<seq<Entry>>)
    returns (more: seq<seq<Entry>>)
    requires UnderWay(c, s, batches) && |batches| < limit
    ensures var s' := NextRound(s, c.hash, c.alpha, c.network, c.now);
            if s'.over then RightLookup(limit, c, Report(s').0, s'.l.queries, more)
            else UnderWay(c, s', more) && |more| == |batches| + 1
  {
    hide Batch, Round, RightBatch, GoesOn, LastReply, Pool, NearestId, NextRound;
    NextRoundCases(s, c.hash, c.alpha, c.network, c.now);
    if Batch(s.l, c.hash, c.alpha) == [] {
      more := batches;
      NothingLeft(limit, c, s, batches);
    } else {
      more := batches + [Batch(s.l, c.hash, c.alpha)];
      RoundBatch(c, s, batches);
      RoundRight(s.l, c);
      OneMoreBatch(c, batches, Batch(s.l, c.hash, c.alpha));
      if Round(s.l, c.hash, c.alpha, c.network, c.now).found != [] {
        PeersCame(limit, c, s, batches);
      } else {
        RoundProgress(c, s, batches);
      }
    }
  }

  lemma {:induction false} RoundsRight(limit: nat, left: nat, c: Instance, s: Status, batches: seq<seq<Entry>>)
    returns (all: seq<seq<Entry>>)
    requires UnderWay(c, s, batches) && |batches| + left == limit && !s.over
    ensures var end := Rounds(left, s, Rounder(c.hash, c.alpha, c.network, c.now));
            RightLookup(limit, c, Report(end).0, end.l.queries, all)
  {
    hide UnderWay, RightLookup, NextRound;
    if left == 0 {
      all := batches;
      RanOut(limit, c, s, batches);
    } else {
      var s' := NextRound(s, c.hash, c.alpha, c.network, c.now);
      all := NextRoundRight(limit, c, s, batches);
      if !s'.over {
        all := RoundsRight(limit, left - 1, c, s', all);
      }
    }
  }

  lemma RanOut(limit: nat, c: Instance, s: Status, batches: seq<seq<Entry>>)
    requires UnderWay(c, s, batches) && |batches| == limit
    ensures RightLookup(limit, c, Report(s).0, s.l.queries, batches)
  {
    hide RightBatch, GoesOn, LastReply, Pool, NearestId;
  }

  /** The outcome and the queries are those of a right lookup. */
  ghost predicate Right(limit: nat, c: Instance, o: Outcome, queries: seq<Addr>) {
    exists batches: seq<seq<Entry>> :: RightLookup(limit, c, o, queries, batches)
  }

  /** Every lookup does exactly what it should: in each round, in what ends it, and in what it returns. */
  lemma LookUpRight(limit: nat, initial: seq<Entry>, hash: NodeId, alpha: nat, network: Network, now: nat)
    ensures var (o, trace) := LookUp(limit, initial, hash, alpha, network, now);
            Right(limit, Instance(initial, hash, alpha, network, now), o, trace.queries)
  {
    hide RightLookup, NextRound;
    var c := Instance(initial, hash, alpha, network, now);
    var batches := RoundsRight(limit, limit, c, Begin(initial), []);
    var end := Rounds(limit, Begin(initial), Rounder(hash, alpha, network, now));
    assert LookUp(limit, initial, hash, alpha, network, now) == Report(end);
    assert RightLookup(limit, c, Report(end).0, Report(end).1.queries, batches);
  }

  // ----- No address twice -----

  /** A batch without repeats, none of it asked before, is asked once each. */
  lemma {:induction false} AskAllOnce(toQuery: seq<Entry>, l: Lookup, network: Network, now: nat)
    requires Distinct(l.queries) && DistinctAddrs(toQuery) && forall e <- toQuery :: e.addr !in l.queries
    ensures Distinct(AskAll(toQuery, l, network, now).queries)
    ensures DistinctAddrs(l.shortlist) ==> DistinctAddrs(AskAll(toQuery, l, network, now).shortlist)
    decreases |toQuery|
  {
    if toQuery != [] && l.found == [] {
      var e := toQuery[0];
      AskShortlist(l, e.addr, network, now);
      forall x <- toQuery[1..] ensures x.addr !in l.queries + [e.addr] {
        var i :| 0 <= i < |toQuery[1..]| && toQuery[1..][i] == x;
        assert toQuery[i + 1] == x;
      }
      assert DistinctAddrs(toQuery[1..]);
      AskAllOnce(toQuery[1..], Ask(l, e.addr, network, now), network, now);
    }
  }

  /** The queries are distinct, and stay so because of the shortlist or because one at a time is asked. */
  ghost predicate Once(l: Lookup, alpha: nat) {
    Distinct(l.queries) && (DistinctAddrs(l.shortlist) || alpha <= 1)
  }

  lemma RoundOnce(l: Lookup, hash: NodeId, alpha: nat, network: Network, now: nat)
    requires Once(l, alpha)
    ensures Once(Round(l, hash, alpha, network, now), alpha)
  {
    SortKeepsShortlist(l.shortlist, hash);
    if DistinctAddrs(l.shortlist) {
      ToQueryDistinct(Sorted(l, hash).shortlist, SetOf(l.queries), alpha);
    }
    AskAllOnce(Batch(l, hash, alpha), Sorted(l, hash), network, now);
    SortKeepsShortlist(AskAll(Batch(l, hash, alpha), Sorted(l, hash), network, now).shortlist, hash);
  }

  lemma NextRoundOnce(s: Status, hash: NodeId, alpha: nat, network: Network, now: nat)
    requires Once(s.l, alpha)
    ensures Once(NextRound(s, hash, alpha, network, now).l, alpha)
  {
    SortKeepsShortlist(s.l.shortlist, hash);
    RoundOnce(s.l, hash, alpha, network, now);
  }

  /**
   Against any replies: at most `alpha` queries a round; no address twice if the first shortlist has distinct
   addresses or the lookup is one query wide; every node on the final shortlist accounted for; the nearest
   node strictly nearer in each recorded round; and peers exactly if the last reply was the first to hold any.
   */
  lemma LookUpMeaning(limit: nat, initial: seq<Entry>, hash: NodeId, alpha: nat, network: Network, now: nat)
    ensures var (o, trace) := LookUp(limit, initial, hash, alpha, network, now);
            && |trace.queries| <= limit * alpha
            && (DistinctAddrs(initial) || alpha <= 1 ==> Distinct(trace.queries))
            && |trace.closest| <= limit && EverNearer(trace.closest, hash)
            && Progress(Lookup(o.closestNodes, trace.queries, o.peers), initial, network, now)
  {
    hide NextRound;
    var next := Rounder(hash, alpha, network, now);
    var kept := (n: nat, s: Status) => Kept(limit, n, s, hash, alpha, initial, network, now);
    forall n: nat, s: Status | n > 0 && !s.over && kept(n, s) ensures kept(n - 1, next(s)) {
      NextRoundKeeps(limit, n, s, hash, alpha, initial, network, now);
    }
    var unused := RoundsKeep(limit, Begin(initial), next, kept);
    assert 0 <= unused * alpha;
    if DistinctAddrs(initial) || alpha <= 1 {
      LookUpOnce(limit, initial, hash, alpha, network, now);
    }
  }

  lemma LookUpOnce(limit: nat, initial: seq<Entry>, hash: NodeId, alpha: nat, network: Network, now: nat)
    requires DistinctAddrs(initial) || alpha <= 1
    ensures Distinct(LookUp(limit, initial, hash, alpha, network, now).1.queries)
  {
    hide NextRound;
    var next := Rounder(hash, alpha, network, now);
    var once := (n: nat, s: Status) => Once(s.l, alpha);
    forall n: nat, s: Status | n > 0 && !s.over && once(n, s) ensures once(n - 1, next(s)) {
      NextRoundOnce(s, hash, alpha, network, now);
    }
    var unused := RoundsKeep(limit, Begin(initial), next, once);
  }

  // ----- An address twice -----

  function Addrs(s: seq<Entry>): seq<Addr> {
    seq(|s|, i requires 0 <= i < |s| => s[i].addr)
  }

  ghost predicate NeverPeers(network: Network) {
    forall k: nat, addr: Addr :: network(k, addr).Peers? ==> network(k, addr).peers == []
  }

  /** Without peers the whole batch is asked, in order. */
  lemma {:induction false} AskAllQueries(toQuery: seq<Entry>, l: Lookup, network: Network, now: nat)
    requires NeverPeers(network) && l.found == []
    ensures var l' := AskAll(toQuery, l, network, now);
            l'.found == [] && l'.queries == l.queries + Addrs(toQuery)
    decreases |toQuery|
  {
    if toQuery != [] {
      AskAllQueries(toQuery[1..], Ask(l, toQuery[0].addr, network, now), network, now);
      assert Addrs(toQuery) == [toQuery[0].addr] + Addrs(toQuery[1..]);
    } else {
      assert Addrs(toQuery) == [];
    }
  }

  lemma NextRoundQueries(s: Status, hash: NodeId, alpha: nat, network: Network, now: nat)
    requires NeverPeers(network) && s.l.found == []
    ensures var l := NextRound(s, hash, alpha, network, now).l;
            l.found == [] && l.queries == s.l.queries + Addrs(Batch(s.l, hash, alpha))
  {
    AskAllQueries(Batch(s.l, hash, alpha), Sorted(s.l, hash), network, now);
  }

  ghost predicate StartsWith(first: seq<Addr>, s: Status) {
    s.l.found == [] && first <= s.l.queries
  }

  lemma NextRoundStartsWith(first: seq<Addr>, s: Status, hash: NodeId, alpha: nat, network: Network, now: nat)
    requires NeverPeers(network) && StartsWith(first, s)
    ensures StartsWith(first, NextRound(s, hash, alpha, network, now))
  {
    NextRoundQueries(s, hash, alpha, network, now);
  }

  /** Without peers a lookup begins by asking the `alpha` nearest entries, nearest first, as they stand. */
  lemma FirstQueries(limit: nat, initial: seq<Entry>, hash: NodeId, alpha: nat, network: Network, now: nat)
    requires NeverPeers(network) && limit > 0
    ensures Addrs(Nearest(initial, hash, alpha)) <= LookUp(limit, initial, hash, alpha, network, now).1.queries
  {
    hide NextRound;
    var next, first := Rounder(hash, alpha, network, now), Addrs(Nearest(initial, hash, alpha));
    var starts := (n: nat, s: Status) => StartsWith(first, s);
    forall n: nat, s: Status | n > 0 && !s.over && starts(n, s) ensures starts(n - 1, next(s)) {
      NextRoundStartsWith(first, s, hash, alpha, network, now);
    }
    var s1 := next(Begin(initial));
    FirstRoundQueries(initial, hash, alpha, network, now);
    var unused := RoundsKeep(limit - 1, s1, next, starts);
    assert Rounds(limit, Begin(initial), next) == Rounds(limit - 1, s1, next);
  }

  lemma FirstRoundQueries(initial: seq<Entry>, hash: NodeId, alpha: nat, network: Network, now: nat)
    requires NeverPeers(network)
    ensures StartsWith(Addrs(Nearest(initial, hash, alpha)), NextRound(Begin(initial), hash, alpha, network, now))
  {
    hide NextRound, Batch, Nearest;
    NextRoundQueries(Begin(initial), hash, alpha, network, now);
    FirstBatchOf(initial, hash, alpha);
  }

  lemma FirstBatchOf(initial: seq<Entry>, hash: NodeId, alpha: nat)
    ensures Batch(Begin(initial).l, hash, alpha) == Nearest(initial, hash, alpha)
  {
    assert SetOf(Begin(initial).l.queries) == {};
    FirstBatch(SortByDistance(initial, hash), alpha);
  }

  function Nearest(initial: seq<Entry>, hash: NodeId, alpha: nat): seq<Entry> {
    Front(SortByDistance(initial, hash), alpha)
  }

  /** So an address that two of those entries share is asked twice. */
  lemma SharedAddressAskedTwice(
    limit: nat, initial: seq<Entry>, hash: NodeId, alpha: nat, network: Network, now: nat, i: nat, j: nat)
    requires NeverPeers(network) && limit > 0 && i < j < |initial| && j < alpha
    requires SortByDistance(initial, hash)[i].addr == SortByDistance(initial, hash)[j].addr
    ensures var queries := LookUp(limit, initial, hash, alpha, network, now).1.queries;
            j < |queries| && queries[i] == queries[j] == SortByDistance(initial, hash)[i].addr
  {
    FirstQueries(limit, initial, hash, alpha, network, now);
    var sorted, first := SortByDistance(initial, hash), Addrs(Nearest(initial, hash, alpha));
    assert first[i] == sorted[i].addr && first[j] == sorted[j].addr;
  }

  /** A lookup never asks an address twice, whatever the shortlist and the replies. */
  ghost predicate NeverAsksTwice(limit: nat, alpha: nat) {
    forall initial: seq<Entry>, hash: NodeId, network: Network, now: nat ::
      Distinct(LookUp(limit, initial, hash, alpha, network, now).1.queries)
  }

  /** That holds if and only if the lookup is at most one query wide (or has no rounds). */
  lemma NeverAsksTwiceIff(limit: nat, alpha: nat)
    ensures NeverAsksTwice(limit, alpha) <==> alpha <= 1 || limit == 0
  {
    if alpha <= 1 || limit == 0 {
      forall initial: seq<Entry>, hash: NodeId, network: Network, now: nat
        ensures Distinct(LookUp(limit, initial, hash, alpha, network, now).1.queries)
      {
        LookUpMeaning(limit, initial, hash, alpha, network, now);
      }
    } else {
      var silent: Network := (k: nat, addr: Addr) => Silence;
      var e := Entry(seq(20, _ => 0), 0, 0, 0, false);
      SilentTwice(limit, e, e.nodeId, alpha, silent, 0);
    }
  }

  lemma SilentTwice(limit: nat, e: Entry, hash: NodeId, alpha: nat, network: Network, now: nat)
    requires alpha >= 2 && limit > 0 && NeverPeers(network)
    ensures !Distinct(LookUp(limit, [e, e], hash, alpha, network, now).1.queries)
  {
    var sorted := SortByDistance([e, e], hash);
    SortPermutes([e, e], NearerEntry(hash));
    assert sorted[0] in sorted && sorted[1] in sorted;
    SharedAddressAskedTwice(limit, [e, e], hash, alpha, network, now, 0, 1);
  }

  // ----- The loops -----

  /** The query loop of one round. */
  method QueryRound(
    toQuery: seq<Entry>, shortlist: seq<Entry>, queried: set<Addr>, network: Network, now: nat,
    sent: nat, ghost l: Lookup)
    returns (shortlist': seq<Entry>, queried': set<Addr>, found: seq<Addr>, foundAny: bool, sent': nat,
             ghost l': Lookup)
    requires l == Lookup(shortlist, l.queries, []) && queried == SetOf(l.queries) && sent == |l.queries|
    ensures l' == AskAll(toQuery, l, network, now)
    ensures l' == Lookup(shortlist', l'.queries, found) && queried' == SetOf(l'.queries) && sent' == |l'.queries|
    ensures |shortlist'| >= |shortlist| && (foundAny <==> |shortlist'| > |shortlist|)
  {
    shortlist', queried', found, foundAny, sent' := shortlist, queried, [], false, sent;
    l' := l;
    for i := 0 to |toQuery|
      invariant l' == Lookup(shortlist', l'.queries, []) && queried' == SetOf(l'.queries) && sent' == |l'.queries|
      invariant found == [] && AskAll(toQuery, l, network, now) == AskAll(toQuery[i..], l', network, now)
      invariant foundAny <==> |shortlist'| > |shortlist|
      invariant |shortlist'| >= |shortlist|
    {
      var entry := toQuery[i];
      assert toQuery[i..][0] == entry && toQuery[i..][1..] == toQuery[i + 1..];
      AskShortlist(l', entry.addr, network, now);
      queried' := queried' + {entry.addr};
      var reply := network(sent', entry.addr);
      sent' := sent' + 1;
      l' := Ask(l', entry.addr, network, now);
      assert SetOf(l'.queries) == queried';
      match reply
      case Silence =>
      case Peers(list) =>
        if list != [] {
          found := list;
          return;
        }
      case Nodes(nodes) =>
        var grown := Absorb(shortlist', queried', nodes, now);
        if |grown| > |shortlist'| {
          foundAny := true;
        }
        shortlist' := grown;
    }
  }

  /** The rounds of `iterative_find_peers`. */
  method Search(limit: nat, initial: seq<Entry>, hash: NodeId, alpha: nat, network: Network, now: nat)
    returns (o: Outcome, ghost trace: Trace)
    requires initial != []
    ensures o == LookUp(limit, initial, hash, alpha, network, now).0
    ensures trace == LookUp(limit, initial, hash, alpha, network, now).1
    ensures Right(limit, Instance(initial, hash, alpha, network, now), o, trace.queries)
  {
    LookUpRight(limit, initial, hash, alpha, network, now);
    hide NextRound, Round, Batch, Right;
    var shortlist := initial;
    var queried: set<Addr> := {};
    var sent := 0;
    var closestPeer: Option<NodeId> := None;
    ghost var s, next := Begin(initial), Rounder(hash, alpha, network, now);
    ghost var whole := Rounds(limit, s, next);
    for round := 0 to limit
      invariant shortlist != [] && s == Status(Lookup(shortlist, s.l.queries, []), s.closest, false)
      invariant queried == SetOf(s.l.queries) && sent == |s.l.queries|
      invariant closestPeer == if s.closest == [] then None else Some(s.closest[|s.closest| - 1])
      invariant Rounds(limit - round, s, next) == whole
    {
      NextRoundCases(s, hash, alpha, network, now);
      var found, foundAny, asked;
      ghost var l;
      shortlist, queried, found, foundAny, asked, sent, l :=
        AskRound(shortlist, hash, alpha, queried, network, now, sent, s.l);
      if !asked {
        return Outcome([], shortlist), Trace(l.queries, s.closest);
      }
      if found != [] {
        return Outcome(found, shortlist), Trace(l.queries, s.closest);
      }
      var currentClosest := shortlist[0].nodeId;
      if closestPeer == Some(currentClosest) {
        return Outcome([], shortlist), Trace(l.queries, s.closest);
      }
      closestPeer := Some(currentClosest);
      s := Status(l, s.closest + [currentClosest], false);
      if !foundAny {
        break;
      }
    }
    o, trace := Outcome([], shortlist), Trace(s.l.queries, s.closest);
  }

  /** One round: sort, pick, query; and, unless peers turned up, sort again to see who is nearest. */
  method AskRound(
    shortlist: seq<Entry>, hash: NodeId, alpha: nat, queried: set<Addr>, network: Network, now: nat,
    sent: nat, ghost l: Lookup)
    returns (shortlist': seq<Entry>, queried': set<Addr>, found: seq<Addr>, foundAny: bool, asked: bool, sent': nat,
             ghost l': Lookup)
    requires l == Lookup(shortlist, l.queries, []) && queried == SetOf(l.queries) && sent == |l.queries|
    requires shortlist != []
    ensures asked <==> Batch(l, hash, alpha) != []
    ensures l' == if asked then Round(l, hash, alpha, network, now) else Sorted(l, hash)
    ensures l' == Lookup(shortlist', l'.queries, found) && queried' == SetOf(l'.queries) && sent' == |l'.queries|
    ensures shortlist' != [] && (asked ==> (foundAny <==> |shortlist'| != |shortlist|))
    ensures !asked && alpha > 0 ==> AddrsOf(shortlist') <= queried'
  {
    SortKeepsShortlist(shortlist, hash);
    shortlist' := SortByDistance(shortlist, hash);
    queried', found, foundAny, sent', l' := queried, [], false, sent, Sorted(l, hash);
    var toQuery := ToQuery(shortlist', queried, alpha);
    asked := toQuery != [];
    if !asked {
      if alpha > 0 {
        NothingToQuery(shortlist', queried, alpha);
      }
      return;
    }
    shortlist', queried', found, foundAny, sent', l' :=
      QueryRound(toQuery, shortlist', queried, network, now, sent, l');
    if found == [] {
      SortKeepsShortlist(shortlist', hash);
      shortlist' := SortByDistance(shortlist', hash);
      l' := Sorted(l', hash);
    }
  }

  /** The tables while the discovered nodes are inserted one after the other, the first one first. */
  ghost predicate InTurn(tables: seq<Table>, entries: seq<Entry>, now: nat) {
    && |tables| == |entries| + 1
    && (forall i :: 0 <= i <= |entries| ==> RoutingModel.Inv(tables[i]))
    && (forall i :: 0 <= i < |entries| ==> tables[i + 1] == Insert(tables[i], entries[i], now).0)
  }

  lemma NoneInserted(t: Table, now: nat)
    requires RoutingModel.Inv(t)
    ensures InTurn([t], [], now)
  {
  }

  lemma InTurnStep(tables: seq<Table>, entries: seq<Entry>, i: nat, next: Table, now: nat)
    requires i < |entries| && InTurn(tables, entries[..i], now) && RoutingModel.Inv(next)
    requires next == Insert(tables[i], entries[i], now).0
    ensures InTurn(tables + [next], entries[..i + 1], now)
  {
    hide Insert, RoutingModel.Inv;
    assert entries[..i + 1] == entries[..i] + [entries[i]];
  }

  ghost predicate InsertedInTurn(t: Table, entries: seq<Entry>, now: nat, t': Table) {
    exists tables: seq<Table> ::
      InTurn(tables, entries, now) && tables[0] == t && tables[|entries|] == t'
  }

  /**
   Every discovered node is in the table at the end, unless its bucket is full; and no node the table knew and that
   is not overdue is lost.
   */
  lemma {:induction false} InTurnMeaning(tables: seq<Table>, entries: seq<Entry>, now: nat, id: NodeId)
    requires InTurn(tables, entries, now)
    ensures var first, last := tables[0], tables[|entries|];
            && last.local == first.local && |BucketOf(first, id)| <= |BucketOf(last, id)|
            && ((exists e <- entries :: e.nodeId == id) || Holds(BucketOf(first, id), id) ==>
                  Holds(BucketOf(last, id), id) || |BucketOf(last, id)| == 8)
            && (FreshIn(BucketOf(first, id), id, now) ==> FreshIn(BucketOf(last, id), id, now))
  {
    hide Insert, RoutingModel.Inv, FreshIn, Holds, BucketOf;
    if entries != [] {
      var n := |entries| - 1;
      InTurnMeaning(tables[..n + 1], entries[..n], now, id);
      InsertOutcome(tables[n], entries[n], now, id);
      FullBucket(tables[n + 1], id);
      forall e <- entries ensures e in entries[..n] || e == entries[n] {
        assert entries == entries[..n] + [entries[n]];
      }
    }
  }

  lemma FullBucket(t: Table, id: NodeId)
    requires RoutingModel.Inv(t)
    ensures |BucketOf(t, id)| <= 8
  {
  }

  class KademliaRpc {
    const table: RoutingTable
    var peers: PeerStore

    ghost predicate Valid()
      reads this, table
    {
      table.Valid() && Bounded(peers)
    }

    constructor (table: RoutingTable)
      requires table.Valid()
      ensures Valid() && this.table == table && peers == map[]
    {
      this.table := table;
      peers := map[];
    }

    /** The announce branch of `handle_message`; the token check is an input. */
    method Announce(hash: NodeId, peer: Addr, tokenOk: bool) returns (ok: bool)
      requires Valid()
      modifies this
      ensures Valid() && ok == tokenOk
      ensures peers == if tokenOk then old(peers)[hash := StorePeers(Stored(old(peers), hash), [peer])] else old(peers)
      ensures tokenOk ==>
                var was := if hash in old(peers) then old(peers)[hash] else [];
                peers == old(peers)[hash := if |was| < 50 then was + [peer] else was]
    {
      if !tokenOk {
        return false;
      }
      var entry := if hash in peers then peers[hash] else [];
      if |entry| < MAX_PEERS_PER_HASH {
        entry := entry + [peer];
      }
      peers := peers[hash := entry];
      ok := true;
    }

    /** `iterative_find_peers`. */
    method IterativeFindPeers(hash: NodeId, alpha: nat, network: Network, now: nat)
      returns (r: Option<Outcome>, ghost trace: Trace)
      requires Valid()
      modifies this, table
      ensures Valid()
      ensures var initial := FindClosest(old(table.State()), hash, K);
              && (r.None? <==> initial == [])
              && (r.Some? ==> (r.value, trace) == LookUp(MAX_ROUNDS, initial, hash, alpha, network, now))
      ensures r.None? <==> AllEntries(old(table.State())) == {}
      ensures r.None? ==> peers == old(peers) && table.State() == old(table.State())
      ensures r.Some? && r.value.peers == [] ==>
                peers == old(peers) && InsertedInTurn(old(table.State()), r.value.closestNodes, now, table.State())
      ensures r.Some? ==>
                var c := Instance(FindClosest(old(table.State()), hash, K), hash, alpha, network, now);
                Right(8, c, r.value, trace.queries)
      ensures r.Some? && r.value.peers != [] ==>
                && peers == old(peers)[hash := StorePeers(Stored(old(peers), hash), r.value.peers)]
                && table.State() == old(table.State())
    {
      hide Right, InsertedInTurn;
      ClosestEmptyIff(table.State(), hash, K);
      var shortlist := table.FindClosest(hash, K);
      if shortlist == [] {
        return None, Trace([], []);
      }
      var outcome, trace' := Search(MAX_ROUNDS, shortlist, hash, alpha, network, now);
      if outcome.peers != [] {
        var entry := if hash in peers then peers[hash] else [];
        peers := peers[hash := StorePeers(entry, outcome.peers)];
      } else {
        InsertDiscovered(outcome.closestNodes, now);
      }
      r, trace := Some(outcome), trace';
    }

    method InsertDiscovered(shortlist: seq<Entry>, now: nat)
      requires Valid()
      modifies table
      ensures Valid() && InsertedInTurn(old(table.State()), shortlist, now, table.State())
    {
      hide Insert, RightInsert, InTurn, RoutingModel.Inv;
      ghost var tables := [table.State()];
      NoneInserted(table.State(), now);
      for i := 0 to |shortlist|
        invariant Valid() && InTurn(tables, shortlist[..i], now)
        invariant |tables| == i + 1 && tables[0] == old(table.State()) && tables[i] == table.State()
      {
        var inserted := table.Insert(shortlist[i], now);
        InTurnStep(tables, shortlist, i, table.State(), now);
        tables := tables + [table.State()];
      }
      assert shortlist[..|shortlist|] == shortlist;
    }
  }
}
