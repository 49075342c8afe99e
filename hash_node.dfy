/** HashNode: a node of the demonstration distributed hashtable. Every node and every key
    has a position in [0, 1); a key belongs to the node closest to it. A node knows a few
    peers (its slot array `peer`, see PeerAlgorithms), routes fetches and stores for keys
    to the closest node it knows, and answers peer requests, with which a joining node
    collects its peers, by fanning them out over its own peers and merging the answers.
    Messages are field sequences (see Wire); what a node sends is appended to `outbox`. */
module Dht {
  import opened JavaInt
  import opened PeerAlgorithms
  import opened Wire

  /** A message handed to send: its receiver and its fields. */
  datatype Outgoing = Outgoing(to: JString, payload: Payload)

  /** table.get(key): the stored value, or null. */
  function Get(table: map<JString, JString>, key: JString): (v: Option<JString>)
    ensures v.Some? <==> key in table
    ensures v.Some? ==> v.value == table[key]
  {
    if key in table then Some(table[key]) else None
  }

  // ----- routing -----

  /** The address processRequest and processStoreRequest route a key at `keyPos` to:
      the closest known node, this node itself when no peer is strictly closer. */
  function OwnerOf(address: JString, position: real, list: seq<Peer>, keyPos: real): JString
  {
    var r := NearestIndex(position, list, keyPos);
    if r < 0 then address else list[r].address
  }

  /** A node keeps a key when no peer is strictly closer to it, and otherwise hands it to
      a listed peer that is strictly closer than itself and as close as any. */
  lemma OwnerIsClosest(address: JString, position: real, list: seq<Peer>, keyPos: real)
    ensures var o := OwnerOf(address, position, list, keyPos);
      && ((forall j :: 0 <= j < |list| ==> Abs(list[j].position - keyPos) >= Abs(position - keyPos))
            ==> o == address)
      && (o != address ==>
            exists j :: 0 <= j < |list| && list[j].address == o
              && Abs(list[j].position - keyPos) < Abs(position - keyPos)
              && forall i :: 0 <= i < |list| ==> Abs(list[j].position - keyPos) <= Abs(list[i].position - keyPos))
  {
    NearestIsFirstClosest(position, list, keyPos);
    var r := NearestIndex(position, list, keyPos);
    if r >= 0 {
      assert list[r].address == OwnerOf(address, position, list, keyPos);
    }
  }

  // ----- pending fetches -----

  /** processRequest's bookkeeping for a key it forwards, as written: the requester is
      remembered only when the key is not pending yet. */
  function PendAsWritten(pending: map<JString, seq<JString>>, key: JString, from: JString): map<JString, seq<JString>>
  {
    if key in pending then pending else pending[key := [from]]
  }

  /** The bookkeeping the code's dead `requesters.add(from)` branch is there for: a
      requester of a key that is already pending joins its requesters. */
  function Pend(pending: map<JString, seq<JString>>, key: JString, from: JString): map<JString, seq<JString>>
  {
    if key in pending then pending[key := pending[key] + [from]] else pending[key := [from]]
  }

  /** As written, a second requester of a pending key is recorded nowhere, so the relayed
      response never reaches it. */
  lemma SecondRequesterDropped(key: JString, a: JString, b: JString)
    requires a != b
    ensures var p := PendAsWritten(PendAsWritten(map[], key, a), key, b);
      key in p && p[key] == [a] && Outgoing(b, []) !in Relayed(p[key], [])
  {
    var p := PendAsWritten(PendAsWritten(map[], key, a), key, b);
    assert Relayed(p[key], []) == [Outgoing(a, [])];
  }

  /** With the intended bookkeeping every requester stays recorded, in order of arrival,
      and no other key's requesters change. */
  lemma PendRemembers(pending: map<JString, seq<JString>>, key: JString, from: JString)
    ensures var p := Pend(pending, key, from);
      && key in p && p[key] == (if key in pending then pending[key] else []) + [from]
      && p.Keys == pending.Keys + {key}
      && forall k :: k in pending && k != key ==> p[k] == pending[k]
  {
  }

  /** The copies of a response processResponse sends: one per requester, in order. */
  function Relayed(requesters: seq<JString>, m: Payload): seq<Outgoing>
  {
    seq(|requesters|, i requires 0 <= i < |requesters| => Outgoing(requesters[i], m))
  }

  /** Every requester recorded for a key receives the response, and nobody else does. */
  lemma RelayedReachesRequesters(requesters: seq<JString>, m: Payload)
    ensures forall o :: o in Relayed(requesters, m) <==> o.payload == m && o.to in requesters
  {
    var r := Relayed(requesters, m);
    forall o: Outgoing | o.payload == m && o.to in requesters
      ensures o in r
    {
      var i :| 0 <= i < |requesters| && requesters[i] == o.to;
      assert r[i] == o;
    }
  }

  /** A value stored at its owner is what the owner's response to a fetch carries. */
  lemma StoreThenFetch(table: map<JString, JString>, key: JString, value: JString)
    ensures var m := MakeResponse(key, Get(table[key := value], key));
      ReadStore(m) == Some((key, value))
  {
  }

  // ----- fanning out peer requests -----

  /** Peer k of the list covers part of the requested range, so processPeerRequest sends
      it a request. */
  predicate Forwarded(list: seq<Peer>, k: nat, position: real, r: PeerRequest)
    requires k < |list|
  {
    FanRange(list, k, position, r.min, r.max).1 > FanRange(list, k, position, r.min, r.max).0
  }

  /** The request processPeerRequest sends peer k: the joining node, the part of the
      range peer k covers, and this node's request number. */
  function FanMessage(list: seq<Peer>, k: nat, position: real, r: PeerRequest, id: int32): Outgoing
    requires k < |list|
  {
    var range := FanRange(list, k, position, r.min, r.max);
    Outgoing(list[k].address, MakePeerRequest(r.cid, r.cpos, range.0, range.1, id))
  }

  /** The requests sent to the first n peers of the list, in list order. */
  function FanOut(list: seq<Peer>, position: real, r: PeerRequest, id: int32, n: nat): seq<Outgoing>
    requires n <= |list|
  {
    if n == 0 then []
    else FanOut(list, position, r, id, n - 1)
         + (if Forwarded(list, n - 1, position, r) then [FanMessage(list, n - 1, position, r, id)] else [])
  }

  /** The fan-out sends exactly one request to every peer whose range meets the
      requested one. */
  lemma {:induction false} FanOutExactly(list: seq<Peer>, position: real, r: PeerRequest, id: int32, n: nat)
    requires n <= |list|
    ensures forall o :: o in FanOut(list, position, r, id, n) <==>
      exists k :: 0 <= k < n && Forwarded(list, k, position, r) && o == FanMessage(list, k, position, r, id)
  {
    if n > 0 {
      FanOutExactly(list, position, r, id, n - 1);
    }
  }

  /** A forwarded request reads back as a request for a non-empty part of the requested
      range, for the same joining node and under this node's request number. */
  lemma FanMessageWithin(list: seq<Peer>, k: nat, position: real, r: PeerRequest, id: int32)
    requires k < |list| && Forwarded(list, k, position, r)
    ensures var q := ReadPeerRequest(FanMessage(list, k, position, r, id).payload);
      && q.Some? && q.value.cid == r.cid && q.value.cpos == r.cpos && q.value.responseID == id
      && r.min <= q.value.min < q.value.max <= r.max
  {
    FanRangeWithin(list, k, position, r.min, r.max);
  }

  // ----- reading a peer response -----

  /** The loop of processPeerResponse that reads the n slots starting at field 4. */
  method ReadPeerArray(m: Payload, n: nat) returns (p: seq<Option<Peer>>)
    requires ReadPeers(m, 4, n).Some?
    ensures p == ReadPeers(m, 4, n).value
  {
    p := [];
    var i := 4;
    var k := 0;
    while k < n
      invariant 0 <= k <= n && ReadPeers(m, i, n - k).Some?
      invariant ReadPeers(m, 4, n).value == p + ReadPeers(m, i, n - k).value
    {
      ReadPeersAppend(m, ReadPeers(m, 4, n).value, p, i, n - k - 1);
      var pid := m[i].s;
      var slot: Option<Peer>;
      var next: nat;
      if pid == [] {
        slot, next := None, i + 1;
      } else {
        slot, next := Some(Peer(pid, m[i + 1].f)), i + 2;
      }
      p := p + [slot];
      i := next;
      k := k + 1;
    }
    assert ReadPeers(m, i, 0).value == [];
  }

  /** The loop step of ReadPeerArray: the slots read so far, p, grow by the slot at
      field i, and the reading goes on after it. */
  lemma ReadPeersAppend(m: Payload, whole: seq<Option<Peer>>, p: seq<Option<Peer>>, i: nat, c: nat)
    requires ReadPeers(m, i, c + 1).Some? && whole == p + ReadPeers(m, i, c + 1).value
    ensures i < |m| && m[i].Str? && (m[i].s != [] ==> i + 1 < |m| && m[i + 1].Float?)
    ensures var next := if m[i].s == [] then i + 1 else i + 2;
      var slot := if m[i].s == [] then None else Some(Peer(m[i].s, m[i + 1].f));
      ReadPeers(m, next, c).Some? && whole == (p + [slot]) + ReadPeers(m, next, c).value
  {
    ReadPeersStep(m, i, c);
    var next := if m[i].s == [] then i + 1 else i + 2;
    var slot := if m[i].s == [] then None else Some(Peer(m[i].s, m[i + 1].f));
    var after := ReadPeers(m, next, c).value;
    assert p + ([slot] + after) == (p + [slot]) + after;
  }

  /** One slot read from field i: a "" is a null slot, anything else an address and
      its position. */
  lemma ReadPeersStep(m: Payload, i: nat, c: nat)
    requires ReadPeers(m, i, c + 1).Some?
    ensures i < |m| && m[i].Str?
    ensures m[i].s == [] ==>
      ReadPeers(m, i + 1, c).Some? && ReadPeers(m, i, c + 1).value == [None] + ReadPeers(m, i + 1, c).value
    ensures m[i].s != [] ==>
      i + 1 < |m| && m[i + 1].Float? && ReadPeers(m, i + 2, c).Some?
      && ReadPeers(m, i, c + 1).value == [Some(Peer(m[i].s, m[i + 1].f))] + ReadPeers(m, i + 2, c).value
  {
  }

  // ----- the node -----

  /** A peer request this node fanned out and is collecting answers for. */
  class PeerFan {
    /** Who sent the request to this node (not the joining node). */
    const from: JString
    /** The joining node's position. */
    const cpos: real
    const requests: int
    var responses: int32
    var bestPeers: seq<Option<Peer>>
    const responseID: int32

    /** Starts with this node, at `address` and `position`, as the only candidate. */
    constructor (from: JString, cpos: real, fanout: int, responseID: int32, address: JString, position: real)
      ensures this.from == from && this.cpos == cpos && requests == fanout && this.responseID == responseID
      ensures responses == 0 && bestPeers == Nominated(cpos, address, position)
    {
      var best := PeerNominate(cpos, address, position);
      bestPeers := best;
      this.from := from;
      requests := fanout;
      this.cpos := cpos;
      this.responseID := responseID;
      responses := 0;
    }

    /** Merges an answer into the candidates; true once as many answers as requests have
        come in (the count wraps like a Java int). */
    method HandleResponse(p: seq<Option<Peer>>) returns (done: bool)
      requires |bestPeers| == SLOTS && |p| >= SLOTS
      modifies this`bestPeers, this`responses
      ensures bestPeers == Merged(cpos, old(bestPeers), p) && |bestPeers| == SLOTS
      ensures responses == Wrap32(old(responses) as int + 1)
      ensures done <==> responses as int >= requests
    {
      bestPeers := MergePeers(cpos, bestPeers, p);
      responses := Wrap32(responses as int + 1);
      done := responses as int >= requests;
    }
  }

  class HashNode {
    const address: JString
    const position: real
    /** getPosition: a key's position, the first float of a java.util.Random seeded with
        the key's hashCode. */
    const positionOf: JString -> real
    var peer: seq<Option<Peer>>
    var peerList: seq<Peer>
    var table: map<JString, JString>
    var pendingRequest: map<JString, seq<JString>>
    var pendingPeerRequest: map<int32, PeerFan>
    var requestID: int32
    var outbox: seq<Outgoing>

    /** peer_list is always the listing of `peer`, and every fan's candidates fill the
        standard number of slots. */
    ghost predicate Valid()
      reads this`peer, this`peerList, this`pendingPeerRequest, pendingPeerRequest.Values`bestPeers
    {
      && peerList == PeerListOf(peer)
      && forall id :: id in pendingPeerRequest ==> |pendingPeerRequest[id].bestPeers| == SLOTS
    }

    /** Joins through `connect`: no peers yet, and a peer request for the whole range
        [0, 1] sent there under request number 0. */
    constructor (address: JString, pos: real, connect: JString, positionOf: JString -> real)
      ensures this.address == address && position == pos && this.positionOf == positionOf
      ensures Valid() && !Ready() && |peer| == SLOTS
      ensures table == map[] && pendingRequest == map[] && pendingPeerRequest == map[]
      ensures outbox == [Outgoing(connect, MakePeerRequest(address, pos, 0.0, 1.0, 0))]
      ensures requestID == 1
    {
      var empty: seq<Option<Peer>> := seq(SLOTS, _ => None);
      PeerListReady(empty);
      this.address := address;
      position := pos;
      this.positionOf := positionOf;
      peer := empty;
      peerList := [];
      table := map[];
      pendingRequest := map[];
      pendingPeerRequest := map[];
      outbox := [Outgoing(connect, MakePeerRequest(address, pos, 0.0, 1.0, 0))];
      requestID := 1;
    }

    /** ready(): the node has at least one peer. */
    function Ready(): (r: bool)
      reads this`peer, this`peerList
      ensures peerList == PeerListOf(peer) ==> (r <==> exists k :: 0 <= k < |peer| && peer[k].Some?)
    {
      PeerListReady(peer);
      |peerList| != 0
    }

    method Send(to: JString, m: Payload)
      modifies this`outbox
      ensures outbox == old(outbox) + [Outgoing(to, m)]
    {
      outbox := outbox + [Outgoing(to, m)];
    }

    /** updatePeerList: rebuilds peer_list from the slots. */
    method UpdatePeerList()
      modifies this`peerList
      ensures peerList == PeerListOf(peer)
    {
      var list: seq<Peer> := [];
      var k := 0;
      while k < |peer|
        invariant 0 <= k <= |peer| && list == PeerListOf(peer[..k])
      {
        KeptPrefix(peer, k + 1, k);
        assert peer[..k + 1][..k] == peer[..k];
        if peer[k].Some? && (k == 0 || !PeerEquals(peer[k].value, peer[k - 1])) {
          list := list + [peer[k].value];
        }
        k := k + 1;
      }
      assert peer[..k] == peer;
      peerList := list;
    }

    /** The scan of processRequest and processStoreRequest for the closest known node. */
    method NearestTo(keypos: real) returns (minid: JString)
      ensures minid == OwnerOf(address, position, peerList, keypos)
    {
      var mindist := Abs(position - keypos);
      minid := address;
      var k := 0;
      while k < |peerList|
        invariant 0 <= k <= |peerList|
        invariant minid == OwnerOf(address, position, peerList[..k], keypos)
        invariant mindist == NearestDistance(position, peerList[..k], keypos)
      {
        var p := peerList[k];
        var dist := Abs(p.position - keypos);
        assert peerList[..k + 1][..k] == peerList[..k];
        if dist < mindist {
          mindist := dist;
          minid := p.address;
        }
        k := k + 1;
      }
      assert peerList[..k] == peerList;
    }

    /** What processRequest leaves behind: the owner answers from its table and records
        nothing; any other node passes the request on to the owner unless the key is
        already pending, and records the requester as PendAsWritten does (as Pend does
        when `corrected`). */
    twostate predicate RequestHandled(from: JString, m: Payload, corrected: bool)
      requires ReadKey(m).Some?
      reads this
    {
      var key := ReadKey(m).value;
      var owner := OwnerOf(address, position, old(peerList), positionOf(key));
      && (owner == address ==>
            outbox == old(outbox) + [Outgoing(from, MakeResponse(key, Get(old(table), key)))]
            && pendingRequest == old(pendingRequest))
      && (owner != address ==>
            outbox == old(outbox) + (if key in old(pendingRequest) then [] else [Outgoing(owner, m)])
            && pendingRequest == (if corrected then Pend(old(pendingRequest), key, from)
                                  else PendAsWritten(old(pendingRequest), key, from)))
    }

    /** What processResponse leaves behind: the key's requesters are forgotten and each
        is sent the response, in order. */
    twostate predicate ResponseHandled(m: Payload)
      requires ReadKey(m).Some?
      reads this
    {
      var key := ReadKey(m).value;
      && pendingRequest == old(pendingRequest) - {key}
      && outbox == old(outbox) + (if key in old(pendingRequest) then Relayed(old(pendingRequest)[key], m) else [])
    }

    /** What processStoreRequest leaves behind: the owner stores the value; any other
        node keeps its table and passes the request on to the owner. */
    twostate predicate StoreHandled(m: Payload)
      requires ReadStore(m).Some?
      reads this
    {
      var key, value := ReadStore(m).value.0, ReadStore(m).value.1;
      var owner := OwnerOf(address, position, old(peerList), positionOf(key));
      && (owner == address ==> table == old(table)[key := value] && outbox == old(outbox))
      && (owner != address ==> table == old(table) && outbox == old(outbox) + [Outgoing(owner, m)])
    }

    /** What processPeerRequest leaves behind: the fan-out is sent, or, when it is empty,
        this node answers alone; a non-empty fan-out is recorded as a fresh fan under the
        old request number, which then wraps up by one; the joining node is merged into
        the slots either way. */
    twostate predicate PeerRequestHandled(from: JString, m: Payload)
      requires ReadPeerRequest(m).Some? && |old(peer)| >= 2 && TargetCount(|old(peer)|) <= SLOTS
      reads this, pendingPeerRequest.Values
    {
      var r := ReadPeerRequest(m).value;
      var fan := FanOut(old(peerList), position, r, old(requestID), |old(peerList)|);
      && outbox == old(outbox) + fan
           + (if fan == [] then [Outgoing(from, MakePeerResponse(r.cpos, Nominated(r.cpos, address, position), r.responseID))] else [])
      && (fan == [] ==> requestID == old(requestID) && pendingPeerRequest == old(pendingPeerRequest))
      && (fan != [] ==>
            && requestID == Wrap32(old(requestID) as int + 1) && old(requestID) in pendingPeerRequest
            && pendingPeerRequest == old(pendingPeerRequest)[old(requestID) := pendingPeerRequest[old(requestID)]]
            && var f := pendingPeerRequest[old(requestID)];
               && fresh(f) && f.from == from && f.cpos == r.cpos && f.requests == |fan|
               && f.responses == 0 && f.bestPeers == Nominated(r.cpos, address, position)
               && f.responseID == r.responseID)
      && peer == Merged(position, old(peer), Nominated(position, r.cid, r.cpos))
    }

    /** The fans in `fans` keep their best peers and their count of answers. */
    twostate predicate FansKept(fans: set<PeerFan>)
      reads fans
    {
      forall g :: g in fans ==> g.bestPeers == old(g.bestPeers) && g.responses == old(g.responses)
    }

    /** What processPeerResponse leaves behind, `fans` being the fans pending before: an
        answer to a pending fan is merged into it, and once complete the fan answers its
        own requester (and, when `corrected`, is forgotten); every other fan is kept. An
        answer under no pending number becomes the slot array when its position is this
        node's, and is dropped otherwise, with every fan kept. */
    twostate predicate PeerResponseHandled(m: Payload, corrected: bool, fans: set<PeerFan>)
      requires old(Valid()) && ReadPeerResponse(m).Some? && fans == old(pendingPeerRequest).Values
      requires var r := ReadPeerResponse(m).value;
        r.requestID in old(pendingPeerRequest) ==> |r.peers| >= SLOTS
      reads this, fans
    {
      var r := ReadPeerResponse(m).value;
      && (r.requestID !in old(pendingPeerRequest) ==>
            && pendingPeerRequest == old(pendingPeerRequest)
            && outbox == old(outbox)
            && peer == (if r.cpos == position then r.peers else old(peer))
            && FansKept(fans))
      && (r.requestID in old(pendingPeerRequest) ==>
            var f := old(pendingPeerRequest)[r.requestID];
            && peer == old(peer)
            && pendingPeerRequest == (if corrected && f.responses as int >= f.requests
                                        then old(pendingPeerRequest) - {r.requestID}
                                        else old(pendingPeerRequest))
            && f.bestPeers == Merged(f.cpos, old(f.bestPeers), r.peers)
            && f.responses == Wrap32(old(f.responses) as int + 1)
            && outbox == old(outbox) + (if f.responses as int >= f.requests
                                          then [Outgoing(f.from, MakePeerResponse(r.cpos, f.bestPeers, f.responseID))]
                                          else [])
            && FansKept(fans - {f}))
    }

    /** processRequest as written: the owner answers; otherwise the request goes on to
        the owner unless the key is already pending, in which case nothing happens. */
    method ProcessRequestAsWritten(from: JString, m: Payload)
      requires ReadKey(m).Some?
      modifies this`outbox, this`pendingRequest
      ensures RequestHandled(from, m, false)
    {
      var key := m[1].s;
      var minid := NearestTo(positionOf(key));
      if address == minid {
        var value := Get(table, key);
        Send(from, MakeResponse(key, value));
      } else if key !in pendingRequest {
        Send(minid, m);
        pendingRequest := pendingRequest[key := [from]];
      }
    }

    /** processRequest with a requester of an already pending key remembered, so that
        the response reaches it too. */
    method ProcessRequest(from: JString, m: Payload)
      requires ReadKey(m).Some?
      modifies this`outbox, this`pendingRequest
      ensures RequestHandled(from, m, true)
    {
      var key := m[1].s;
      var minid := NearestTo(positionOf(key));
      if address == minid {
        var value := Get(table, key);
        Send(from, MakeResponse(key, value));
      } else if key !in pendingRequest {
        Send(minid, m);
        pendingRequest := pendingRequest[key := [from]];
      } else {
        pendingRequest := pendingRequest[key := pendingRequest[key] + [from]];
      }
    }

    /** processResponse: the key's requesters are forgotten and each gets the response;
        a response nobody asked for is dropped. */
    method ProcessResponse(m: Payload)
      requires ReadKey(m).Some?
      modifies this`outbox, this`pendingRequest
      ensures ResponseHandled(m)
    {
      var key := m[1].s;
      if key in pendingRequest {
        var requesters := pendingRequest[key];
        pendingRequest := pendingRequest - {key};
        var k := 0;
        while k < |requesters|
          invariant 0 <= k <= |requesters| && pendingRequest == old(pendingRequest) - {key}
          invariant outbox == old(outbox) + Relayed(requesters[..k], m)
        {
          assert Relayed(requesters[..k + 1], m) == Relayed(requesters[..k], m) + [Outgoing(requesters[k], m)];
          Send(requesters[k], m);
          k := k + 1;
        }
        assert requesters[..k] == requesters;
      } else {
        pendingRequest := pendingRequest - {key};
      }
    }

    /** processStoreRequest: the owner stores the value; any other node passes the
        request on to the owner. */
    method ProcessStoreRequest(m: Payload)
      requires ReadStore(m).Some?
      modifies this`outbox, this`table
      ensures StoreHandled(m)
    {
      var key := m[1].s;
      var value := m[2].s;
      var minid := NearestTo(positionOf(key));
      if address == minid {
        table := table[key := value];
      } else {
        Send(minid, m);
      }
    }

    /** The loop of processPeerRequest that passes the request on to every peer whose
        range meets the requested one; returns how many it sent. */
    method SendFanOut(r: PeerRequest) returns (sent: int)
      modifies this`outbox
      ensures outbox == old(outbox) + FanOut(peerList, position, r, requestID, |peerList|)
      ensures sent == |FanOut(peerList, position, r, requestID, |peerList|)|
    {
      sent := 0;
      var k := 0;
      while k < |peerList|
        invariant 0 <= k <= |peerList|
        invariant outbox == old(outbox) + FanOut(peerList, position, r, requestID, k)
        invariant sent == |FanOut(peerList, position, r, requestID, k)|
      {
        var range := FanRange(peerList, k, position, r.min, r.max);
        if range.1 > range.0 {
          Send(peerList[k].address, MakePeerRequest(r.cid, r.cpos, range.0, range.1, requestID));
          sent := sent + 1;
        }
        k := k + 1;
      }
    }

    /** processPeerRequest: fans the request out (or, when no peer covers any of the
        range, answers with this node alone), then merges the joining node into its own
        slots. */
    method ProcessPeerRequest(from: JString, m: Payload)
      requires Valid() && ReadPeerRequest(m).Some?
      requires |peer| >= 2 && TargetCount(|peer|) <= SLOTS
      modifies this`outbox, this`pendingPeerRequest, this`requestID, this`peer, this`peerList
      ensures Valid() && PeerRequestHandled(from, m)
      ensures table == old(table) && pendingRequest == old(pendingRequest)
    {
      var r := PeerRequest(m[1].s, m[2].f, m[3].f, m[4].f, m[5].i);
      var sent := SendFanOut(r);
      Answer(from, r, sent);
      MergeJoining(r);
    }

    /** The middle of processPeerRequest: with nothing sent on, this node answers alone;
        otherwise the fan is recorded. */
    method Answer(from: JString, r: PeerRequest, sent: int)
      requires Valid()
      modifies this`outbox, this`pendingPeerRequest, this`requestID
      ensures Valid()
      ensures outbox == old(outbox)
        + (if sent == 0 then [Outgoing(from, MakePeerResponse(r.cpos, Nominated(r.cpos, address, position), r.responseID))] else [])
      ensures sent == 0 ==> requestID == old(requestID) && pendingPeerRequest == old(pendingPeerRequest)
      ensures sent != 0 ==>
        && requestID == Wrap32(old(requestID) as int + 1) && old(requestID) in pendingPeerRequest
        && pendingPeerRequest == old(pendingPeerRequest)[old(requestID) := pendingPeerRequest[old(requestID)]]
        && var f := pendingPeerRequest[old(requestID)];
           && fresh(f) && f.from == from && f.cpos == r.cpos && f.requests == sent
           && f.responses == 0 && f.bestPeers == Nominated(r.cpos, address, position)
           && f.responseID == r.responseID
    {
      if sent == 0 {
        var alone := PeerNominate(r.cpos, address, position);
        Send(from, MakePeerResponse(r.cpos, alone, r.responseID));
      } else {
        RecordFan(from, r, sent);
      }
    }

    /** Remembers a fanned-out request under the current request number and moves on to
        the next number. */
    method RecordFan(from: JString, r: PeerRequest, sent: int)
      requires Valid()
      modifies this`pendingPeerRequest, this`requestID
      ensures Valid()
      ensures requestID == Wrap32(old(requestID) as int + 1) && old(requestID) in pendingPeerRequest
      ensures pendingPeerRequest == old(pendingPeerRequest)[old(requestID) := pendingPeerRequest[old(requestID)]]
      ensures var f := pendingPeerRequest[old(requestID)];
        && fresh(f) && f.from == from && f.cpos == r.cpos && f.requests == sent
        && f.responses == 0 && f.bestPeers == Nominated(r.cpos, address, position)
        && f.responseID == r.responseID
    {
      var f := new PeerFan(from, r.cpos, sent, r.responseID, address, position);
      pendingPeerRequest := pendingPeerRequest[requestID := f];
      requestID := Wrap32(requestID as int + 1);
    }

    /** The end of processPeerRequest: the joining node is merged into the slots where it
        is a better fit, and peer_list follows. */
    method MergeJoining(r: PeerRequest)
      requires Valid() && |peer| >= 2 && TargetCount(|peer|) <= SLOTS
      modifies this`peer, this`peerList
      ensures Valid() && peer == Merged(position, old(peer), Nominated(position, r.cid, r.cpos))
    {
      var joining := PeerNominate(position, r.cid, r.cpos);
      peer := MergePeers(position, peer, joining);
      UpdatePeerList();
    }

    /** processPeerResponse as written: an answer to a fan is merged into it, and the fan
        answers its own requester once complete, but its entry stays (`remove(cpos)`
        looks up a Float key among Integer ones); an answer to this node's own request,
        recognised by its position, becomes the slot array; any other answer is dropped. */
    method ProcessPeerResponseAsWritten(m: Payload)
      requires Valid() && ReadPeerResponse(m).Some?
      requires var r := ReadPeerResponse(m).value;
        r.requestID in pendingPeerRequest ==> |r.peers| >= SLOTS
      modifies this`peer, this`peerList, this`outbox, this`pendingPeerRequest
      modifies pendingPeerRequest.Values`bestPeers, pendingPeerRequest.Values`responses
      ensures Valid() && PeerResponseHandled(m, false, old(pendingPeerRequest).Values)
      ensures requestID == old(requestID) && table == old(table) && pendingRequest == old(pendingRequest)
    {
      var cpos := m[1].f;
      var id := m[2].i;
      var p := ReadPeerArray(m, m[3].h as nat);
      if id !in pendingPeerRequest {
        if cpos == position {
          peer := p;
          UpdatePeerList();
        }
      } else {
        var pf := pendingPeerRequest[id];
        var done := pf.HandleResponse(p);
        if done {
          Send(pf.from, MakePeerResponse(cpos, pf.bestPeers, pf.responseID));
        }
      }
    }

    /** processPeerResponse with a completed fan forgotten under its request number, as
        the removal after the answer is there for. */
    method ProcessPeerResponse(m: Payload)
      requires Valid() && ReadPeerResponse(m).Some?
      requires var r := ReadPeerResponse(m).value;
        r.requestID in pendingPeerRequest ==> |r.peers| >= SLOTS
      modifies this`peer, this`peerList, this`outbox, this`pendingPeerRequest
      modifies pendingPeerRequest.Values`bestPeers, pendingPeerRequest.Values`responses
      ensures Valid() && PeerResponseHandled(m, true, old(pendingPeerRequest).Values)
      ensures requestID == old(requestID) && table == old(table) && pendingRequest == old(pendingRequest)
    {
      var cpos := m[1].f;
      var id := m[2].i;
      var p := ReadPeerArray(m, m[3].h as nat);
      if id !in pendingPeerRequest {
        if cpos == position {
          peer := p;
          UpdatePeerList();
        }
      } else {
        var pf := pendingPeerRequest[id];
        var done := pf.HandleResponse(p);
        if done {
          Send(pf.from, MakePeerResponse(cpos, pf.bestPeers, pf.responseID));
          pendingPeerRequest := pendingPeerRequest - {id};
        }
      }
    }

    /** processMessage: dispatches on the type byte to the handlers as written; other
        types are ignored. */
    method ProcessMessage(from: JString, m: Payload)
      requires Valid() && |m| > 0 && m[0].Byte?
      requires m[0].b == REQUEST || m[0].b == RESPONSE ==> ReadKey(m).Some?
      requires m[0].b == STOREREQUEST ==> ReadStore(m).Some?
      requires m[0].b == PEERREQUEST ==> (ReadPeerRequest(m).Some? && |peer| >= 2 && TargetCount(|peer|) <= SLOTS)
      requires m[0].b == PEERRESPONSE ==>
        (ReadPeerResponse(m).Some?
         && (ReadPeerResponse(m).value.requestID in pendingPeerRequest ==> |ReadPeerResponse(m).value.peers| >= SLOTS))
      modifies this`outbox, this`pendingRequest, this`table, this`pendingPeerRequest
      modifies this`requestID, this`peer, this`peerList
      modifies pendingPeerRequest.Values`bestPeers, pendingPeerRequest.Values`responses
      ensures Valid()
      ensures m[0].b != PEERREQUEST ==> requestID == old(requestID)
      ensures m[0].b != STOREREQUEST ==> table == old(table)
      ensures m[0].b !in {REQUEST, RESPONSE} ==> pendingRequest == old(pendingRequest)
      ensures m[0].b != PEERREQUEST && m[0].b != PEERRESPONSE ==>
        peer == old(peer) && peerList == old(peerList) && pendingPeerRequest == old(pendingPeerRequest)
      ensures m[0].b != PEERRESPONSE ==> FansKept(old(pendingPeerRequest).Values)
      ensures !(REQUEST <= m[0].b <= PEERRESPONSE) ==> outbox == old(outbox)
      ensures m[0].b == REQUEST ==> RequestHandled(from, m, false)
      ensures m[0].b == RESPONSE ==> ResponseHandled(m)
      ensures m[0].b == STOREREQUEST ==> StoreHandled(m)
      ensures m[0].b == PEERREQUEST ==> PeerRequestHandled(from, m)
      ensures m[0].b == PEERRESPONSE ==> PeerResponseHandled(m, false, old(pendingPeerRequest).Values)
    {
      var messagetype := m[0].b;
      if REQUEST <= messagetype <= STOREREQUEST {
        ProcessKeyMessage(from, m, false);
      } else if messagetype == PEERREQUEST || messagetype == PEERRESPONSE {
        ProcessPeerMessage(from, m, false);
      }
    }

    /** processMessage with the two corrected handlers: a requester of a pending key is
        remembered, and a completed fan is forgotten. */
    method ProcessMessageCorrected(from: JString, m: Payload)
      requires Valid() && |m| > 0 && m[0].Byte?
      requires m[0].b == REQUEST || m[0].b == RESPONSE ==> ReadKey(m).Some?
      requires m[0].b == STOREREQUEST ==> ReadStore(m).Some?
      requires m[0].b == PEERREQUEST ==> (ReadPeerRequest(m).Some? && |peer| >= 2 && TargetCount(|peer|) <= SLOTS)
      requires m[0].b == PEERRESPONSE ==>
        (ReadPeerResponse(m).Some?
         && (ReadPeerResponse(m).value.requestID in pendingPeerRequest ==> |ReadPeerResponse(m).value.peers| >= SLOTS))
      modifies this`outbox, this`pendingRequest, this`table, this`pendingPeerRequest
      modifies this`requestID, this`peer, this`peerList
      modifies pendingPeerRequest.Values`bestPeers, pendingPeerRequest.Values`responses
      ensures Valid()
      ensures m[0].b != PEERREQUEST ==> requestID == old(requestID)
      ensures m[0].b != STOREREQUEST ==> table == old(table)
      ensures m[0].b !in {REQUEST, RESPONSE} ==> pendingRequest == old(pendingRequest)
      ensures m[0].b != PEERREQUEST && m[0].b != PEERRESPONSE ==>
        peer == old(peer) && peerList == old(peerList) && pendingPeerRequest == old(pendingPeerRequest)
      ensures m[0].b != PEERRESPONSE ==> FansKept(old(pendingPeerRequest).Values)
      ensures !(REQUEST <= m[0].b <= PEERRESPONSE) ==> outbox == old(outbox)
      ensures m[0].b == REQUEST ==> RequestHandled(from, m, true)
      ensures m[0].b == RESPONSE ==> ResponseHandled(m)
      ensures m[0].b == STOREREQUEST ==> StoreHandled(m)
      ensures m[0].b == PEERREQUEST ==> PeerRequestHandled(from, m)
      ensures m[0].b == PEERRESPONSE ==> PeerResponseHandled(m, true, old(pendingPeerRequest).Values)
    {
      var messagetype := m[0].b;
      if REQUEST <= messagetype <= STOREREQUEST {
        ProcessKeyMessage(from, m, true);
      } else if messagetype == PEERREQUEST || messagetype == PEERRESPONSE {
        ProcessPeerMessage(from, m, true);
      }
    }

    /** The key-value half of processMessage's dispatch, to the handlers as written or,
        when `corrected`, to the corrected processRequest. */
    method ProcessKeyMessage(from: JString, m: Payload, corrected: bool)
      requires |m| > 0 && m[0].Byte? && REQUEST <= m[0].b <= STOREREQUEST
      requires m[0].b == REQUEST || m[0].b == RESPONSE ==> ReadKey(m).Some?
      requires m[0].b == STOREREQUEST ==> ReadStore(m).Some?
      modifies this`outbox, this`pendingRequest, this`table
      ensures requestID == old(requestID) && peer == old(peer) && peerList == old(peerList)
      ensures pendingPeerRequest == old(pendingPeerRequest) && FansKept(old(pendingPeerRequest).Values)
      ensures m[0].b != STOREREQUEST ==> table == old(table)
      ensures m[0].b == STOREREQUEST ==> pendingRequest == old(pendingRequest)
      ensures m[0].b == REQUEST ==> RequestHandled(from, m, corrected)
      ensures m[0].b == RESPONSE ==> ResponseHandled(m)
      ensures m[0].b == STOREREQUEST ==> StoreHandled(m)
    {
      var messagetype := m[0].b;
      if messagetype == REQUEST {
        if corrected {
          ProcessRequest(from, m);
        } else {
          ProcessRequestAsWritten(from, m);
        }
      } else if messagetype == RESPONSE {
        ProcessResponse(m);
      } else {
        ProcessStoreRequest(m);
      }
    }

    /** The peer half of processMessage's dispatch, to the handlers as written or, when
        `corrected`, to the corrected processPeerResponse. */
    method ProcessPeerMessage(from: JString, m: Payload, corrected: bool)
      requires Valid() && |m| > 0 && m[0].Byte? && (m[0].b == PEERREQUEST || m[0].b == PEERRESPONSE)
      requires m[0].b == PEERREQUEST ==> (ReadPeerRequest(m).Some? && |peer| >= 2 && TargetCount(|peer|) <= SLOTS)
      requires m[0].b == PEERRESPONSE ==>
        (ReadPeerResponse(m).Some?
         && (ReadPeerResponse(m).value.requestID in pendingPeerRequest ==> |ReadPeerResponse(m).value.peers| >= SLOTS))
      modifies this`outbox, this`pendingPeerRequest, this`requestID, this`peer, this`peerList
      modifies pendingPeerRequest.Values`bestPeers, pendingPeerRequest.Values`responses
      ensures Valid() && table == old(table) && pendingRequest == old(pendingRequest)
      ensures m[0].b == PEERREQUEST ==> PeerRequestHandled(from, m) && FansKept(old(pendingPeerRequest).Values)
      ensures m[0].b == PEERRESPONSE ==>
        requestID == old(requestID) && PeerResponseHandled(m, corrected, old(pendingPeerRequest).Values)
    {
      if m[0].b == PEERREQUEST {
        ProcessPeerRequest(from, m);
      } else if corrected {
        ProcessPeerResponse(m);
      } else {
        ProcessPeerResponseAsWritten(m);
      }
    }
  }
}
