/** The network simulator's bookkeeping: nodes that queue the messages they receive,
    links that limit throughput and add latency, and the network that gates sends,
    creates links lazily, queues transmissions by arrival time and delivers the due ones.
    The clock and the random draws are parameters; the threads are left out, so a call
    of DeliveryPass stands for one pass of the network thread's outer loop. */
module Simulator {
  import opened JavaInt
  import opened FlowControl

  /** A received message: the sender's address and the bytes. */
  datatype Message = Message(from: string, message: seq<int8>)

  /** A message in flight. */
  datatype Transmission = Transmission(
    from: string, to: string, message: seq<int8>,
    sentTime: real, arrivalTime: real, dropped: bool)

  /** A link's latency, rate, maximum, flow and last refill time. */
  datatype LinkState = LinkState(latency: real, refillRate: real, maximumFlow: real,
                                 flow: real, lastTime: real)

  function Max(a: real, b: real): (m: real)
    ensures m >= a && m >= b && (m == a || m == b)
  {
    if a >= b then a else b
  }

  /** The key of the link from `from` to `to` in the links table. */
  function LinkKey(from: string, to: string): string
  {
    from + "-" + to
  }

  /** Addresses containing '-' let two different directed pairs share one link. */
  lemma LinkKeyShared()
    ensures ("a-b", "c") != ("a", "b-c") && LinkKey("a-b", "c") == LinkKey("a", "b-c")
  {
  }

  /** The position of the first '-' in s, or |s| when there is none. */
  function FirstDash(s: string): (i: nat)
    ensures i <= |s|
  {
    if s == [] || s[0] == '-' then 0 else 1 + FirstDash(s[1..])
  }

  lemma {:induction false} FirstDashOfKey(f: string, t: string)
    requires '-' !in f
    ensures FirstDash(LinkKey(f, t)) == |f|
  {
    if f != [] {
      assert LinkKey(f, t)[1..] == LinkKey(f[1..], t);
      FirstDashOfKey(f[1..], t);
    }
  }

  /** The key names its pair when no address contains '-'. */
  lemma LinkKeyInjective(f: string, t: string, f': string, t': string)
    requires '-' !in f && '-' !in f'
    requires LinkKey(f, t) == LinkKey(f', t')
    ensures f == f' && t == t'
  {
    var key := LinkKey(f, t);
    FirstDashOfKey(f, t);
    FirstDashOfKey(f', t');
    assert f == key[..|f|] && f' == key[..|f'|];
    assert t == key[|f| + 1..] && t' == key[|f'| + 1..];
  }

  // ----- the transmission queue -----

  /** Ordered by arrival time, as the priority queue hands transmissions out. */
  ghost predicate Sorted(q: seq<Transmission>)
  {
    forall i, j :: 0 <= i < j < |q| ==> q[i].arrivalTime <= q[j].arrivalTime
  }

  /** How many transmissions at the front of q arrive no later than `time`. */
  function InsertIndex(q: seq<Transmission>, time: real): (i: nat)
    ensures i <= |q|
    ensures forall j :: 0 <= j < i ==> q[j].arrivalTime <= time
    ensures i < |q| ==> q[i].arrivalTime > time
  {
    if q == [] || q[0].arrivalTime > time then 0 else 1 + InsertIndex(q[1..], time)
  }

  /** q with m queued behind every transmission that arrives no later than m. */
  function InsertByArrival(q: seq<Transmission>, m: Transmission): seq<Transmission>
  {
    var i := InsertIndex(q, m.arrivalTime);
    q[..i] + [m] + q[i..]
  }

  /** Queueing adds exactly m. */
  lemma InsertByArrivalAdds(q: seq<Transmission>, m: Transmission)
    ensures multiset(InsertByArrival(q, m)) == multiset(q) + multiset{m}
    ensures |InsertByArrival(q, m)| == |q| + 1
  {
    var i := InsertIndex(q, m.arrivalTime);
    assert q == q[..i] + q[i..];
  }

  /** Queueing keeps the queue ordered by arrival time. */
  lemma InsertByArrivalSorted(q: seq<Transmission>, m: Transmission)
    requires Sorted(q)
    ensures Sorted(InsertByArrival(q, m))
  {
    var i := InsertIndex(q, m.arrivalTime);
    var r := InsertByArrival(q, m);
    forall a, b | 0 <= a < b < |r|
      ensures r[a].arrivalTime <= r[b].arrivalTime
    {
      InsertedAt(q, m, a);
      InsertedAt(q, m, b);
    }
  }

  /** Entry k of the queue after inserting m. */
  lemma InsertedAt(q: seq<Transmission>, m: Transmission, k: nat)
    requires k <= |q|
    ensures var i, r := InsertIndex(q, m.arrivalTime), InsertByArrival(q, m);
      && |r| == |q| + 1
      && r[k] == if k < i then q[k] else if k == i then m else q[k - 1]
  {
  }

  /** How many transmissions at the front of q arrive strictly before `time`: the ones
      a delivery pass at `time` takes off the queue. */
  function DueCount(q: seq<Transmission>, time: real): (k: nat)
    ensures k <= |q|
    ensures forall j :: 0 <= j < k ==> q[j].arrivalTime < time
    ensures k < |q| ==> q[k].arrivalTime >= time
  {
    if q == [] || q[0].arrivalTime >= time then 0 else 1 + DueCount(q[1..], time)
  }

  /** On an ordered queue the due ones are exactly the transmissions arriving before
      `time`. */
  lemma DueExactly(q: seq<Transmission>, time: real)
    requires Sorted(q)
    ensures forall j :: 0 <= j < |q| ==> (j < DueCount(q, time) <==> q[j].arrivalTime < time)
  {
    var k := DueCount(q, time);
    forall j | k <= j < |q|
      ensures q[j].arrivalTime >= time
    {
      assert q[k].arrivalTime <= q[j].arrivalTime;
    }
  }

  /** The messages the transmissions ts hand to the node at address a, in order. */
  function Deliveries(ts: seq<Transmission>, a: string): seq<Message>
  {
    if ts == [] then []
    else Deliveries(ts[..|ts| - 1], a) + Delivery(ts[|ts| - 1], a)
  }

  function Delivery(t: Transmission, a: string): seq<Message>
  {
    if t.to == a && !t.dropped then [Message(t.from, t.message)] else []
  }

  /** Only non-dropped transmissions addressed to a reach a. */
  lemma {:induction false} DeliveriesFrom(ts: seq<Transmission>, a: string)
    ensures forall m :: m in Deliveries(ts, a) <==>
              exists t :: t in ts && t.to == a && !t.dropped && m == Message(t.from, t.message)
  {
    if ts != [] {
      var init, last := ts[..|ts| - 1], ts[|ts| - 1];
      DeliveriesFrom(init, a);
      assert ts == init + [last];
    }
  }

  /** A message for a node nobody addresses arrives nowhere. */
  lemma {:induction false} DeliveriesNone(ts: seq<Transmission>, a: string)
    requires forall j :: 0 <= j < |ts| ==> ts[j].to != a
    ensures Deliveries(ts, a) == []
  {
    if ts != [] {
      DeliveriesNone(ts[..|ts| - 1], a);
    }
  }

  // ----- nodes -----

  /** A peer of the simulated network (the base class every application node extends). */
  class Node {
    const address: string
    var messageQueue: seq<Message>
    var stopped: bool
    var network: Network?
    var x: real
    var y: real
    var refillRate: real
    var maximumFlow: real
    var flow: real
    var lastTime: real

    constructor(address: string)
      ensures this.address == address && messageQueue == [] && !stopped && network == null
    {
      this.address := address;
      messageQueue := [];
      stopped := false;
      network := null;
    }

    /** Queues a received message at the back. */
    method Receive(from: string, message: seq<int8>)
      modifies this`messageQueue
      ensures messageQueue == old(messageQueue) + [Message(from, message)]
    {
      messageQueue := messageQueue + [Message(from, message)];
    }

    /** Hands a message to the network this node belongs to; a node outside any network
        sends nothing. */
    method Send(to: string, message: seq<int8>, linkClock: real, sentClock: real,
                latencyDraw: real, dropDraw: real)
        returns (ghost sent: Option<Transmission>)
      requires network != null ==> network.Valid()
      modifies (if network == null then {} else {network})`links
      modifies (if network == null then {} else {network})`transmitQueue
      modifies (if network == null then {} else network.links.Values)`flow
      modifies (if network == null then {} else network.links.Values)`lastTime
      modifies (if network == null then {} else network.links.Values)`lastArrival
      modifies (if network == null then {} else network.nodes.Values)`flow
      modifies (if network == null then {} else network.nodes.Values)`lastTime
      ensures network == old(network)
      ensures old(network) == null ==> sent == None
      ensures network != null ==> network.Valid()
      ensures network != null ==> (sent.Some? <==> old(network.Open(address, to)))
      ensures network != null && sent.None? ==> network.transmitQueue == old(network.transmitQueue)
      ensures network != null ==> network.nodes == old(network.nodes)
      ensures network != null && sent.None? ==> network.links == old(network.links)
      ensures network != null && sent.Some? ==>
        && LinkKey(address, to) in network.links
        && sent.value.from == address && sent.value.to == to && sent.value.message == message
        && sent.value.sentTime == sentClock && sent.value.dropped == (dropDraw < network.packetDropChance)
        && sent.value.arrivalTime == Max(network.links[LinkKey(address, to)].lastArrival,
                                         sentClock + Wait(|message|, old(network.nodes[to].RefilledAt(sentClock)),
                                                          network.nodes[to].refillRate))
        && network.nodes[to].flow == old(network.nodes[to].RefilledAt(sentClock)) - |message| as real
        && network.nodes[to].lastTime == sentClock
        && network.transmitQueue == InsertByArrival(old(network.transmitQueue), sent.value)
      ensures network != null && sent.Some? ==>
        var key := LinkKey(address, to);
        var b, l := old(network.LinkOnSend(address, to, linkClock, latencyDraw)), network.links[key];
        var linkFlow := Refilled(b.flow, b.refillRate, b.maximumFlow, b.lastTime, sentClock);
        && (key in old(network.links) ==> network.links == old(network.links))
        && (key !in old(network.links) ==> fresh(l) && network.links == old(network.links)[key := l])
        && l.latency == b.latency && l.refillRate == b.refillRate && l.maximumFlow == b.maximumFlow
        && l.lastArrival == sentClock + b.latency + Wait(|message|, linkFlow, b.refillRate)
        && l.flow == linkFlow - |message| as real && l.lastTime == sentClock
      ensures network != null ==>
        forall k :: k in old(network.links) && (sent.None? || k != LinkKey(address, to)) ==>
          && network.links[k].flow == old(network.links[k].flow)
          && network.links[k].lastTime == old(network.links[k].lastTime)
          && network.links[k].lastArrival == old(network.links[k].lastArrival)
      ensures network != null ==>
        forall a :: a in network.nodes && (sent.None? || a != to) ==>
          && network.nodes[a].flow == old(network.nodes[a].flow)
          && network.nodes[a].lastTime == old(network.nodes[a].lastTime)
      ensures network != null ==>
        forall a :: a in network.nodes ==>
          && network.nodes[a].messageQueue == old(network.nodes[a].messageQueue)
          && network.nodes[a].stopped == old(network.nodes[a].stopped)
    {
      sent := None;
      if network != null {
        sent := network.SendMessage(address, to, message, linkClock, sentClock,
                                    latencyDraw, dropDraw);
      }
    }

    /** Marks the node stopped; stopping twice is stopping once. */
    method Stop()
      modifies this`stopped
      ensures stopped
    {
      stopped := true;
    }

    /** What the bucket holds at `time`, refilled and capped. */
    ghost function RefilledAt(time: real): real
      reads this`flow, this`refillRate, this`maximumFlow, this`lastTime
    {
      Refilled(flow, refillRate, maximumFlow, lastTime, time)
    }

    /** Refills the download bucket up to `time`. */
    method UpdateFlow(time: real)
      modifies this`flow, this`lastTime
      ensures flow == old(RefilledAt(time)) && lastTime == time
    {
      flow := flow + refillRate * (time - lastTime);
      if flow > maximumFlow {
        flow := maximumFlow;
      }
      lastTime := time;
    }

    /** When a message of `size` bytes requested at `requestTime` has been downloaded:
        the bucket is refilled, the wait is the part of `size` it does not hold, and the
        whole size is debited, so the flow may go negative. */
    method SendTime(size: int, requestTime: real) returns (arrival: real)
      requires refillRate > 0.0
      modifies this`flow, this`lastTime
      ensures arrival == requestTime + Wait(size, old(RefilledAt(requestTime)), refillRate)
      ensures flow == old(RefilledAt(requestTime)) - size as real && lastTime == requestTime
    {
      UpdateFlow(requestTime);
      var w := (size as real - flow) / refillRate;
      arrival := requestTime + (if w > 0.0 then w else 0.0);
      flow := flow - size as real;
    }
  }

  // ----- links -----

  /** The directed connection between two addresses, with its own token bucket. */
  class Link {
    const from: string
    const to: string
    const latency: real
    const refillRate: real
    const maximumFlow: real
    var flow: real
    var lastTime: real
    var lastArrival: real

    constructor(from: string, to: string, latency: real, refill: real, max: real, time: real)
      ensures this.from == from && this.to == to && this.latency == latency
      ensures refillRate == refill && maximumFlow == max && flow == max && lastTime == time
    {
      this.from := from;
      this.to := to;
      this.latency := latency;
      refillRate := refill;
      maximumFlow := max;
      lastTime := time;
      flow := max;
    }

    ghost function RefilledAt(time: real): real
      reads this`flow, this`lastTime
    {
      Refilled(flow, refillRate, maximumFlow, lastTime, time)
    }

    /** Refills the link's bucket up to `time`. */
    method UpdateFlow(time: real)
      modifies this`flow, this`lastTime
      ensures flow == old(RefilledAt(time)) && lastTime == time
    {
      flow := flow + refillRate * (time - lastTime);
      if flow > maximumFlow {
        flow := maximumFlow;
      }
      lastTime := time;
    }

    /** When a message of `size` bytes put on the link at `requestTime` arrives: the
        latency plus the wait for the bucket; the size is debited and the arrival
        remembered. */
    method SendTime(size: int, requestTime: real) returns (arrival: real)
      requires refillRate > 0.0
      modifies this`flow, this`lastTime, this`lastArrival
      ensures arrival == requestTime + latency + Wait(size, old(RefilledAt(requestTime)), refillRate)
      ensures flow == old(RefilledAt(requestTime)) - size as real && lastTime == requestTime
      ensures lastArrival == arrival
    {
      UpdateFlow(requestTime);
      var w := (size as real - flow) / refillRate;
      arrival := requestTime + latency + (if w > 0.0 then w else 0.0);
      flow := flow - size as real;
      lastArrival := arrival;
    }
  }

  // ----- the network -----

  /** What `distance` returns for an unknown address: the int 99999999 converted to a
      Java float, which rounds it to 10^8. */
  const UnknownDistance: real := 100000000.0

  class Network {
    var nodes: map<string, Node>
    var links: map<string, Link>
    var transmitQueue: seq<Transmission>
    var stopped: bool
    const defaultLinkRate: real
    const latencyPerDistance: real
    const maxRandomLatency: real
    const packetDropChance: real
    /** Math.sqrt, a call into the platform. */
    const sqrt: real -> real

    /** Nodes are registered under their own addresses, every rate is positive, each
        link object sits under one key only (every link is created fresh for its key)
        and the queue is ordered by arrival time. */
    ghost predicate Valid()
      reads this, nodes.Values`refillRate
    {
      && defaultLinkRate > 0.0
      && (forall a :: a in nodes ==> nodes[a].address == a && nodes[a].refillRate > 0.0)
      && (forall k :: k in links ==> links[k].refillRate > 0.0)
      && (forall k, k' :: k in links && k' in links && k != k' ==> links[k] != links[k'])
      && Sorted(transmitQueue)
    }

    /** Both endpoints are registered and running. */
    ghost predicate Open(from: string, to: string)
      reads this, nodes.Values`stopped
    {
      from in nodes && !nodes[from].stopped && to in nodes && !nodes[to].stopped
    }

    constructor(defaultLinkRate: real, latencyPerDistance: real, maxRandomLatency: real,
                packetDropChance: real, sqrt: real -> real)
      requires defaultLinkRate > 0.0
      ensures Valid() && nodes == map[] && links == map[] && transmitQueue == [] && !stopped
      ensures this.defaultLinkRate == defaultLinkRate && this.latencyPerDistance == latencyPerDistance
      ensures this.maxRandomLatency == maxRandomLatency && this.packetDropChance == packetDropChance
      ensures this.sqrt == sqrt
    {
      this.defaultLinkRate := defaultLinkRate;
      this.latencyPerDistance := latencyPerDistance;
      this.maxRandomLatency := maxRandomLatency;
      this.packetDropChance := packetDropChance;
      this.sqrt := sqrt;
      nodes := map[];
      links := map[];
      transmitQueue := [];
      stopped := false;
    }

    /** Registers n under its address at (x, y), with download rate `rate` and a full
        bucket of ten times the rate. */
    method AddNode(n: Node, x: real, y: real, rate: real, time: real)
      requires Valid() && rate > 0.0
      modifies this`nodes, n`x, n`y, n`refillRate, n`maximumFlow, n`flow, n`lastTime, n`network
      ensures Valid() && nodes == old(nodes)[n.address := n]
      ensures n.x == x && n.y == y && n.refillRate == rate && n.maximumFlow == 10.0 * rate
      ensures n.flow == 10.0 * rate && n.lastTime == time && n.network == this
    {
      n.x := x;
      n.y := y;
      n.refillRate := rate;
      n.maximumFlow := 10.0 * rate;
      n.flow := n.maximumFlow;
      n.lastTime := time;
      n.network := this;
      nodes := nodes[n.address := n];
    }

    /** Replaces the link from `from` to `to` by a fresh one with the given latency and
        rate. */
    method SetLink(from: string, to: string, latency: real, rate: real, time: real)
      requires Valid() && rate > 0.0
      modifies this`links
      ensures Valid() && LinkKey(from, to) in links
      ensures links == old(links)[LinkKey(from, to) := links[LinkKey(from, to)]]
      ensures var l := links[LinkKey(from, to)];
        fresh(l) && l.latency == latency && l.refillRate == rate && l.maximumFlow == 10.0 * rate
        && l.flow == 10.0 * rate && l.lastTime == time
    {
      var l := new Link(from, to, latency, rate, rate * 10.0, time);
      links := links[LinkKey(from, to) := l];
    }

    /** The Euclidean distance between two registered nodes. */
    function Distance(from: string, to: string): real
      reads this`nodes, nodes.Values`x, nodes.Values`y
    {
      if from !in nodes || to !in nodes then UnknownDistance
      else
        var a, b := nodes[from], nodes[to];
        sqrt((a.x - b.x) * (a.x - b.x) + (a.y - b.y) * (a.y - b.y))
    }

    lemma DistanceUnknown(from: string, to: string)
      requires from !in nodes || to !in nodes
      ensures Distance(from, to) == 100000000.0
    {
    }

    lemma DistanceSymmetric(from: string, to: string)
      ensures Distance(from, to) == Distance(to, from)
    {
      if from in nodes && to in nodes {
        var a, b := nodes[from], nodes[to];
        assert (a.x - b.x) * (a.x - b.x) == (b.x - a.x) * (b.x - a.x);
        assert (a.y - b.y) * (a.y - b.y) == (b.y - a.y) * (b.y - a.y);
      }
    }

    /** The link from `from` to `to`, created with the default rate and a latency of
        the distance times the per-distance latency plus a random share of the maximum
        random latency when there is none yet. */
    method LinkFor(from: string, to: string, time: real, latencyDraw: real) returns (l: Link)
      requires Valid()
      modifies this`links
      ensures Valid() && LinkKey(from, to) in links && l == links[LinkKey(from, to)]
      ensures LinkKey(from, to) in old(links) ==> links == old(links)
      ensures LinkKey(from, to) !in old(links) ==>
        && fresh(l) && links == old(links)[LinkKey(from, to) := l]
        && l.latency == latencyPerDistance * Distance(from, to) + latencyDraw * maxRandomLatency
        && l.refillRate == defaultLinkRate && l.maximumFlow == defaultLinkRate * 10.0
        && l.flow == defaultLinkRate * 10.0 && l.lastTime == time
      ensures var b := old(LinkOnSend(from, to, time, latencyDraw));
        && l.latency == b.latency && l.refillRate == b.refillRate && l.maximumFlow == b.maximumFlow
        && l.flow == b.flow && l.lastTime == b.lastTime
      ensures forall k :: k in links && k != LinkKey(from, to) ==> links[k] != l
    {
      var key := LinkKey(from, to);
      if key in links {
        l := links[key];
      } else {
        l := new Link(from, to,
                      latencyPerDistance * Distance(from, to) + latencyDraw * maxRandomLatency,
                      defaultLinkRate, defaultLinkRate * 10.0, time);
        links := links[key := l];
      }
    }

    /** The link from `from` to `to` as sendMessage finds it, or creates it at
        `linkClock` with latency draw `latencyDraw` when there is none. */
    ghost function LinkOnSend(from: string, to: string, linkClock: real, latencyDraw: real): LinkState
      reads this`links, links.Values`flow, links.Values`lastTime, this`nodes, nodes.Values`x, nodes.Values`y
    {
      var key := LinkKey(from, to);
      if key in links then
        var l := links[key];
        LinkState(l.latency, l.refillRate, l.maximumFlow, l.flow, l.lastTime)
      else
        LinkState(latencyPerDistance * Distance(from, to) + latencyDraw * maxRandomLatency,
                  defaultLinkRate, defaultLinkRate * 10.0, defaultLinkRate * 10.0, linkClock)
    }

    /** Sends a message from `from` to `to` if both are registered and running: the
        link (created when missing) and the receiver's download bucket each give a
        completion time, and the transmission is queued for the later of the two.
        `linkClock` and `sentClock` are the two clock readings, `latencyDraw` and
        `dropDraw` the two random draws in [0, 1). */
    method SendMessage(from: string, to: string, message: seq<int8>, linkClock: real,
                       sentClock: real, latencyDraw: real, dropDraw: real)
        returns (ghost sent: Option<Transmission>)
      requires Valid()
      modifies this`links, this`transmitQueue, links.Values`flow, links.Values`lastTime, links.Values`lastArrival
      modifies nodes.Values`flow, nodes.Values`lastTime
      ensures Valid() && nodes == old(nodes)
      ensures sent.Some? <==> old(Open(from, to))
      ensures sent.None? ==> links == old(links) && transmitQueue == old(transmitQueue)
      ensures sent.Some? ==>
        && LinkKey(from, to) in links
        && (LinkKey(from, to) in old(links) ==> links == old(links))
        && (LinkKey(from, to) !in old(links) ==>
              fresh(links[LinkKey(from, to)])
              && links == old(links)[LinkKey(from, to) := links[LinkKey(from, to)]])
      ensures sent.Some? ==>
        var b, l := old(LinkOnSend(from, to, linkClock, latencyDraw)), links[LinkKey(from, to)];
        var linkFlow := Refilled(b.flow, b.refillRate, b.maximumFlow, b.lastTime, sentClock);
        && l.latency == b.latency && l.refillRate == b.refillRate && l.maximumFlow == b.maximumFlow
        && l.lastArrival == sentClock + b.latency + Wait(|message|, linkFlow, b.refillRate)
        && l.flow == linkFlow - |message| as real && l.lastTime == sentClock
      ensures sent.Some? ==>
        && sent.value.from == from && sent.value.to == to && sent.value.message == message
        && sent.value.sentTime == sentClock && sent.value.dropped == (dropDraw < packetDropChance)
        && sent.value.arrivalTime == Max(links[LinkKey(from, to)].lastArrival,
                                         sentClock + Wait(|message|, old(nodes[to].RefilledAt(sentClock)), nodes[to].refillRate))
        && sent.value.arrivalTime >= sentClock + links[LinkKey(from, to)].latency
        && nodes[to].flow == old(nodes[to].RefilledAt(sentClock)) - |message| as real
        && nodes[to].lastTime == sentClock
        && transmitQueue == InsertByArrival(old(transmitQueue), sent.value)
      ensures forall k :: k in old(links) && (sent.None? || k != LinkKey(from, to)) ==>
        && links[k].flow == old(links[k].flow) && links[k].lastTime == old(links[k].lastTime)
        && links[k].lastArrival == old(links[k].lastArrival)
      ensures forall a :: a in nodes && (sent.None? || a != to) ==>
        nodes[a].flow == old(nodes[a].flow) && nodes[a].lastTime == old(nodes[a].lastTime)
    {
      sent := None;
      if from in nodes && !nodes[from].stopped && to in nodes && !nodes[to].stopped {
        var t := nodes[to];
        var l := LinkFor(from, to, linkClock, latencyDraw);
        var m := Transmit(from, to, message, sentClock, dropDraw, l, t);
        sent := Some(m);
      }
    }

    /** The end of sendMessage: the link's and the receiver's completion times, and the
        transmission queued for the later one. */
    method Transmit(from: string, to: string, message: seq<int8>, sentClock: real, dropDraw: real,
                    l: Link, t: Node) returns (m: Transmission)
      requires Valid() && l.refillRate > 0.0 && t.refillRate > 0.0
      modifies this`transmitQueue, l`flow, l`lastTime, l`lastArrival, t`flow, t`lastTime
      ensures Valid()
      ensures l.lastArrival == sentClock + l.latency + Wait(|message|, old(l.RefilledAt(sentClock)), l.refillRate)
      ensures l.flow == old(l.RefilledAt(sentClock)) - |message| as real && l.lastTime == sentClock
      ensures t.flow == old(t.RefilledAt(sentClock)) - |message| as real && t.lastTime == sentClock
      ensures && m.from == from && m.to == to && m.message == message
        && m.sentTime == sentClock && m.dropped == (dropDraw < packetDropChance)
        && m.arrivalTime == Max(l.lastArrival, sentClock + Wait(|message|, old(t.RefilledAt(sentClock)), t.refillRate))
        && m.arrivalTime >= sentClock + l.latency
        && transmitQueue == InsertByArrival(old(transmitQueue), m)
    {
      var viaLink := l.SendTime(|message|, sentClock);
      WaitBounds(|message|, old(l.RefilledAt(sentClock)), l.refillRate);
      var atNode := t.SendTime(|message|, sentClock);
      m := Transmission(from, to, message, sentClock, Max(viaLink, atNode),
                        dropDraw < packetDropChance);
      InsertByArrivalSorted(transmitQueue, m);
      transmitQueue := InsertByArrival(transmitQueue, m);
    }

    /** Stops every registered node and the network. */
    method Stop()
      requires Valid()
      modifies this`stopped, nodes.Values`stopped
      ensures Valid() && stopped && forall a :: a in nodes ==> nodes[a].stopped
    {
      var pending := nodes.Keys;
      while pending != {}
        invariant pending <= nodes.Keys
        invariant forall a :: a in nodes && a !in pending ==> nodes[a].stopped
        decreases pending
      {
        var a :| a in pending;
        nodes[a].Stop();
        pending := pending - {a};
      }
      stopped := true;
    }

    /** Stops the node registered at `address`. */
    method StopNode(address: string)
      requires address in nodes
      modifies {nodes[address]}`stopped
      ensures nodes[address].stopped
    {
      nodes[address].Stop();
    }

    /** A random registered address, "" when there is none. `draw` is the random draw in
        [0, 1) and `order` the order in which the key set is iterated; `rest` is what the
        iterator has still to hand out. */
    method RandomNode(draw: real, order: seq<string>) returns (r: string)
      requires Valid() && 0.0 <= draw < 1.0
      requires |order| == |nodes| && forall a :: a in order <==> a in nodes
      ensures |nodes| == 0 ==> r == ""
      ensures |nodes| > 0 ==> var which := Which(|nodes|, draw);
                0 <= which < |order| && r in nodes && r == order[which]
    {
      if |nodes| == 0 {
        return "";
      }
      var which := Which(|nodes|, draw);
      FloorBelow(|nodes|, draw);
      var rest := order;
      var w := 0;
      while w < which
        invariant 0 <= w <= which && rest == order[w..]
      {
        rest := rest[1..];
        w := w + 1;
      }
      var a := rest[0];
      assert a in nodes;
      r := nodes[a].address;
    }

    /** One pass of the delivery loop at `time`: takes every transmission due before
        `time` off the front of the queue and hands it to its receiver when that is
        registered, running and the transmission was not dropped. */
    method DeliveryPass(time: real)
      requires Valid()
      modifies this`transmitQueue, nodes.Values`messageQueue
      ensures Valid()
      ensures transmitQueue == old(transmitQueue)[DueCount(old(transmitQueue), time)..]
      ensures forall a :: a in nodes ==>
                nodes[a].messageQueue == old(nodes[a].messageQueue) +
                  (if nodes[a].stopped then []
                   else Deliveries(old(transmitQueue)[..DueCount(old(transmitQueue), time)], a))
    {
      ghost var q := transmitQueue;
      ghost var k := DueCount(q, time);
      ghost var done := 0;
      while |transmitQueue| > 0 && transmitQueue[0].arrivalTime < time
        invariant done <= k && transmitQueue == q[done..]
        invariant Valid()
        invariant forall a :: a in nodes ==>
                    nodes[a].messageQueue == old(nodes[a].messageQueue) +
                      (if nodes[a].stopped then [] else Deliveries(q[..done], a))
        decreases |transmitQueue|
      {
        DeliverHead(q, done, time);
        assert q[..done + 1][..done] == q[..done];
        done := done + 1;
      }
      assert done == k;
    }

    /** One step of the delivery loop: the head of the queue, q[done], is taken off and
        delivered. */
    method DeliverHead(ghost q: seq<Transmission>, ghost done: nat, time: real)
      requires Valid() && done < DueCount(q, time) && transmitQueue == q[done..]
      modifies this`transmitQueue, nodes.Values`messageQueue
      ensures Valid() && transmitQueue == q[done + 1..]
      ensures forall a :: a in nodes ==>
                nodes[a].messageQueue == old(nodes[a].messageQueue) +
                  (if nodes[a].stopped then [] else Delivery(q[done], a))
    {
      var m := transmitQueue[0];
      transmitQueue := transmitQueue[1..];
      assert Valid() by {
        forall i, j | 0 <= i < j < |transmitQueue|
          ensures transmitQueue[i].arrivalTime <= transmitQueue[j].arrivalTime
        {
          assert transmitQueue[i] == old(transmitQueue)[i + 1];
          assert transmitQueue[j] == old(transmitQueue)[j + 1];
        }
      }
      if m.to in nodes {
        var t := nodes[m.to];
        if !t.stopped && !m.dropped {
          t.Receive(m.from, m.message);
        }
      }
    }
  }

  /** `(int) (n * draw)`: the index a draw in [0, 1) picks among n entries. */
  function Which(n: nat, draw: real): int
  {
    (n as real * draw).Floor
  }

  lemma FloorBelow(n: nat, draw: real)
    requires n > 0 && 0.0 <= draw < 1.0
    ensures 0 <= Which(n, draw) < n
  {
    var x := n as real * draw;
    assert 0.0 <= x;
    assert n as real - x == n as real * (1.0 - draw);
    assert n as real * (1.0 - draw) > 0.0;
    assert x.Floor as real <= x;
  }
}
