/** The peer-selection rules of the distributed hashtable. A node at position c
    (a point of [0, 1)) keeps 2 + 2 * PEERDEPTH peer slots, the lower half for peers
    below c and the upper half for peers above it; each slot has a target point, and of
    two candidates for a slot the one closer to its target wins. Positions are reals;
    the single-precision rounding of the Java floats is not modelled. */
module PeerAlgorithms {
  import opened JavaInt

  const PEERDEPTH: nat := 3
  /** The length of every peer array a node builds. */
  const SLOTS: nat := 2 + 2 * PEERDEPTH

  /** A known node: its address and its position. Two peers are the same peer when
      their addresses agree. */
  datatype Peer = Peer(address: JString, position: real)

  /** Peer.equals: a peer never equals null, and otherwise compares addresses. */
  predicate PeerEquals(p: Peer, o: Option<Peer>)
  {
    o.Some? && p.address == o.value.address
  }

  function Abs(x: real): real { if x < 0.0 then -x else x }

  function Min(a: real, b: real): real { if a <= b then a else b }

  function Max(a: real, b: real): real { if a >= b then a else b }

  // ----- slot targets -----

  /** The target of lower slot k: halfway from the previous one towards c, starting
      halfway between 0 and c. */
  function Inward(c: real, k: nat): real
  {
    if k == 0 then c * 0.5 else (Inward(c, k - 1) + c) * 0.5
  }

  /** The target of the k-th upper slot counted from the top: halfway from the one
      above towards c, starting halfway between c and 1. */
  function Outward(c: real, k: nat): real
  {
    if k == 0 then (1.0 + c) * 0.5 else (Outward(c, k - 1) + c) * 0.5
  }

  /** Target k of getPeerTargets(c, d), as its writes leave it (for d == 0 the two
      end writes overwrite the middle ones). */
  function TargetAt(c: real, d: nat, k: nat): real
    requires k < 2 * d + 2
  {
    if k < d || k == 0 then Inward(c, k)
    else if k > d + 1 || k == 2 * d + 1 then Outward(c, 2 * d + 1 - k)
    else c
  }

  function Targets(c: real, d: nat): (t: seq<real>)
    ensures |t| == 2 + 2 * d
  {
    seq(2 + 2 * d, k requires 0 <= k < 2 + 2 * d => TargetAt(c, d, k))
  }

  /** 2^-n */
  function Halves(n: nat): (h: real)
    ensures h > 0.0
  {
    if n == 0 then 1.0 else 0.5 * Halves(n - 1)
  }

  /** The end targets, the two middle ones, and each inner target halfway between its
      outer neighbour and c. */
  lemma TargetsShape(c: real, d: nat)
    ensures var t := Targets(c, d);
      && t[0] == c * 0.5 && t[2 * d + 1] == (1.0 + c) * 0.5
      && (d >= 1 ==> t[d] == c && t[d + 1] == c)
      && (forall k :: 1 <= k < d ==> t[k] == (t[k - 1] + c) * 0.5)
      && (forall j :: d + 1 < j < 2 * d + 1 ==> t[j] == (t[j + 1] + c) * 0.5)
  {
    var t := Targets(c, d);
    forall j | d + 1 < j < 2 * d + 1
      ensures t[j] == (t[j + 1] + c) * 0.5
    {
      assert t[j] == Outward(c, 2 * d + 1 - j);
      assert t[j + 1] == Outward(c, 2 * d - j);
    }
  }

  /** The gap to c halves from slot to slot: lower target k lies c * 2^-(k+1) below c,
      upper target k lies (1 - c) * 2^-(k+1) above it. */
  lemma {:induction false} TargetGaps(c: real, k: nat)
    ensures c - Inward(c, k) == c * Halves(k + 1)
    ensures Outward(c, k) - c == (1.0 - c) * Halves(k + 1)
  {
    if k > 0 {
      TargetGaps(c, k - 1);
    }
  }

  /** getPeerTargets(0.5, 2), the example the source prints. */
  lemma TargetsExample()
    ensures Targets(0.5, 2) == [0.25, 0.375, 0.5, 0.5, 0.625, 0.75]
  {
    var t := Targets(0.5, 2);
    assert t[0] == 0.25 && t[1] == 0.375 && t[2] == 0.5 && t[3] == 0.5;
    assert t[4] == Outward(0.5, 1) == 0.625 && t[5] == 0.75;
  }

  /** getPeerTargets: fills the array the way the source does, middle and ends first,
      then pairs of inner slots from the outside in. */
  method PeerTargets(center: real, depth: nat) returns (target: seq<real>)
    ensures target == Targets(center, depth)
  {
    var n := 2 + depth * 2;
    target := seq(n, _ => 0.0);
    target := target[depth := center];
    target := target[depth + 1 := center];
    target := target[0 := center * 0.5];
    target := target[n - 1 := (1.0 + center) * 0.5];
    var k := 1;
    while k < depth
      invariant 1 <= k <= depth + 1 && (depth >= 1 ==> k <= depth) && |target| == n
      invariant forall j :: 0 <= j < k ==> target[j] == TargetAt(center, depth, j)
      invariant forall j :: n - k <= j < n ==> target[j] == TargetAt(center, depth, j)
      invariant depth >= 1 ==> target[depth] == center && target[depth + 1] == center
    {
      target := target[k := (target[k - 1] + center) * 0.5];
      target := target[n - 1 - k := (target[n - k] + center) * 0.5];
      k := k + 1;
    }
    forall j | 0 <= j < n
      ensures target[j] == TargetAt(center, depth, j)
    {
      if depth >= 1 && depth <= j <= depth + 1 {
        assert target[j] == center;
      }
    }
  }

  // ----- nominations -----

  /** PeerNominate: the peer (id, pos) in every lower slot when it lies below center,
      in every upper slot when it lies above, and nowhere when it sits on center. */
  function Nominated(center: real, id: JString, pos: real): (c: seq<Option<Peer>>)
    ensures |c| == SLOTS
  {
    seq(SLOTS, k requires 0 <= k < SLOTS =>
      if (pos < center && k < SLOTS / 2) || (pos > center && k >= SLOTS / 2)
      then Some(Peer(id, pos)) else None)
  }

  lemma NominatedSlots(center: real, id: JString, pos: real)
    ensures var c := Nominated(center, id, pos);
      && (forall k :: 0 <= k < SLOTS && c[k].Some? ==> c[k].value == Peer(id, pos))
      && (pos < center ==> forall k :: 0 <= k < SLOTS ==> (c[k].Some? <==> k < SLOTS / 2))
      && (pos > center ==> forall k :: 0 <= k < SLOTS ==> (c[k].Some? <==> k >= SLOTS / 2))
      && (pos == center ==> forall k :: 0 <= k < SLOTS ==> c[k].None?)
  {
  }

  /** PeerNominate, with its two filling loops. */
  method PeerNominate(center: real, peerID: JString, peerPosition: real)
      returns (c: seq<Option<Peer>>)
    ensures c == Nominated(center, peerID, peerPosition)
  {
    c := seq(SLOTS, _ => None);
    var p := Peer(peerID, peerPosition);
    if peerPosition < center {
      var k := 0;
      while k < |c| / 2
        invariant 0 <= k <= |c| / 2 && |c| == SLOTS
        invariant forall j :: 0 <= j < SLOTS ==> c[j] == if j < k then Some(p) else None
      {
        c := c[k := Some(p)];
        k := k + 1;
      }
    } else if peerPosition > center {
      var k := |c| / 2;
      while k < |c|
        invariant |c| / 2 <= k <= |c| && |c| == SLOTS
        invariant forall j :: 0 <= j < SLOTS ==> c[j] == if SLOTS / 2 <= j < k then Some(p) else None
      {
        c := c[k := Some(p)];
        k := k + 1;
      }
    }
  }

  // ----- merging -----

  /** How many slots mergePeers fills for arrays of length n: 2 + 2 * ((n - 2) / 2),
      which is n, or n - 1 when n is odd. */
  function TargetCount(n: int): (t: nat)
    requires n >= 2
    ensures t <= n && (n % 2 == 0 ==> t == n) && (n % 2 == 1 ==> t == n - 1)
  {
    2 + 2 * ((n - 2) / 2)
  }

  /** One slot of mergePeers: a null candidate loses; otherwise a wins only when
      strictly closer to the target. */
  function Pick(a: Option<Peer>, b: Option<Peer>, target: real): Option<Peer>
  {
    if a.None? then b
    else if b.None? || Abs(a.value.position - target) < Abs(b.value.position - target) then a
    else b
  }

  function Merged(center: real, a: seq<Option<Peer>>, b: seq<Option<Peer>>): (c: seq<Option<Peer>>)
    requires |a| >= 2 && |b| >= TargetCount(|a|)
    ensures |c| == |a|
  {
    var t := Targets(center, (|a| - 2) / 2);
    seq(|a|, k requires 0 <= k < |a| => if k < |t| then Pick(a[k], b[k], t[k]) else None)
  }

  /** Each merged slot is a's or b's candidate: the non-null one when one is null, a's
      exactly when it is strictly closer to the slot's target. */
  lemma MergedSlots(center: real, a: seq<Option<Peer>>, b: seq<Option<Peer>>, k: nat)
    requires |a| >= 2 && |b| >= TargetCount(|a|) && k < TargetCount(|a|)
    ensures var c, t := Merged(center, a, b), Targets(center, (|a| - 2) / 2);
      && (c[k] == a[k] || c[k] == b[k])
      && (a[k].None? ==> c[k] == b[k])
      && (b[k].None? ==> c[k] == a[k])
      && (a[k].Some? && b[k].Some? ==>
            (c[k] == a[k] <==>
               (a[k] == b[k] || Abs(a[k].value.position - t[k]) < Abs(b[k].value.position - t[k]))))
  {
  }

  /** Merging an even-length array with itself gives it back. */
  lemma MergedSelf(center: real, a: seq<Option<Peer>>)
    requires |a| >= 2 && |a| % 2 == 0
    ensures Merged(center, a, a) == a
  {
    var c := Merged(center, a, a);
    forall k | 0 <= k < |a|
      ensures c[k] == a[k]
    {
    }
  }

  /** An odd-length array loses its last slot, which mergePeers's loop never reaches. */
  lemma MergedOddLast(center: real, a: seq<Option<Peer>>, b: seq<Option<Peer>>)
    requires |a| >= 2 && |a| % 2 == 1 && |b| >= TargetCount(|a|)
    ensures Merged(center, a, b)[|a| - 1] == None
  {
  }

  /** mergePeers, with its loop over the targets. */
  method MergePeers(center: real, a: seq<Option<Peer>>, b: seq<Option<Peer>>)
      returns (c: seq<Option<Peer>>)
    requires |a| >= 2 && |b| >= TargetCount(|a|)
    ensures c == Merged(center, a, b)
  {
    var target := PeerTargets(center, (|a| - 2) / 2);
    c := seq(|a|, _ => None);
    var k := 0;
    while k < |target|
      invariant 0 <= k <= |target| && |c| == |a|
      invariant forall j :: 0 <= j < |a| ==> c[j] == if j < k then Pick(a[j], b[j], target[j]) else None
    {
      if a[k].None? {
        c := c[k := b[k]];
      } else if b[k].None? || Abs(a[k].value.position - target[k]) < Abs(b[k].value.position - target[k]) {
        c := c[k := a[k]];
      } else {
        c := c[k := b[k]];
      }
      k := k + 1;
    }
  }

  // ----- the peer list -----

  /** Slot k is listed: it holds a peer that differs from the previous slot. */
  predicate Kept(peer: seq<Option<Peer>>, k: nat)
    requires k < |peer|
  {
    peer[k].Some? && (k == 0 || !PeerEquals(peer[k].value, peer[k - 1]))
  }

  /** updatePeerList: the kept slots' peers in array order. */
  function PeerListOf(peer: seq<Option<Peer>>): seq<Peer>
  {
    if peer == [] then []
    else PeerListOf(peer[..|peer| - 1]) + (if Kept(peer, |peer| - 1) then [peer[|peer| - 1].value] else [])
  }

  /** Kept only looks back one slot, so it reads the same on a prefix. */
  lemma KeptPrefix(peer: seq<Option<Peer>>, n: nat, k: nat)
    requires k < n <= |peer|
    ensures Kept(peer[..n], k) == Kept(peer, k)
  {
  }

  /** Every listed peer comes from a slot. */
  lemma {:induction false} PeerListFromSlots(peer: seq<Option<Peer>>)
    ensures forall p :: p in PeerListOf(peer) ==> Some(p) in peer
  {
    if peer != [] {
      var init := peer[..|peer| - 1];
      PeerListFromSlots(init);
      assert forall p :: Some(p) in init ==> Some(p) in peer;
    }
  }

  /** ready(): the list is non-empty exactly when some slot holds a peer (the first
      non-null slot is always kept). */
  lemma {:induction false} PeerListReady(peer: seq<Option<Peer>>)
    ensures |PeerListOf(peer)| > 0 <==> exists k :: 0 <= k < |peer| && peer[k].Some?
  {
    if peer != [] {
      var n := |peer| - 1;
      var init := peer[..n];
      PeerListReady(init);
      if exists k :: 0 <= k < |peer| && peer[k].Some? {
        if !(exists k :: 0 <= k < n && init[k].Some?) {
          assert peer[n].Some?;
          assert n > 0 ==> peer[n - 1] == init[n - 1];
          assert Kept(peer, n);
        }
      } else {
        assert forall k :: 0 <= k < n ==> init[k] == peer[k];
      }
    }
  }

  /** With no null slots the last listed peer shares the last slot's address. */
  lemma {:induction false} PeerListLast(peer: seq<Option<Peer>>)
    requires |peer| > 0 && forall k :: 0 <= k < |peer| ==> peer[k].Some?
    ensures |PeerListOf(peer)| > 0
    ensures PeerListOf(peer)[|PeerListOf(peer)| - 1].address == peer[|peer| - 1].value.address
  {
    var n := |peer| - 1;
    if n > 0 && !Kept(peer, n) {
      var init := peer[..n];
      PeerListLast(init);
      assert init[n - 1] == peer[n - 1];
    }
  }

  /** With no null slots the list never repeats a peer in two neighbouring entries. */
  lemma {:induction false} PeerListNoAdjacentRepeats(peer: seq<Option<Peer>>)
    requires forall k :: 0 <= k < |peer| ==> peer[k].Some?
    ensures var l := PeerListOf(peer);
      forall i :: 0 <= i < |l| - 1 ==> l[i].address != l[i + 1].address
  {
    if peer != [] {
      var n := |peer| - 1;
      var init := peer[..n];
      PeerListNoAdjacentRepeats(init);
      var li := PeerListOf(init);
      if n > 0 && Kept(peer, n) {
        PeerListLast(init);
        assert init[n - 1] == peer[n - 1];
        var l := li + [peer[n].value];
        assert PeerListOf(peer) == l;
        assert l[|li| - 1] == li[|li| - 1];
        assert forall i :: 0 <= i < |li| ==> l[i] == li[i];
      } else if !Kept(peer, n) {
        assert PeerListOf(peer) == li + [] == li;
        forall i | 0 <= i < |li| - 1
          ensures PeerListOf(peer)[i].address != PeerListOf(peer)[i + 1].address
        {
          assert li[i].address != li[i + 1].address;
        }
      } else {
        assert init == [] && li == [];
        assert |PeerListOf(peer)| == 1;
      }
    }
  }

  /** A null slot between two entries for the same peer lists it twice, since each slot
      is compared with the previous slot, not with the previous listed peer. */
  lemma PeerListRepeatsAcrossNull(p: Peer)
    ensures PeerListOf([Some(p), None, Some(p)]) == [p, p]
  {
    var s := [Some(p), None, Some(p)];
    assert [Some(p)][..0] == [];
    assert PeerListOf([Some(p)]) == [p];
    assert [Some(p), None][..1] == [Some(p)];
    assert PeerListOf([Some(p), None]) == [p];
    assert s[..2] == [Some(p), None];
    assert Kept(s, 2);
  }

  // ----- routing -----

  /** The position in `list` of the peer a node at `pos` routes a key at `keyPos` to,
      or -1 for the node itself, as the source's scan finds it: a peer replaces the
      best so far only when strictly closer. */
  function NearestIndex(pos: real, list: seq<Peer>, keyPos: real): (r: int)
    ensures -1 <= r < |list|
  {
    if list == [] then -1
    else
      var r := NearestIndex(pos, list[..|list| - 1], keyPos);
      var best := if r < 0 then Abs(pos - keyPos) else Abs(list[r].position - keyPos);
      if Abs(list[|list| - 1].position - keyPos) < best then |list| - 1 else r
  }

  /** The distance of the chosen owner to the key. */
  function NearestDistance(pos: real, list: seq<Peer>, keyPos: real): real
  {
    var r := NearestIndex(pos, list, keyPos);
    if r < 0 then Abs(pos - keyPos) else Abs(list[r].position - keyPos)
  }

  /** The chosen owner is a closest one, self wins every tie, and of equally close peers
      the earliest wins. */
  lemma {:induction false} NearestIsFirstClosest(pos: real, list: seq<Peer>, keyPos: real)
    ensures var r, d := NearestIndex(pos, list, keyPos), NearestDistance(pos, list, keyPos);
      && d <= Abs(pos - keyPos)
      && (forall j :: 0 <= j < |list| ==> d <= Abs(list[j].position - keyPos))
      && (r < 0 <==> forall j :: 0 <= j < |list| ==> Abs(list[j].position - keyPos) >= Abs(pos - keyPos))
      && (r >= 0 ==> d < Abs(pos - keyPos) && forall j :: 0 <= j < r ==> Abs(list[j].position - keyPos) > d)
  {
    if list != [] {
      var n := |list| - 1;
      var init := list[..n];
      NearestIsFirstClosest(pos, init, keyPos);
      assert forall j :: 0 <= j < n ==> init[j] == list[j];
      var r0, d0 := NearestIndex(pos, init, keyPos), NearestDistance(pos, init, keyPos);
      var last := Abs(list[n].position - keyPos);
      assert r0 >= 0 ==> d0 == Abs(list[r0].position - keyPos);
      assert NearestIndex(pos, list, keyPos) == if last < d0 then n else r0;
      assert NearestDistance(pos, list, keyPos) == if last < d0 then last else d0;
    }
  }

  // ----- fanning out a peer request -----

  /** The part of [min, max] that peer k of the list answers for in processPeerRequest:
      halfway to its list neighbours (0 and 1 at the ends), cut at halfway to this node
      at `position`, then intersected with [min, max]. */
  function FanRange(list: seq<Peer>, k: nat, position: real, min: real, max: real): (real, real)
    requires k < |list|
  {
    var kpos := list[k].position;
    var kmin := if k > 0 then (list[k - 1].position + kpos) * 0.5 else 0.0;
    var kmax := if k < |list| - 1 then (list[k + 1].position + kpos) * 0.5 else 1.0;
    var kmax := if kpos < position then Min(kmax, (position + kpos) * 0.5) else kmax;
    var kmin := if kpos < position then kmin else Max(kmin, (position + kpos) * 0.5);
    (Max(kmin, min), Min(kmax, max))
  }

  /** A forwarded range is a non-empty part of the requested one that stays on the
      peer's side of this node. */
  lemma FanRangeWithin(list: seq<Peer>, k: nat, position: real, min: real, max: real)
    requires k < |list|
    ensures var (kmin, kmax) := FanRange(list, k, position, min, max);
      && min <= kmin && kmax <= max
      && (list[k].position < position ==> kmax <= (position + list[k].position) * 0.5)
      && (list[k].position >= position ==> kmin >= (position + list[k].position) * 0.5)
  {
  }
}
