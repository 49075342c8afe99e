/** The messages of the distributed hashtable. A message is the sequence of fields a
    ByteStream writes, in order: its first field is the type byte, and the rest are
    strings, floats, ints and shorts. Each field's bytes are those of the ByteStream
    codec (see `Bytes`); a float field carries the position as a real, and its IEEE
    bit pattern is a parameter. */
module Wire {
  import opened JavaInt
  import opened PeerAlgorithms
  import ByteStreams

  const REQUEST: int8 := 1
  const RESPONSE: int8 := 2
  const STOREREQUEST: int8 := 3
  const PEERREQUEST: int8 := 4
  const PEERRESPONSE: int8 := 5

  /** One value written by writeByte, writeShort, writeInt, writeFloat or writeString. */
  datatype Field = Byte(b: int8) | Short(h: int16) | Int(i: int32) | Float(f: real) | Str(s: JString)

  type Payload = seq<Field>

  /** The bytes ByteStream writes for one field; `floatBits` stands for
      Float.floatToIntBits. */
  function FieldBytes(f: Field, floatBits: real -> int32): seq<uint8>
    requires f.Str? ==> |f.s| < 0x8000_0000
  {
    match f
    case Byte(b) => [Unsigned(b, 1)]
    case Short(h) => ByteStreams.ShortBytes(h)
    case Int(i) => ByteStreams.IntBytes(i)
    case Float(x) => ByteStreams.IntBytes(floatBits(x))
    case Str(s) => ByteStreams.StringBytes(Some(s))
  }

  predicate ShortStrings(p: Payload)
  {
    forall k :: 0 <= k < |p| && p[k].Str? ==> |p[k].s| < 0x8000_0000
  }

  /** The bytes of a whole message: its fields' bytes one after the other. */
  function Bytes(p: Payload, floatBits: real -> int32): (bs: seq<uint8>)
    requires ShortStrings(p)
    ensures p != [] ==> |bs| >= |FieldBytes(p[0], floatBits)|
  {
    if p == [] then [] else FieldBytes(p[0], floatBits) + Bytes(p[1..], floatBits)
  }

  /** Which ByteStream read a field takes. */
  datatype Kind = ByteKind | ShortKind | IntKind | FloatKind | StrKind

  function KindOf(f: Field): Kind
  {
    match f
    case Byte(_) => ByteKind
    case Short(_) => ShortKind
    case Int(_) => IntKind
    case Float(_) => FloatKind
    case Str(_) => StrKind
  }

  function Kinds(p: Payload): (ks: seq<Kind>)
    ensures |ks| == |p|
  {
    if p == [] then [] else [KindOf(p[0])] + Kinds(p[1..])
  }

  /** One read at the start of d, as readByte, readShort, readInt, readFloat and
      readString do it: the field and the number of bytes it takes. `floatOf` stands
      for Float.intBitsToFloat. None where the bytes run out or a string's length is
      negative. */
  function ReadField(k: Kind, d: seq<uint8>, floatOf: int32 -> real): Option<(Field, nat)>
  {
    match k
    case ByteKind => if |d| >= 1 then Some((Byte(Signed(d[0], 1) as int8), 1)) else None
    case ShortKind => if |d| >= 2 then Some((Short(ByteStreams.ShortOf(d[0..2])), 2)) else None
    case IntKind => if |d| >= 4 then Some((Int(ByteStreams.IntOf(d[0..4])), 4)) else None
    case FloatKind => if |d| >= 4 then Some((Float(floatOf(ByteStreams.IntOf(d[0..4]))), 4)) else None
    case StrKind =>
      if |d| >= 4 && 0 <= ByteStreams.IntOf(d[0..4]) && 4 + 2 * ByteStreams.IntOf(d[0..4]) <= |d| then
        var n := ByteStreams.IntOf(d[0..4]) as int;
        ByteStreams.Even(n);
        Some((Str(ByteStreams.CharsOf(d[4..4 + 2 * n])), 4 + 2 * n))
      else None
  }

  /** Fields of the kinds ks read one after the other from the start of d; bytes left
      over are ignored. */
  function ReadFields(ks: seq<Kind>, d: seq<uint8>, floatOf: int32 -> real): Option<Payload>
    decreases |ks|
  {
    if ks == [] then Some([])
    else match ReadField(ks[0], d, floatOf)
      case None => None
      case Some((f, used)) =>
        if used > |d| then None
        else match ReadFields(ks[1..], d[used..], floatOf)
          case None => None
          case Some(rest) => Some([f] + rest)
  }

  /** floatOf undoes floatBits on every float field of p. */
  predicate FloatsRead(p: Payload, floatBits: real -> int32, floatOf: int32 -> real)
  {
    forall k :: 0 <= k < |p| && p[k].Float? ==> floatOf(floatBits(p[k].f)) == p[k].f
  }

  /** Each field's bytes read back as the field, with nothing left out or taken over. */
  lemma FieldRoundTrip(f: Field, post: seq<uint8>, floatBits: real -> int32, floatOf: int32 -> real)
    requires f.Str? ==> |f.s| < 0x8000_0000
    requires f.Float? ==> floatOf(floatBits(f.f)) == f.f
    ensures ReadField(KindOf(f), FieldBytes(f, floatBits) + post, floatOf) == Some((f, |FieldBytes(f, floatBits)|))
  {
    match f
    case Byte(b) =>
      PowValues();
      SignedOfUnsigned(b, 1);
    case Short(h) =>
      assert (ByteStreams.ShortBytes(h) + post)[0..2] == ByteStreams.ShortBytes(h);
      ByteStreams.ShortRoundTrip(h);
    case Int(i) =>
      IntFieldRoundTrip(i, post);
    case Float(x) =>
      IntFieldRoundTrip(floatBits(x), post);
    case Str(cs) =>
      StrFieldRoundTrip(cs, post, floatOf);
  }

  /** The four bytes of an int read back as it. */
  lemma IntFieldRoundTrip(i: int32, post: seq<uint8>)
    ensures |ByteStreams.IntBytes(i) + post| >= 4
    ensures ByteStreams.IntOf((ByteStreams.IntBytes(i) + post)[0..4]) == i
  {
    PowValues();
    assert (ByteStreams.IntBytes(i) + post)[0..4] == ByteStreams.IntBytes(i);
    ByteStreams.IntRoundTrip(i);
  }

  /** A string's length and units read back as it, taking exactly its bytes. */
  lemma StrFieldRoundTrip(cs: JString, post: seq<uint8>, floatOf: int32 -> real)
    requires |cs| < 0x8000_0000
    ensures ReadField(StrKind, ByteStreams.StringBytes(Some(cs)) + post, floatOf)
            == Some((Str(cs), |ByteStreams.StringBytes(Some(cs))|))
  {
    var enc := ByteStreams.StringBytes(Some(cs));
    var d := enc + post;
    assert d[..|enc|] == enc;
    ByteStreams.StringReadBack(d, Some(cs));
    var n := ByteStreams.IntOf(d[0..4]) as int;
    assert n == |cs| by {
      assert |ByteStreams.CharsOf(d[4..4 + 2 * n])| == n;
    }
    assert |enc| == 4 + 2 * n by {
      assert |ByteStreams.IntBytes(|cs|)| == 4;
    }
  }

  /** A whole message's bytes read back, field by field, as the message. */
  lemma {:induction false} BytesRoundTrip(p: Payload, floatBits: real -> int32, floatOf: int32 -> real)
    requires ShortStrings(p) && FloatsRead(p, floatBits, floatOf)
    ensures ReadFields(Kinds(p), Bytes(p, floatBits), floatOf) == Some(p)
    decreases |p|
  {
    if p != [] {
      RestOfMessage(p, floatBits, floatOf);
      BytesRoundTrip(p[1..], floatBits, floatOf);
      FirstFieldThenRest(p, floatBits, floatOf);
    }
  }

  /** The first field of a message reads back from the front of its bytes, so the
      message reads back once its tail does. */
  lemma FirstFieldThenRest(p: Payload, floatBits: real -> int32, floatOf: int32 -> real)
    requires p != [] && ShortStrings(p) && FloatsRead(p, floatBits, floatOf)
    requires ShortStrings(p[1..]) && Kinds(p)[1..] == Kinds(p[1..])
    requires ReadFields(Kinds(p[1..]), Bytes(p[1..], floatBits), floatOf) == Some(p[1..])
    ensures ReadFields(Kinds(p), Bytes(p, floatBits), floatOf) == Some(p)
  {
    var f := p[0];
    assert f.Str? ==> |f.s| < 0x8000_0000;
    assert f.Float? ==> floatOf(floatBits(f.f)) == f.f;
    var enc, rest := FieldBytes(f, floatBits), Bytes(p[1..], floatBits);
    var used: nat := |enc|;
    FieldRoundTrip(f, rest, floatBits, floatOf);
    assert (enc + rest)[used..] == rest;
    ReadFieldsStep(Kinds(p), enc + rest, f, used, p[1..], floatOf);
    assert [f] + p[1..] == p;
  }

  /** One field read, then the rest. */
  lemma ReadFieldsStep(ks: seq<Kind>, d: seq<uint8>, f: Field, used: nat, rest: Payload, floatOf: int32 -> real)
    requires ks != [] && used <= |d| && ReadField(ks[0], d, floatOf) == Some((f, used))
    requires ReadFields(ks[1..], d[used..], floatOf) == Some(rest)
    ensures ReadFields(ks, d, floatOf) == Some([f] + rest)
  {
  }

  /** What the round trip needs of a message holds of its tail. */
  lemma RestOfMessage(p: Payload, floatBits: real -> int32, floatOf: int32 -> real)
    requires p != [] && ShortStrings(p) && FloatsRead(p, floatBits, floatOf)
    ensures ShortStrings(p[1..]) && FloatsRead(p[1..], floatBits, floatOf)
    ensures Kinds(p)[0] == KindOf(p[0]) && Kinds(p)[1..] == Kinds(p[1..])
  {
    forall k | 0 <= k < |p[1..]|
      ensures p[1..][k] == p[k + 1]
    {
    }
  }

  /** Java `(short)n`. */
  function Wrap16(x: int): (r: int16)
    ensures -0x8000 <= x < 0x8000 ==> r == x
  {
    PowValues();
    var r := Signed(Unsigned(x, 2), 2);
    assert -0x8000 <= x < 0x8000 ==> r == x by {
      if -0x8000 <= x < 0x8000 { SignedOfUnsigned(x, 2); }
    }
    r
  }

  /** writeString(null) writes what writeString("") writes. */
  function Text(s: Option<JString>): JString
  {
    if s.None? then [] else s.value
  }

  // ----- making messages -----

  function MakeRequest(key: JString): Payload
  {
    [Byte(REQUEST), Str(key)]
  }

  function MakeResponse(key: JString, value: Option<JString>): Payload
  {
    [Byte(RESPONSE), Str(key), Str(Text(value))]
  }

  function MakeStoreRequest(key: JString, value: Option<JString>): Payload
  {
    [Byte(STOREREQUEST), Str(key), Str(Text(value))]
  }

  function MakePeerRequest(address: JString, position: real, min: real, max: real, requestNumber: int32): Payload
  {
    [Byte(PEERREQUEST), Str(address), Float(position), Float(min), Float(max), Int(requestNumber)]
  }

  /** A null slot is written as "", a peer as its address and position. */
  function SlotFields(slot: Option<Peer>): Payload
  {
    if slot.None? then [Str([])] else [Str(slot.value.address), Float(slot.value.position)]
  }

  function PeerFields(peer: seq<Option<Peer>>): Payload
  {
    if peer == [] then [] else SlotFields(peer[0]) + PeerFields(peer[1..])
  }

  function MakePeerResponse(target: real, peer: seq<Option<Peer>>, requestNumber: int32): Payload
  {
    [Byte(PEERRESPONSE), Float(target), Int(requestNumber), Short(Wrap16(|peer|))] + PeerFields(peer)
  }

  /** makeRequest's bytes: the type byte, then the key as writeString lays it out. */
  lemma MakeRequestBytes(key: JString, floatBits: real -> int32)
    requires |key| < 0x8000_0000
    ensures Bytes(MakeRequest(key), floatBits) == [1] + ByteStreams.StringBytes(Some(key))
  {
    var p := MakeRequest(key);
    assert p[1..][1..] == [];
    assert Bytes(p[1..], floatBits) == FieldBytes(p[1], floatBits) + Bytes([], floatBits);
    assert Unsigned(REQUEST, 1) == 1 by { PowValues(); }
  }

  // ----- reading messages (the reads after the type byte; extra fields are ignored) -----

  /** The key that processRequest and processResponse read. */
  function ReadKey(p: Payload): Option<JString>
  {
    if |p| >= 2 && p[1].Str? then Some(p[1].s) else None
  }

  /** The key and value that processStoreRequest reads. */
  function ReadStore(p: Payload): Option<(JString, JString)>
  {
    if |p| >= 3 && p[1].Str? && p[2].Str? then Some((p[1].s, p[2].s)) else None
  }

  datatype PeerRequest = PeerRequest(cid: JString, cpos: real, min: real, max: real, responseID: int32)

  function ReadPeerRequest(p: Payload): Option<PeerRequest>
  {
    if |p| >= 6 && p[1].Str? && p[2].Float? && p[3].Float? && p[4].Float? && p[5].Int?
    then Some(PeerRequest(p[1].s, p[2].f, p[3].f, p[4].f, p[5].i))
    else None
  }

  /** n peers read from field i on: "" is a null slot, anything else an address
      followed by its position. None where the fields do not fit. */
  function ReadPeers(p: Payload, i: nat, n: nat): Option<seq<Option<Peer>>>
    decreases n
  {
    if n == 0 then Some([])
    else if i < |p| && p[i].Str? && p[i].s == [] then
      Prepend(None, ReadPeers(p, i + 1, n - 1))
    else if i + 1 < |p| && p[i].Str? && p[i + 1].Float? then
      Prepend(Some(Peer(p[i].s, p[i + 1].f)), ReadPeers(p, i + 2, n - 1))
    else None
  }

  function Prepend(slot: Option<Peer>, rest: Option<seq<Option<Peer>>>): Option<seq<Option<Peer>>>
  {
    if rest.None? then None else Some([slot] + rest.value)
  }

  datatype PeerResponse = PeerResponse(cpos: real, requestID: int32, peers: seq<Option<Peer>>)

  /** What processPeerResponse reads; a negative count is the NegativeArraySizeException
      Java throws. */
  function ReadPeerResponse(p: Payload): Option<PeerResponse>
  {
    if |p| >= 4 && p[1].Float? && p[2].Int? && p[3].Short? && p[3].h >= 0 then
      var peers := ReadPeers(p, 4, p[3].h);
      if peers.None? then None else Some(PeerResponse(p[1].f, p[2].i, peers.value))
    else None
  }

  // ----- round trips -----

  lemma RequestRoundTrip(key: JString)
    ensures ReadKey(MakeRequest(key)) == Some(key)
  {
  }

  /** A null value reads back as "". */
  lemma ResponseRoundTrip(key: JString, value: Option<JString>)
    ensures ReadKey(MakeResponse(key, value)) == Some(key)
    ensures ReadStore(MakeResponse(key, value)) == Some((key, Text(value)))
  {
  }

  lemma StoreRequestRoundTrip(key: JString, value: Option<JString>)
    ensures ReadStore(MakeStoreRequest(key, value)) == Some((key, Text(value)))
    ensures value.Some? ==> ReadStore(MakeStoreRequest(key, value)) == Some((key, value.value))
  {
  }

  lemma PeerRequestRoundTrip(address: JString, position: real, min: real, max: real, n: int32)
    ensures ReadPeerRequest(MakePeerRequest(address, position, min, max, n))
            == Some(PeerRequest(address, position, min, max, n))
  {
  }

  /** No listed peer has the address "", which would read back as a null slot. */
  predicate NamedPeers(peer: seq<Option<Peer>>)
  {
    forall k :: 0 <= k < |peer| && peer[k].Some? ==> peer[k].value.address != []
  }

  lemma NamedTail(peer: seq<Option<Peer>>)
    requires |peer| > 0 && NamedPeers(peer)
    ensures NamedPeers(peer[1..]) && (peer[0].Some? ==> peer[0].value.address != [])
  {
    var rest := peer[1..];
    forall k | 0 <= k < |rest| && rest[k].Some?
      ensures rest[k].value.address != []
    {
      assert rest[k] == peer[k + 1];
    }
  }

  /** Reading one slot where its fields were written. */
  lemma ReadSlot(p: Payload, i: nat, slot: Option<Peer>, n: nat)
    requires slot.Some? ==> slot.value.address != []
    requires i + |SlotFields(slot)| <= |p| && p[i..i + |SlotFields(slot)|] == SlotFields(slot)
    ensures ReadPeers(p, i, n + 1) == Prepend(slot, ReadPeers(p, i + |SlotFields(slot)|, n))
  {
    var f := SlotFields(slot);
    assert p[i] == f[0];
    if slot.Some? {
      assert p[i + 1] == f[1];
    }
  }

  lemma {:induction false} PeerFieldsRoundTrip(pre: Payload, peer: seq<Option<Peer>>, post: Payload)
    requires NamedPeers(peer)
    ensures ReadPeers(pre + PeerFields(peer) + post, |pre|, |peer|) == Some(peer)
    decreases |peer|
  {
    if peer != [] {
      var slot := SlotFields(peer[0]);
      var rest := peer[1..];
      NamedTail(peer);
      var pre' := pre + slot;
      var tail := PeerFields(rest);
      PeerFieldsRoundTrip(pre', rest, post);
      assert PeerFields(peer) == slot + tail;
      Regrouped(pre, slot, tail, post);
      var p := pre + PeerFields(peer) + post;
      ReadSlot(p, |pre|, peer[0], |rest|);
      assert [peer[0]] + rest == peer;
    }
  }

  lemma Regrouped(pre: Payload, slot: Payload, tail: Payload, post: Payload)
    ensures pre + (slot + tail) + post == (pre + slot) + tail + post
    ensures (pre + (slot + tail) + post)[|pre|..|pre| + |slot|] == slot
  {
  }

  /** Decoding a peer response as processPeerResponse does gives back the target, the
      request number and every slot, nulls included. */
  lemma PeerResponseRoundTrip(target: real, peer: seq<Option<Peer>>, n: int32)
    requires |peer| < 0x8000 && NamedPeers(peer)
    ensures ReadPeerResponse(MakePeerResponse(target, peer, n)) == Some(PeerResponse(target, n, peer))
  {
    var head := [Byte(PEERRESPONSE), Float(target), Int(n), Short(Wrap16(|peer|))];
    PeerFieldsRoundTrip(head, peer, []);
    assert head + PeerFields(peer) + [] == MakePeerResponse(target, peer, n);
  }

  /** processPeerResponse's reads over the bytes makePeerResponse writes give back the
      target, the request number and every slot. */
  lemma PeerResponseBytesRoundTrip(target: real, peer: seq<Option<Peer>>, n: int32,
                                   floatBits: real -> int32, floatOf: int32 -> real)
    requires |peer| < 0x8000 && NamedPeers(peer)
    requires var p := MakePeerResponse(target, peer, n); ShortStrings(p) && FloatsRead(p, floatBits, floatOf)
    ensures var p := MakePeerResponse(target, peer, n);
      var read := ReadFields(Kinds(p), Bytes(p, floatBits), floatOf);
      read.Some? && ReadPeerResponse(read.value) == Some(PeerResponse(target, n, peer))
  {
    var p := MakePeerResponse(target, peer, n);
    BytesRoundTrip(p, floatBits, floatOf);
    PeerResponseRoundTrip(target, peer, n);
  }

  /** A peer named "" reads back as a null slot, and its position is then read as the
      next slot's address: the fields after it come out misaligned. */
  lemma EmptyAddressMisreads(x: real, q: Peer)
    ensures ReadPeerResponse(MakePeerResponse(0.0, [Some(Peer([], x))], 0)) == Some(PeerResponse(0.0, 0, [None]))
    ensures ReadPeerResponse(MakePeerResponse(0.0, [Some(Peer([], x)), Some(q)], 0)) == None
  {
    var one := [Some(Peer([], x))];
    assert one[1..] == [];
    assert PeerFields(one) == [Str([]), Float(x)];
    var p1 := MakePeerResponse(0.0, one, 0);
    assert p1 == [Byte(PEERRESPONSE), Float(0.0), Int(0), Short(1), Str([]), Float(x)];
    assert ReadPeers(p1, 5, 0) == Some([]);
    var none: Option<Peer> := None;
    assert p1[4] == Str([]) && [none] + [] == [none];
    assert ReadPeers(p1, 4, 1) == Prepend(None, Some([])) == Some([None]);
    var two := [Some(Peer([], x)), Some(q)];
    assert two[1..] == [Some(q)] && two[1..][1..] == [];
    assert PeerFields(two[1..]) == [Str(q.address), Float(q.position)];
    assert PeerFields(two) == [Str([]), Float(x), Str(q.address), Float(q.position)];
    var p2 := MakePeerResponse(0.0, two, 0);
    assert p2 == [Byte(PEERRESPONSE), Float(0.0), Int(0), Short(2), Str([]), Float(x), Str(q.address), Float(q.position)];
    assert ReadPeers(p2, 5, 1) == None;
  }
}
