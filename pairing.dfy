/**
  How a node reads the relay's listing (`onGetPeers`, node/node.go): split the
  payload into records on newlines, split each record on `=`, keep the first
  record whose identifier is not the node's own, and build from it the
  relayed-circuit address of the partner.
 */
module Pairing {
  import opened Wrappers
  import opened Streams
  import Text
  import Relay

  /** The `=`-separated fields of one record. */
  function Fields(record: string): (f: seq<string>)
    ensures |f| >= 1
  {
    Text.Split(record, '=')
  }

  /** The index of the first record whose identifier differs from `self`, or `|records|` when all are `self`'s. */
  function ForeignIndex(records: seq<string>, self: PeerId): (i: nat)
    ensures i <= |records|
    ensures forall j :: 0 <= j < i ==> Fields(records[j])[0] == self
    ensures i < |records| ==> Fields(records[i])[0] != self
    decreases |records|
  {
    if records == [] then 0
    else if Fields(records[0])[0] != self then 0
    else
      var rest := ForeignIndex(records[1..], self);
      assert forall j :: 1 <= j < 1 + rest ==> records[j] == records[1..][j - 1];
      1 + rest
  }

  /** The fields of the first record that is not `self`'s, or none (Go's nil slice). */
  function FirstForeign(records: seq<string>, self: PeerId): (addrs: seq<string>)
    ensures addrs == [] <==> forall j :: 0 <= j < |records| ==> Fields(records[j])[0] == self
    ensures addrs != [] ==> addrs[0] != self
  {
    var i := ForeignIndex(records, self);
    if i < |records| then Fields(records[i]) else []
  }

  /** The loop of `onGetPeers` over the records, leaving at the first record that is not `self`'s. */
  method SelectPartnerRecord(records: seq<string>, self: PeerId) returns (addrs: seq<string>)
    ensures addrs == FirstForeign(records, self)
  {
    addrs := [];
    var i := 0;
    while i < |records|
      invariant 0 <= i <= |records|
      invariant forall j :: 0 <= j < i ==> Fields(records[j])[0] == self
    {
      var tmp := Text.Split(records[i], '=');
      if tmp[0] != self {
        addrs := tmp;
        assert ForeignIndex(records, self) == i;
        return;
      }
      i := i + 1;
    }
    assert ForeignIndex(records, self) == |records|;
  }

  /**
    The libp2p circuit-relay address of `partner` through the relay `relayId`,
    dialled at `addr`: `addr/p2p/<relay>/p2p-circuit/p2p/<partner>`.
   */
  function CircuitAddr(addr: Addr, relayId: PeerId, partner: PeerId): (a: string)
    ensures |a| >= |addr| + |partner| && a[..|addr|] == addr
    ensures a[|a| - |partner|..] == partner
    ensures a[|addr|..|a| - |partner|] == "/p2p/" + relayId + "/p2p-circuit/p2p/"
  {
    var a := addr + "/p2p/" + relayId + "/p2p-circuit/p2p/" + partner;
    assert a == addr + ("/p2p/" + relayId + "/p2p-circuit/p2p/") + partner;
    a
  }

  /** The partner a node pairs with and the circuit address it dials. */
  datatype Target = Target(partner: PeerId, circuit: string)

  /**
    The decision `onGetPeers` takes on a payload: None when every record is the
    node's own or the chosen record has at most one field; otherwise the chosen
    record's identifier and the circuit address built from its address.
   */
  function DecodePairing(payload: string, self: PeerId, relayId: PeerId): (r: Option<Target>)
    ensures r.Some? ==> r.value.partner != self
    ensures r.Some? ==> exists addr :: r.value.circuit == CircuitAddr(addr, relayId, r.value.partner)
    ensures (forall j :: 0 <= j < |Text.Split(payload, '\n')| ==> Fields(Text.Split(payload, '\n')[j])[0] == self) ==> r.None?
  {
    var addrs := FirstForeign(Text.Split(payload, '\n'), self);
    if |addrs| <= 1 then None
    else Some(Target(addrs[0], CircuitAddr(addrs[1], relayId, addrs[0])))
  }

  /**
    The relay's listing and the node's decoder fit together: whichever of the
    two registered peers decodes a two-entry listing, built in either order, gets
    the other peer and the circuit address through that peer's registered address.
   */
  lemma PairingRoundTrip(m: map<PeerId, Addr>, order: seq<PeerId>, self: PeerId, other: PeerId, relayId: PeerId)
    requires |m| == 2 && Relay.IsEnumeration(order, m.Keys) && Relay.Clean(m)
    requires self in m && other in m && self != other
    ensures DecodePairing(Relay.Listing(m, order), self, relayId)
         == Some(Target(other, CircuitAddr(m[other], relayId, other)))
  {
    var payload := Relay.Listing(m, order);
    PairRecords(m, order);
    assert self in order && other in order;
    assert self == order[0] <==> other == order[1];
    DecodeOfPair(payload, self, relayId, order[0], m[order[0]], order[1], m[order[1]]);
  }

  /** The first two records of a two-entry listing, split into their fields. */
  lemma PairRecords(m: map<PeerId, Addr>, order: seq<PeerId>)
    requires |m| == 2 && Relay.IsEnumeration(order, m.Keys) && Relay.Clean(m)
    ensures |order| == 2 && order[0] != order[1]
    ensures var records := Text.Split(Relay.Listing(m, order), '\n');
      |records| >= 2 && Fields(records[0]) == [order[0], m[order[0]]] && Fields(records[1]) == [order[1], m[order[1]]]
  {
    Relay.ListingLines(m, order);
    var records := Text.Split(Relay.Listing(m, order), '\n');
    var rs := Relay.Records(m, order);
    assert records[0] == rs[0] && records[1] == rs[1];
  }

  /** A payload whose first two records have different identifiers pairs each of them with the other. */
  lemma DecodeOfPair(payload: string, self: PeerId, relayId: PeerId, a: PeerId, va: Addr, b: PeerId, vb: Addr)
    requires var records := Text.Split(payload, '\n');
      |records| >= 2 && Fields(records[0]) == [a, va] && Fields(records[1]) == [b, vb]
    requires a != b && (self == a || self == b)
    ensures DecodePairing(payload, self, relayId)
         == if self == a then Some(Target(b, CircuitAddr(vb, relayId, b))) else Some(Target(a, CircuitAddr(va, relayId, a)))
  {
    var records := Text.Split(payload, '\n');
    if self == a {
      assert ForeignIndex(records, self) == 1;
    } else {
      assert ForeignIndex(records, self) == 0;
    }
  }

  /** A listing that holds only the node's own record yields no partner. */
  lemma OwnRecordOnly(self: PeerId, addr: Addr, relayId: PeerId)
    requires Relay.Clean(map[self := addr])
    ensures DecodePairing(Relay.Listing(map[self := addr], [self]), self, relayId) == None
  {
    var payload := Relay.Listing(map[self := addr], [self]);
    SingleRecord(self, addr);
    OwnThenEmpty(Text.Split(payload, '\n'), self);
  }

  /** A one-entry listing splits into its record and a final empty piece. */
  lemma SingleRecord(self: PeerId, addr: Addr)
    requires Relay.Clean(map[self := addr])
    ensures var records := Text.Split(Relay.Listing(map[self := addr], [self]), '\n');
      |records| == 2 && Fields(records[0])[0] == self && records[1] == ""
  {
    var m := map[self := addr];
    Relay.ListingLines(m, [self]);
    assert [self][0] == self;
  }

  /** Behind one's own record only the empty piece is left, and that has a single field. */
  lemma OwnThenEmpty(records: seq<string>, self: PeerId)
    requires |records| == 2 && Fields(records[0])[0] == self && records[1] == ""
    ensures |FirstForeign(records, self)| <= 1
  {
    assert Fields("") == [""];
    if self == "" {
      assert ForeignIndex(records, self) == 2;
    } else {
      assert ForeignIndex(records, self) == 1;
    }
  }
}
