/**
  The relay's pairing registry (server/relay-server.go). Each login request
  stores the caller's address under its peer identifier; when the registry then
  holds two entries, the relay sends both of them the same listing, one
  `<id>=<addr>` line per entry, and deletes the entries as it goes.
 */
module Relay {
  import opened Streams
  import Text
  import Protocol

  const RelayProtocolRequest := "/relay/relayreq/1.0.0"
  const RelayProtocolResponse := "/relay/relayrsp/1.0.0"

  /** The registry size at which the relay flushes. */
  const PairSize := 2

  /** One entry of the listing without its line terminator. */
  function Record(id: PeerId, addr: Addr): string
  {
    id + "=" + addr
  }

  /** One entry of the listing: `<id>=<addr>` and a newline. */
  function Line(id: PeerId, addr: Addr): string
  {
    Record(id, addr) + "\n"
  }

  /** The listing built from the entries of `m` taken in `order`. */
  function Listing(m: map<PeerId, Addr>, order: seq<PeerId>): string
    requires forall i :: 0 <= i < |order| ==> order[i] in m
  {
    if order == [] then "" else Line(order[0], m[order[0]]) + Listing(m, order[1..])
  }

  /** The records of the listing, one per entry of `order`. */
  function Records(m: map<PeerId, Addr>, order: seq<PeerId>): (rs: seq<string>)
    requires forall i :: 0 <= i < |order| ==> order[i] in m
    ensures |rs| == |order|
    ensures forall i :: 0 <= i < |order| ==> rs[i] == Record(order[i], m[order[i]])
  {
    seq(|order|, i requires 0 <= i < |order| => Record(order[i], m[order[i]]))
  }

  /** `order` lists every key of `keys` exactly once: one of the orders Go's map iteration may take. */
  ghost predicate IsEnumeration(order: seq<PeerId>, keys: set<PeerId>)
  {
    && |order| == |keys|
    && (forall i :: 0 <= i < |order| ==> order[i] in keys)
    && (forall k :: k in keys ==> k in order)
    && (forall i, j :: 0 <= i < j < |order| ==> order[i] != order[j])
  }

  /** Neither identifiers nor addresses contain the listing's two separators. */
  ghost predicate Clean(m: map<PeerId, Addr>)
  {
    forall k :: k in m ==> '\n' !in k && '=' !in k && '\n' !in m[k] && '=' !in m[k]
  }

  /** Appending one entry to the loop's running listing. */
  lemma {:induction false} ListingSnoc(m: map<PeerId, Addr>, order: seq<PeerId>, k: PeerId)
    requires forall i :: 0 <= i < |order| ==> order[i] in m
    requires k in m
    ensures Listing(m, order + [k]) == Listing(m, order) + Line(k, m[k])
    decreases |order|
  {
    if order == [] {
      assert [k][1..] == [];
    } else {
      assert (order + [k])[1..] == order[1..] + [k];
      ListingSnoc(m, order[1..], k);
    }
  }

  /** The listing is its records joined by newlines, with a final empty piece after the last newline. */
  lemma {:induction false} ListingJoin(m: map<PeerId, Addr>, order: seq<PeerId>)
    requires forall i :: 0 <= i < |order| ==> order[i] in m
    ensures Listing(m, order) == Text.Join(Records(m, order) + [""], '\n')
    decreases |order|
  {
    if order != [] {
      ListingJoin(m, order[1..]);
      var parts := Records(m, order) + [""];
      assert parts[1..] == Records(m, order[1..]) + [""];
    }
  }

  /**
    Splitting the listing on newlines gives back one record per entry and a
    final empty piece, and each record splits on `=` into exactly its
    identifier and its address: the listing names every registered peer once.
   */
  lemma ListingLines(m: map<PeerId, Addr>, order: seq<PeerId>)
    requires IsEnumeration(order, m.Keys)
    requires Clean(m)
    ensures Text.Split(Listing(m, order), '\n') == Records(m, order) + [""]
    ensures |Records(m, order)| == |m|
    ensures forall i :: 0 <= i < |order| ==> Text.Split(Records(m, order)[i], '=') == [order[i], m[order[i]]]
  {
    ListingJoin(m, order);
    var parts := Records(m, order) + [""];
    forall i | 0 <= i < |parts|
      ensures '\n' !in parts[i]
    {
      if i < |order| {
        assert parts[i] == order[i] + "=" + m[order[i]];
      }
    }
    Text.SplitJoin(parts, '\n');
    forall i | 0 <= i < |order|
      ensures Text.Split(Records(m, order)[i], '=') == [order[i], m[order[i]]]
    {
      Text.SplitPair(order[i], m[order[i]], '=');
    }
  }

  /** Whether inserting `id` brings the registry to the pairing size. */
  predicate Completes(m: map<PeerId, Addr>, id: PeerId, addr: Addr)
  {
    |m[id := addr]| == PairSize
  }

  /** The registry after one login request: the insertion, emptied again when it completes a pair. */
  function Admit(m: map<PeerId, Addr>, id: PeerId, addr: Addr): map<PeerId, Addr>
  {
    if Completes(m, id, addr) then map[] else m[id := addr]
  }

  /** Between calls the registry holds at most one entry. */
  lemma AdmitKeepsAtMostOne(m: map<PeerId, Addr>, id: PeerId, addr: Addr)
    requires |m| <= 1
    ensures |Admit(m, id, addr)| <= 1
  {
  }

  /** A flush happens exactly when a second, distinct peer arrives. */
  lemma CompletesIffSecondPeer(m: map<PeerId, Addr>, id: PeerId, addr: Addr)
    requires |m| <= 1
    ensures Completes(m, id, addr) <==> |m| == 1 && id !in m
  {
  }

  /** Re-registering a waiting peer overwrites its address and leaves the size unchanged. */
  lemma ReRegisterOverwrites(m: map<PeerId, Addr>, id: PeerId, addr: Addr)
    requires |m| <= 1
    requires id in m
    ensures !Completes(m, id, addr)
    ensures Admit(m, id, addr) == m[id := addr]
    ensures |Admit(m, id, addr)| == |m|
    ensures Admit(m, id, addr)[id] == addr
  {
  }

  /** Without a flush the new entry stays in the registry. */
  lemma WaitingEntryStays(m: map<PeerId, Addr>, id: PeerId, addr: Addr)
    requires !Completes(m, id, addr)
    ensures id in Admit(m, id, addr) && Admit(m, id, addr)[id] == addr
    ensures forall k :: k in m && k != id ==> k in Admit(m, id, addr) && Admit(m, id, addr)[k] == m[k]
  {
  }

  datatype Registration = Registration(id: PeerId, addr: Addr)

  /** The registry after a sequence of login requests, and the number of flushes they caused. */
  function Run(m: map<PeerId, Addr>, regs: seq<Registration>): (map<PeerId, Addr>, nat)
    decreases |regs|
  {
    if regs == [] then (m, 0)
    else
      var next := Run(Admit(m, regs[0].id, regs[0].addr), regs[1..]);
      (next.0, next.1 + if Completes(m, regs[0].id, regs[0].addr) then 1 else 0)
  }

  /** Every call keeps the registry at one entry or fewer, so it does for any sequence of calls. */
  lemma {:induction false} RunKeepsAtMostOne(m: map<PeerId, Addr>, regs: seq<Registration>)
    requires |m| <= 1
    ensures |Run(m, regs).0| <= 1
    decreases |regs|
  {
    if regs != [] {
      AdmitKeepsAtMostOne(m, regs[0].id, regs[0].addr);
      RunKeepsAtMostOne(Admit(m, regs[0].id, regs[0].addr), regs[1..]);
    }
  }

  /**
    Logins by pairwise distinct peers are flushed two at a time: there is one
    flush per two peers, and an odd peer out is left waiting.
   */
  lemma {:induction false} RunDistinctPairs(m: map<PeerId, Addr>, regs: seq<Registration>)
    requires |m| <= 1
    requires forall i :: 0 <= i < |regs| ==> regs[i].id !in m
    requires forall i, j :: 0 <= i < j < |regs| ==> regs[i].id != regs[j].id
    ensures Run(m, regs).1 == (|m| + |regs|) / 2
    ensures |Run(m, regs).0| == (|m| + |regs|) % 2
    decreases |regs|
  {
    if regs != [] {
      var r := regs[0];
      var next := Admit(m, r.id, r.addr);
      AdmitNewcomer(m, r.id, r.addr);
      NewcomersStayNew(m, regs, next);
      RunDistinctPairs(next, regs[1..]);
      PairCount(|m|, |regs| - 1);
    }
  }

  /** After the first login of distinct newcomers, the others are still newcomers to the new registry. */
  lemma NewcomersStayNew(m: map<PeerId, Addr>, regs: seq<Registration>, next: map<PeerId, Addr>)
    requires regs != []
    requires forall i :: 0 <= i < |regs| ==> regs[i].id !in m
    requires forall i, j :: 0 <= i < j < |regs| ==> regs[i].id != regs[j].id
    requires next.Keys <= m.Keys + {regs[0].id}
    ensures forall i :: 0 <= i < |regs[1..]| ==> regs[1..][i].id !in next
    ensures forall i, j :: 0 <= i < j < |regs[1..]| ==> regs[1..][i].id != regs[1..][j].id
  {
    forall i | 0 <= i < |regs[1..]|
      ensures regs[1..][i].id !in next
    {
      assert regs[1..][i] == regs[i + 1];
    }
    forall i, j | 0 <= i < j < |regs[1..]|
      ensures regs[1..][i].id != regs[1..][j].id
    {
      assert regs[1..][i] == regs[i + 1] && regs[1..][j] == regs[j + 1];
    }
  }

  /** The arithmetic of one step: a waiting peer (`w` is 0 or 1) plus `n` newcomers. */
  lemma PairCount(w: nat, n: nat)
    requires w <= 1
    ensures (1 - w + n) / 2 + (if w == 1 then 1 else 0) == (w + n + 1) / 2
    ensures (1 - w + n) % 2 == (w + n + 1) % 2
  {
  }

  /** A peer not yet waiting completes a pair exactly when another one is waiting; only it can be added. */
  lemma AdmitNewcomer(m: map<PeerId, Addr>, id: PeerId, addr: Addr)
    requires |m| <= 1 && id !in m
    ensures Completes(m, id, addr) <==> |m| == 1
    ensures |Admit(m, id, addr)| == 1 - |m|
    ensures Admit(m, id, addr).Keys <= m.Keys + {id}
  {
    assert |m[id := addr]| == |m| + 1;
  }

  /** One `sendMessage` attempt of a flush. */
  datatype Send = Send(to: PeerId, tag: string, payload: string, ok: bool)

  /** The recipients of the sends, in order. */
  function Recipients(sends: seq<Send>): (rs: seq<PeerId>)
    ensures |rs| == |sends|
    ensures forall i :: 0 <= i < |sends| ==> rs[i] == sends[i].to
  {
    seq(|sends|, i requires 0 <= i < |sends| => sends[i].to)
  }

  /** The relay's registry, `RelayServer.Peers`. The mutex makes every `OnReq` atomic. */
  class RelayServer {
    var peers: map<PeerId, Addr>

    /** On exit from every request the registry holds at most one entry. */
    ghost predicate Valid()
      reads this
    {
      |peers| <= 1
    }

    constructor ()
      ensures Valid() && peers == map[]
    {
      peers := map[];
    }

    /**
      `onReq` for a login by `id` whose connection comes from `addr`; `opens`
      holds the peers a response stream can be opened to. Returns the order in
      which the listing was built and the sends made, in the order made.
     */
    method OnReq(id: PeerId, addr: Addr, opens: set<PeerId>) returns (order: seq<PeerId>, sends: seq<Send>)
      requires Valid()
      modifies this
      ensures Valid()
      ensures peers == Admit(old(peers), id, addr)
      ensures !Completes(old(peers), id, addr) ==> order == [] && sends == []
      ensures Completes(old(peers), id, addr) ==>
        var m := old(peers)[id := addr];
        && IsEnumeration(order, m.Keys)
        && IsEnumeration(Recipients(sends), m.Keys)
        && forall i :: 0 <= i < |sends| ==>
             sends[i] == Send(sends[i].to, RelayProtocolResponse, Listing(m, order), sends[i].to in opens)
    {
      peers := peers[id := addr];
      if |peers| != PairSize {
        order, sends := [], [];
        return;
      }
      var rsp;
      rsp, order := BuildListing(peers);
      sends := Flush(rsp, opens);
    }

    /**
      The second loop of `onReq`: send `rsp` to every entry, deleting each entry
      as it goes, whatever `sendMessage` reports.
     */
    method Flush(rsp: string, opens: set<PeerId>) returns (sends: seq<Send>)
      modifies this
      ensures peers == map[]
      ensures IsEnumeration(Recipients(sends), old(peers).Keys)
      ensures forall i :: 0 <= i < |sends| ==>
        sends[i] == Send(sends[i].to, RelayProtocolResponse, rsp, sends[i].to in opens)
    {
      ghost var m := peers;
      ghost var rs: seq<PeerId> := [];
      sends := [];
      while peers != map[]
        invariant FlushedSoFar(m, peers, rs)
        invariant SentTo(sends, rs, rsp, opens)
        decreases |peers|
      {
        var k :| k in peers;
        var sent := SendMessage(k, RelayProtocolResponse, rsp, k in opens);
        SentToSnoc(sends, rs, rsp, opens, k);
        sends := sends + [Send(k, RelayProtocolResponse, rsp, sent.ok)];
        FlushStep(m, peers, rs, k);
        rs := rs + [k];
        peers := peers - {k};
      }
      assert Recipients(sends) == rs;
    }
  }

  /** Half-way through a flush: `rs` lists, once each, the entries of `m` already deleted from `peers`. */
  ghost predicate FlushedSoFar(m: map<PeerId, Addr>, peers: map<PeerId, Addr>, rs: seq<PeerId>)
  {
    && peers.Keys <= m.Keys
    && |rs| + |peers| == |m|
    && (forall i :: 0 <= i < |rs| ==> rs[i] in m && rs[i] !in peers)
    && (forall k :: k in m ==> k in peers || k in rs)
    && (forall i, j :: 0 <= i < j < |rs| ==> rs[i] != rs[j])
  }

  /** `sends` are the responses to `rs`, in order, each successful exactly when a stream to its peer opens. */
  ghost predicate SentTo(sends: seq<Send>, rs: seq<PeerId>, rsp: string, opens: set<PeerId>)
  {
    && |sends| == |rs|
    && forall i :: 0 <= i < |sends| ==> sends[i] == Send(rs[i], RelayProtocolResponse, rsp, rs[i] in opens)
  }

  lemma SentToSnoc(sends: seq<Send>, rs: seq<PeerId>, rsp: string, opens: set<PeerId>, k: PeerId)
    requires SentTo(sends, rs, rsp, opens)
    ensures SentTo(sends + [Send(k, RelayProtocolResponse, rsp, k in opens)], rs + [k], rsp, opens)
  {
  }

  /** Sending to and deleting one more entry. */
  lemma FlushStep(m: map<PeerId, Addr>, peers: map<PeerId, Addr>, rs: seq<PeerId>, k: PeerId)
    requires FlushedSoFar(m, peers, rs)
    requires k in peers
    ensures FlushedSoFar(m, peers - {k}, rs + [k])
  {
    assert (peers - {k}).Keys == peers.Keys - {k};
  }

  /**
    The first loop of `onReq`: the listing of every entry of `m`, built in one of
    the orders Go's map iteration may take, which it returns.
   */
  method BuildListing(m: map<PeerId, Addr>) returns (rsp: string, order: seq<PeerId>)
    ensures IsEnumeration(order, m.Keys)
    ensures rsp == Listing(m, order)
  {
    rsp := "";
    var todo := m.Keys;
    order := [];
    while todo != {}
      invariant todo <= m.Keys
      invariant forall i :: 0 <= i < |order| ==> order[i] in m && order[i] !in todo
      invariant forall k :: k in m ==> k in todo || k in order
      invariant forall i, j :: 0 <= i < j < |order| ==> order[i] != order[j]
      invariant |order| + |todo| == |m|
      invariant rsp == Listing(m, order)
      decreases todo
    {
      var k :| k in todo;
      ListingSnoc(m, order, k);
      rsp := rsp + Line(k, m[k]);
      order := order + [k];
      todo := todo - {k};
    }
  }

  /** The relay's two stream handlers. */
  datatype RelayHandler = HandleReq | HandleRsp

  /** The registrations `NewRelayProtocol` makes. */
  function RelayTable(): (t: map<string, RelayHandler>)
    ensures t.Keys == {RelayProtocolRequest, RelayProtocolResponse}
    ensures t[RelayProtocolRequest] == HandleReq
  {
    map[RelayProtocolRequest := HandleReq, RelayProtocolResponse := HandleRsp]
  }

  /**
    The node and the relay do not agree on their tags: the node logs in under
    a tag the relay has no handler for, and the relay answers under a tag the
    node has no handler for.
   */
  lemma TagsDoNotLineUp()
    ensures Protocol.GetPeer !in RelayTable()
    ensures Protocol.Dispatch(Protocol.NodeTable(), RelayProtocolResponse).None?
  {
    Protocol.TagLengths();
    assert |RelayProtocolRequest| == 21 && |RelayProtocolResponse| == 21;
    assert RelayProtocolResponse[12] == 'r' && Protocol.RelayMsg[12] == 'm';
  }
}
