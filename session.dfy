/**
  The node's side of a session (node/node.go): logging in at the relay,
  handling the pairing response, opening the relayed chat, and the variant that
  upgrades to a direct connection before chatting. Each operation gives the
  trace of network effects it causes; every network outcome is a parameter.
 */
module Session {
  import opened Wrappers
  import opened Streams
  import Protocol
  import Text
  import Pairing
  import Chat

  /** The text `CmdRelay` sends on a second relayed stream. */
  const RelayGreeting := "Hello this is relay msg"
  /** The text `StartSendP2PMsg` writes before the chat loops start. */
  const ChatGreeting := "Hello this is  msg"

  /** `Login`: the login request to the relay, sent under the node's login tag. */
  function Login(relayId: PeerId, opens: bool): (r: Sent)
    ensures r.ok <==> opens
    ensures |r.effects| >= 1 && r.effects[0] == Open(relayId, Protocol.GetPeer, opens)
    ensures Write(relayId, Protocol.GetPeer, "login") in r.effects <==> opens
  {
    SendMessage(relayId, Protocol.GetPeer, "login", opens)
  }

  /**
    `CmdRelay`: open a relayed chat stream to `peer`; if that fails stop. Otherwise
    send the relay greeting on a second stream (its outcome is ignored) and start
    the chat loops on the first.
   */
  function CmdRelay(peer: PeerId, chatOpens: bool, greetOpens: bool): (t: seq<Effect>)
    ensures |t| >= 1 && t[0] == Open(peer, Protocol.RelayMsg, chatOpens)
    ensures !chatOpens ==> t == [Open(peer, Protocol.RelayMsg, false)]
    ensures chatOpens ==> |t| >= 2 && t[1] == Open(peer, Protocol.RelayMsg, greetOpens)
    ensures StartChat(peer, Protocol.RelayMsg) in t <==> chatOpens
    ensures Write(peer, Protocol.RelayMsg, RelayGreeting) in t <==> chatOpens && greetOpens
    ensures Precedes(t, Open(peer, Protocol.RelayMsg, greetOpens), StartChat(peer, Protocol.RelayMsg))
    ensures greetOpens ==> Precedes(t, Write(peer, Protocol.RelayMsg, RelayGreeting), StartChat(peer, Protocol.RelayMsg))
    ensures greetOpens ==> Precedes(t, Close(peer, Protocol.RelayMsg), StartChat(peer, Protocol.RelayMsg))
    ensures Punches(t) == 0
  {
    if !chatOpens then [Open(peer, Protocol.RelayMsg, false)]
    else
      var greet := SendMessage(peer, Protocol.RelayMsg, RelayGreeting, greetOpens);
      var t := [Open(peer, Protocol.RelayMsg, true)] + greet.effects + [StartChat(peer, Protocol.RelayMsg)];
      assert forall e :: e in t ==> !e.Punch?;
      NoPunches(t);
      assert t[1] == greet.effects[0] && t[|t| - 1] == StartChat(peer, Protocol.RelayMsg);
      t
  }

  /**
    `StartSendP2PMsg`: open a chat stream to `peer`; if that fails nothing else
    happens. Otherwise write the greeting, flush, and start the chat loops.
   */
  function StartSendP2PMsg(peer: PeerId, opens: bool): (t: seq<Effect>)
    ensures |t| >= 1 && t[0] == Open(peer, Protocol.StartP2PMsg, opens)
    ensures !opens ==> t == [Open(peer, Protocol.StartP2PMsg, false)]
    ensures StartChat(peer, Protocol.StartP2PMsg) in t <==> opens
    ensures Precedes(t, Write(peer, Protocol.StartP2PMsg, ChatGreeting), StartChat(peer, Protocol.StartP2PMsg))
    ensures forall e :: e in t ==> !e.Punch? && !e.Dial?
  {
    if !opens then [Open(peer, Protocol.StartP2PMsg, false)]
    else
      var t := [Open(peer, Protocol.StartP2PMsg, true), Write(peer, Protocol.StartP2PMsg, ChatGreeting),
                StartChat(peer, Protocol.StartP2PMsg)];
      assert t[..2] == [t[0], t[1]];
      t
  }

  /**
    `NoHolePunchIfDirectConnExists`: connect to the target; on failure stop.
    Otherwise ask the hole-punching service for a direct connection, exactly once,
    and start the chat only when it succeeds.
   */
  function NoHolePunchIfDirectConnExists(peer: PeerId, dialOk: bool, punchOk: bool, opens: bool): (t: seq<Effect>)
    ensures |t| >= 1 && t[0] == Dial(peer, dialOk)
    ensures !dialOk ==> t == [Dial(peer, false)]
    ensures Punches(t) == if dialOk then 1 else 0
    ensures dialOk ==> |t| >= 2 && t[1] == Punch(peer, punchOk)
    ensures Open(peer, Protocol.StartP2PMsg, opens) in t <==> dialOk && punchOk
    ensures StartChat(peer, Protocol.StartP2PMsg) in t <==> dialOk && punchOk && opens
  {
    if !dialOk then [Dial(peer, false)]
    else
      var head := [Dial(peer, true), Punch(peer, punchOk)];
      var rest := if punchOk then StartSendP2PMsg(peer, opens) else [];
      PunchesAppend(head, rest);
      NoPunches(rest);
      assert Punches(head) == 1 by {
        assert head[1..] == [Punch(peer, punchOk)];
        assert head[1..][1..] == [];
      }
      head + rest
  }

  lemma {:induction false} NoPunches(t: seq<Effect>)
    requires forall e :: e in t ==> !e.Punch?
    ensures Punches(t) == 0
    decreases |t|
  {
    if t != [] {
      assert t[0] in t;
      assert forall e :: e in t[1..] ==> e in t;
      NoPunches(t[1..]);
    }
  }

  /** A text with no newline in front of a line makes a longer line. */
  lemma PrefixedLine(g: string, l: string)
    requires '\n' !in g && Chat.IsLine(l)
    ensures Chat.IsLine(g + l)
  {
    var first := g + l;
    assert first[..|first| - 1] == g + l[..|l| - 1];
  }

  lemma PrefixedTyped(g: string, ls: seq<string>)
    requires |ls| > 0
    ensures g + Chat.Typed(ls) == (g + ls[0]) + ("\n" + Chat.Typed(ls[1..]))
  {
  }

  /** A text with no newline, written just before the chat, joins the partner's first read. */
  lemma PrefixJoinsFirstLine(g: string, ls: seq<string>)
    requires '\n' !in g
    requires |ls| > 0 && forall i :: 0 <= i < |ls| ==> Chat.IsLine(ls[i])
    ensures Chat.Reads(g + Chat.Typed(ls))[0] == g + ls[0]
  {
    PrefixedLine(g, ls[0]);
    PrefixedTyped(g, ls);
    Chat.ReadsAfterLine(g + ls[0], "\n" + Chat.Typed(ls[1..]));
  }

  /**
    The greeting `StartSendP2PMsg` writes carries no newline, so the partner's
    reader shows it joined to the first chat line rather than on a line of its own.
   */
  lemma GreetingJoinsFirstLine(ls: seq<string>)
    requires |ls| > 0 && forall i :: 0 <= i < |ls| ==> Chat.IsLine(ls[i])
    ensures Chat.Reads(ChatGreeting + Chat.Typed(ls))[0] == ChatGreeting + ls[0]
  {
    GreetingHasNoNewline();
    PrefixJoinsFirstLine(ChatGreeting, ls);
  }

  lemma GreetingHasNoNewline()
    ensures '\n' !in ChatGreeting
  {
    assert forall i :: 0 <= i < |ChatGreeting| ==> ChatGreeting[i] != '\n';
  }

  /** A node: its own identifier, the relay it logged in at, and the partner it last paired with. */
  class Node {
    const id: PeerId
    const relayId: PeerId
    /** `chatP2PAddr`: None stands for the empty address information a node starts with. */
    var chatTarget: Option<Pairing.Target>

    /** A node never pairs with itself. */
    ghost predicate Valid()
      reads this
    {
      chatTarget.Some? ==> chatTarget.value.partner != id
    }

    constructor (id: PeerId, relayId: PeerId)
      ensures Valid()
      ensures this.id == id && this.relayId == relayId && chatTarget == None
    {
      this.id := id;
      this.relayId := relayId;
      chatTarget := None;
    }

    /**
      `onGetPeers` on an inbound pairing response. `payload` is None when
      reading the stream fails; `idDecodes` and `addrParses` are the verdicts of
      `peer.Decode` on the chosen identifier and of `multiaddr.NewMultiaddr` on
      the circuit address; `chatOpens` and `greetOpens` are the outcomes of the
      two stream opens of `CmdRelay`.
     */
    method OnGetPeers(payload: Option<string>, idDecodes: bool, addrParses: bool, chatOpens: bool, greetOpens: bool)
      returns (effects: seq<Effect>)
      requires Valid()
      modifies this
      ensures Valid()
      ensures var d := if payload.Some? then Pairing.DecodePairing(payload.value, id, relayId) else None;
        if d.Some? && idDecodes && addrParses then
          chatTarget == d && effects == CmdRelay(d.value.partner, chatOpens, greetOpens)
        else
          chatTarget == old(chatTarget) && effects == []
    {
      effects := [];
      if payload.None? {
        return;
      }
      var peers := Text.Split(payload.value, '\n');
      var addrs := Pairing.SelectPartnerRecord(peers, id);
      if |addrs| <= 1 {
        return;
      }
      if !idDecodes {
        return;
      }
      var targetAddress := Pairing.CircuitAddr(addrs[1], relayId, addrs[0]);
      if !addrParses {
        return;
      }
      chatTarget := Some(Pairing.Target(addrs[0], targetAddress));
      effects := CmdRelay(addrs[0], chatOpens, greetOpens);
    }
  }
}
