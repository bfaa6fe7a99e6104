/**
  The network operations both programs perform, as a trace of effects. Whether
  a dial, a hole punch or a stream open succeeds is decided by the network and
  enters every operation as a boolean parameter.
 */
module Streams {

  /** A peer identifier, as printed by `peer.ID.String()`. */
  type PeerId = string
  /** A multiaddress, as printed by `Multiaddr.String()`. */
  type Addr = string

  datatype Effect =
    | Dial(peer: PeerId, ok: bool)                 // host.Connect
    | Punch(peer: PeerId, ok: bool)                // holepunch Service.DirectConnect
    | Open(peer: PeerId, tag: string, ok: bool)    // host.NewStream
    | Write(peer: PeerId, tag: string, data: string)  // bytes written and flushed on that stream
    | Close(peer: PeerId, tag: string)             // stream closed by the writer
    | StartChat(peer: PeerId, tag: string)         // writer and reader loops started on that stream

  /** What `sendMessage` reports and what it did. */
  datatype Sent = Sent(ok: bool, effects: seq<Effect>)

  /** The number of hole-punch attempts in a trace. */
  function Punches(t: seq<Effect>): nat
  {
    if t == [] then 0 else (if t[0].Punch? then 1 else 0) + Punches(t[1..])
  }

  lemma {:induction false} PunchesAppend(a: seq<Effect>, b: seq<Effect>)
    ensures Punches(a + b) == Punches(a) + Punches(b)
    decreases |a|
  {
    if a == [] {
      assert a + b == b;
    } else {
      assert (a + b)[1..] == a[1..] + b;
      PunchesAppend(a[1..], b);
    }
  }

  /** Whenever `later` occurs in `t`, `earlier` occurs before it. */
  predicate Precedes(t: seq<Effect>, earlier: Effect, later: Effect)
  {
    forall i :: 0 <= i < |t| && t[i] == later ==> earlier in t[..i]
  }

  /**
    `sendMessage(id, tag, data)`, identical in the relay and in the node: open a
    stream to `to` under `tag`; if that fails report false and do nothing else,
    otherwise write `data`, close the stream and report true.
   */
  function SendMessage(to: PeerId, tag: string, data: string, opens: bool): (r: Sent)
    ensures r.ok <==> opens
    ensures |r.effects| >= 1 && r.effects[0] == Open(to, tag, opens)
    ensures Write(to, tag, data) in r.effects <==> opens
    ensures Close(to, tag) in r.effects <==> opens
    ensures forall e :: e in r.effects ==> !e.StartChat? && !e.Punch? && !e.Dial?
    ensures Precedes(r.effects, Write(to, tag, data), Close(to, tag))
  {
    if !opens then Sent(false, [Open(to, tag, false)])
    else Sent(true, [Open(to, tag, true), Write(to, tag, data), Close(to, tag)])
  }
}
