/**
  The protocol tags shared by the node program (common/proto.go) and the
  table of stream handlers a node registers under four of them.
 */
module Protocol {
  import opened Wrappers

  const Version := "1.0.0"

  /** Outgoing login request of a node to the relay. */
  const GetPeer := "/relay/getpeer/" + Version
  /** Pairing response handled by a node. */
  const OnGetPeer := "/chat/getpeer/" + Version
  const SendPeers := "/relay/sendpeers/" + Version
  const FirstP2PMsg := "/chat/first/p2p/msg/" + Version
  const StartP2PMsg := "/chat/start/p2p/msg/" + Version
  const RelayMsg := "/relay/relaymsg/" + Version

  /** The closed set of tags, in declaration order. */
  const Tags: seq<string> := [GetPeer, OnGetPeer, SendPeers, FirstP2PMsg, StartP2PMsg, RelayMsg]

  /** A tag of the form `/.../` followed by the version. */
  predicate Versioned(tag: string)
  {
    && |tag| > |Version| + 1
    && tag[0] == '/'
    && tag[|tag| - |Version| - 1] == '/'
    && tag[|tag| - |Version|..] == Version
  }

  /** Every tag is a path prefix followed by the version "1.0.0". */
  lemma TagsVersioned()
    ensures forall i :: 0 <= i < |Tags| ==> Versioned(Tags[i])
  {
  }

  /** The lengths of the tags, which tell all but two of them apart. */
  lemma TagLengths()
    ensures |GetPeer| == 20 && |OnGetPeer| == 19 && |SendPeers| == 22
    ensures |FirstP2PMsg| == 25 && |StartP2PMsg| == 25 && |RelayMsg| == 21
  {
  }

  /** The two tags of equal length differ at their seventh character. */
  lemma FirstStartDiffer()
    ensures FirstP2PMsg != StartP2PMsg
  {
    assert FirstP2PMsg[6] == 'f' && StartP2PMsg[6] == 's';
  }

  /** The six tags are pairwise distinct. */
  lemma TagsDistinct()
    ensures forall i, j :: 0 <= i < j < |Tags| ==> Tags[i] != Tags[j]
  {
    TagLengths();
    FirstStartDiffer();
  }

  /** The stream handlers of a node. */
  datatype Handler = HandleGetPeers | HandleFirstP2PMsg | HandleP2PMsg | HandleRelayMsg

  /**
    The four `SetStreamHandler` registrations a node makes, in order. A map
    display is a chain of updates, so a later registration under an equal tag
    would replace an earlier one; since the tags differ, all four survive.
   */
  function NodeTable(): (t: map<string, Handler>)
    ensures |t| == 4
    ensures t.Keys == {OnGetPeer, FirstP2PMsg, StartP2PMsg, RelayMsg}
    ensures forall a, b :: a in t && b in t && a != b ==> t[a] != t[b]
  {
    TagLengths();
    FirstStartDiffer();
    map[OnGetPeer := HandleGetPeers, FirstP2PMsg := HandleFirstP2PMsg,
        StartP2PMsg := HandleP2PMsg, RelayMsg := HandleRelayMsg]
  }

  /** The handler an inbound stream under `tag` reaches, or None when the tag is not registered. */
  function Dispatch(table: map<string, Handler>, tag: string): (r: Option<Handler>)
    ensures r.Some? <==> tag in table
    ensures r.Some? ==> table[tag] == r.value
  {
    if tag in table then Some(table[tag]) else None
  }

  /** Each registered tag resolves to its own handler, and distinct tags to distinct handlers. */
  lemma NodeDispatch()
    ensures Dispatch(NodeTable(), OnGetPeer) == Some(HandleGetPeers)
    ensures Dispatch(NodeTable(), FirstP2PMsg) == Some(HandleFirstP2PMsg)
    ensures Dispatch(NodeTable(), StartP2PMsg) == Some(HandleP2PMsg)
    ensures Dispatch(NodeTable(), RelayMsg) == Some(HandleRelayMsg)
    ensures forall a, b :: Dispatch(NodeTable(), a).Some? && Dispatch(NodeTable(), a) == Dispatch(NodeTable(), b) ==> a == b
  {
  }

  /** Exactly the four registered tags reach a handler; every other tag, inside the set or not, reaches none. */
  lemma RegisteredTagsOnly()
    ensures forall tag :: Dispatch(NodeTable(), tag).Some? <==> tag in {OnGetPeer, FirstP2PMsg, StartP2PMsg, RelayMsg}
  {
  }

  /** The login tag and SendPeers have no node handler, nor has a tag outside the set. */
  lemma UnhandledTags()
    ensures Dispatch(NodeTable(), GetPeer) == None
    ensures Dispatch(NodeTable(), SendPeers) == None
    ensures Dispatch(NodeTable(), "/unknown/1.0.0") == None
  {
    TagLengths();
    FirstStartDiffer();
    assert |"/unknown/1.0.0"| == 14;
  }
}
