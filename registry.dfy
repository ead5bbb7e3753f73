/** The peer registry (the global `peers` map of main.go) and the handshake
    handler that updates it. The registry is modelled sequentially: each call of
    the handler runs atomically, as the mutex around the map write makes it, and
    a run of the node is the sequence of read outcomes in the order in which
    their handlers took the lock. */
module PeerRegistry {
  import opened Wire

  /** The HELLO message a handled connection acts on, if any: it summarises
      the handler's whole effect on any registry. */
  function Announced(read: ReadOutcome, unmarshal: seq<byte> -> Decoded): (r: Option<Message>)
    ensures r.Some? ==> r.value.msgType == Hello
    ensures forall peers: map<string, string> ::
              Handle(peers, read, unmarshal) == if r.Some? then peers[r.value.nodeId := r.value.addr] else peers
  {
    if read.Received? && unmarshal(read.data).msg.msgType == Hello
    then Some(unmarshal(read.data).msg)
    else None
  }

  /** Whether a handled connection announces the node `id`. */
  predicate AnnouncesId(read: ReadOutcome, unmarshal: seq<byte> -> Decoded, id: string)
  {
    Announced(read, unmarshal).Some? && Announced(read, unmarshal).value.nodeId == id
  }

  /** The registry after one call of handleConnection: untouched on a read
      error or a record whose decoded type is not HELLO; otherwise the decoded
      NodeID is bound to the decoded Addr. The decoding error is not consulted. */
  function Handle(peers: map<string, string>, read: ReadOutcome, unmarshal: seq<byte> -> Decoded): (r: map<string, string>)
    ensures read.ReadError? ==> r == peers
    ensures read.Received? && unmarshal(read.data).msg.msgType != Hello ==> r == peers
    ensures read.Received? && unmarshal(read.data).msg.msgType == Hello ==>
              var m := unmarshal(read.data).msg;
              m.nodeId in r && r[m.nodeId] == m.addr
              && r.Keys == peers.Keys + {m.nodeId}
              && (forall k :: k in peers && k != m.nodeId ==> r[k] == peers[k])
    ensures peers.Keys <= r.Keys
  {
    match read
    case ReadError => peers
    case Received(data) =>
      var msg := unmarshal(data).msg;
      if msg.msgType == Hello then peers[msg.nodeId := msg.addr] else peers
  }

  /** The registry after the handlers of `conns` ran one after the other: no
      sequence of handled connections removes an entry. */
  function Replay(peers: map<string, string>, conns: seq<ReadOutcome>, unmarshal: seq<byte> -> Decoded): (r: map<string, string>)
    ensures peers.Keys <= r.Keys
  {
    if conns == [] then peers
    else Handle(Replay(peers, conns[..|conns| - 1], unmarshal), conns[|conns| - 1], unmarshal)
  }

  /** The node ids announced by some connection in `conns`. */
  ghost function AnnouncedIds(conns: seq<ReadOutcome>, unmarshal: seq<byte> -> Decoded): set<string>
  {
    set j | 0 <= j < |conns| && Announced(conns[j], unmarshal).Some? :: Announced(conns[j], unmarshal).value.nodeId
  }

  /** A HELLO with an empty NodeID is stored under the key "": the handler
      checks only the type. */
  lemma EmptyIdIsStored(peers: map<string, string>, data: seq<byte>, unmarshal: seq<byte> -> Decoded, a: string)
    requires unmarshal(data).msg == Message(Hello, "", a)
    ensures Handle(peers, Received(data), unmarshal) == peers["" := a]
  {
  }

  /** Under the hypothesis that a syntax error leaves the struct at its zero
      value, a record that is not JSON leaves the registry unchanged. */
  lemma SyntaxErrorLeavesRegistry(peers: map<string, string>, data: seq<byte>, unmarshal: seq<byte> -> Decoded)
    requires SyntaxErrorLeavesZero(unmarshal)
    requires unmarshal(data).err == Some(SyntaxError)
    ensures Handle(peers, Received(data), unmarshal) == peers
  {
  }

  /** The handler discards json.Unmarshal's error: two decoders that leave the
      same struct behind have the same effect, whatever errors they report. So a
      partly decoded HELLO (a type mismatch in another field) is still recorded. */
  lemma DecodeErrorIgnored(peers: map<string, string>, data: seq<byte>, u1: seq<byte> -> Decoded, u2: seq<byte> -> Decoded)
    requires u1(data).msg == u2(data).msg
    ensures Handle(peers, Received(data), u1) == Handle(peers, Received(data), u2)
  {
  }

  /** The key set after a run is the initial one plus every announced id; from
      an empty registry, exactly the announced ids. */
  lemma {:induction false} ReplayKeys(peers: map<string, string>, conns: seq<ReadOutcome>, unmarshal: seq<byte> -> Decoded)
    ensures Replay(peers, conns, unmarshal).Keys == peers.Keys + AnnouncedIds(conns, unmarshal)
  {
    if conns != [] {
      var init := conns[..|conns| - 1];
      var last := conns[|conns| - 1];
      ReplayKeys(peers, init, unmarshal);
      var before := AnnouncedIds(init, unmarshal);
      var after := AnnouncedIds(conns, unmarshal);
      forall id | id in after ensures id in before || AnnouncesId(last, unmarshal, id) {
        var j :| 0 <= j < |conns| && Announced(conns[j], unmarshal).Some? && Announced(conns[j], unmarshal).value.nodeId == id;
        if j < |conns| - 1 {
          assert init[j] == conns[j];
        }
      }
      forall id | id in before ensures id in after {
        var j :| 0 <= j < |init| && Announced(init[j], unmarshal).Some? && Announced(init[j], unmarshal).value.nodeId == id;
        assert conns[j] == init[j];
      }
      if Announced(last, unmarshal).Some? {
        assert Announced(conns[|conns| - 1], unmarshal).value.nodeId in after;
      }
    }
  }

  /** Last write wins: if connection i is the last one that announces `id`,
      the registry ends up mapping `id` to the address that connection carried. */
  lemma {:induction false} LastWriteWins(peers: map<string, string>, conns: seq<ReadOutcome>, unmarshal: seq<byte> -> Decoded, id: string, i: nat)
    requires i < |conns| && AnnouncesId(conns[i], unmarshal, id)
    requires forall j :: i < j < |conns| ==> !AnnouncesId(conns[j], unmarshal, id)
    ensures id in Replay(peers, conns, unmarshal)
    ensures Replay(peers, conns, unmarshal)[id] == Announced(conns[i], unmarshal).value.addr
  {
    var init := conns[..|conns| - 1];
    if i < |conns| - 1 {
      forall j | i < j < |init| ensures !AnnouncesId(init[j], unmarshal, id) {
        assert init[j] == conns[j];
      }
      LastWriteWins(peers, init, unmarshal, id, i);
      assert !AnnouncesId(conns[|conns| - 1], unmarshal, id);
    }
  }

  /** An id that no connection announces keeps whatever entry it had, or stays
      absent. */
  lemma {:induction false} UnannouncedUnchanged(peers: map<string, string>, conns: seq<ReadOutcome>, unmarshal: seq<byte> -> Decoded, id: string)
    requires forall j :: 0 <= j < |conns| ==> !AnnouncesId(conns[j], unmarshal, id)
    ensures (id in Replay(peers, conns, unmarshal)) == (id in peers)
    ensures id in peers ==> Replay(peers, conns, unmarshal)[id] == peers[id]
  {
    if conns != [] {
      var init := conns[..|conns| - 1];
      forall j | 0 <= j < |init| ensures !AnnouncesId(init[j], unmarshal, id) {
        assert init[j] == conns[j];
      }
      UnannouncedUnchanged(peers, init, unmarshal, id);
      assert !AnnouncesId(conns[|conns| - 1], unmarshal, id);
    }
  }

  /** The registry of one node. */
  class Registry {
    var peers: map<string, string>

    /** `make(map[string]string)`: the registry starts empty. */
    constructor ()
      ensures peers == map[]
    {
      peers := map[];
    }

    /** handleConnection: one record read from a connection, then decoded by
        `unmarshal` if the read succeeded. */
    method HandleConnection(read: ReadOutcome, unmarshal: seq<byte> -> Decoded)
      modifies this
      ensures peers == Handle(old(peers), read, unmarshal)
    {
      match read {
        case ReadError =>
          return;
        case Received(data) =>
          var msg := unmarshal(data).msg;
          if msg.msgType == Hello {
            peers := peers[msg.nodeId := msg.addr];
          }
      }
    }

    /** The accept loop, run over a finite sequence of connections whose
        handlers take the lock in the order given. */
    method Serve(conns: seq<ReadOutcome>, unmarshal: seq<byte> -> Decoded)
      modifies this
      ensures peers == Replay(old(peers), conns, unmarshal)
      ensures peers.Keys == old(peers).Keys + AnnouncedIds(conns, unmarshal)
    {
      var i := 0;
      while i < |conns|
        invariant 0 <= i <= |conns|
        invariant peers == Replay(old(peers), conns[..i], unmarshal)
      {
        assert conns[..i + 1][..i] == conns[..i];
        HandleConnection(conns[i], unmarshal);
        i := i + 1;
      }
      assert conns[..i] == conns;
      ReplayKeys(old(peers), conns, unmarshal);
    }
  }
}
