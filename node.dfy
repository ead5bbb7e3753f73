/** The node's own side of the protocol (main.go): the identity check at
    startup, the announcement it sends, and the loop that dials each configured
    peer. Dialing is network I/O: the outcome of each dial is an entry of the
    parameter `dialOk`, and what a successful connectToPeer writes is returned as a
    Delivery instead of being sent. */
module Node {
  import opened Wire
  import opened PeerRegistry

  /** How startup ends: the node goes on to serve, or the process exits. */
  datatype Startup = Proceed | Exit(status: int)

  /** The check in main: the process goes on only when both --id and --addr
      were given, and otherwise exits with status 1. */
  function CheckIdentity(nodeId: string, addr: string): (r: Startup)
    ensures r.Proceed? <==> nodeId != "" && addr != ""
    ensures r.Exit? ==> r.status == 1
  {
    if nodeId == "" || addr == "" then Exit(1) else Proceed
  }

  /** The announcement a node builds about itself: a HELLO carrying its own id
      and address, which a receiving handler therefore acts on, recording this
      id, whatever else a decoder reports. */
  function Announcement(nodeId: string, addr: string): (m: Message)
    ensures m.nodeId == nodeId && m.addr == addr
    ensures forall data: seq<byte>, unmarshal: seq<byte> -> Decoded ::
              unmarshal(data).msg == m ==> AnnouncesId(Received(data), unmarshal, nodeId)
  {
    Message(Hello, nodeId, addr)
  }

  /** The bytes connectToPeer writes: the marshalled announcement, framed.
      They end in '\n' after the marshalled record, and hold no other '\n'
      when the marshalled record holds none. */
  function AnnouncementBytes(nodeId: string, addr: string, marshal: Message -> seq<byte>): (r: seq<byte>)
    ensures |r| > 0 && r[..|r| - 1] == marshal(Announcement(nodeId, addr)) && r[|r| - 1] == Newline
    ensures Newline !in marshal(Announcement(nodeId, addr)) ==> multiset(r)[Newline] == 1
  {
    Frame(marshal(Announcement(nodeId, addr)))
  }

  /** What the receiving node reads and decodes from an announcement, whatever
      else follows on the stream: the read stops exactly at the trailing '\n',
      and decoding yields a HELLO carrying the sender's id and address. */
  lemma AnnouncementReadBack(nodeId: string, addr: string, marshal: Message -> seq<byte>,
                             unmarshal: seq<byte> -> Decoded, rest: seq<byte>)
    requires CodecRoundTrips(marshal, unmarshal)
    ensures var bytes := AnnouncementBytes(nodeId, addr, marshal);
            && ReadString(bytes + rest) == Received(bytes)
            && unmarshal(bytes) == Decoded(Message(Hello, nodeId, addr), None)
  {
    var payload := marshal(Announcement(nodeId, addr));
    assert Newline !in payload && unmarshal(Frame(payload)) == Decoded(Announcement(nodeId, addr), None);
    ReadFramed(payload, rest);
  }

  /** Two nodes: a node that passed the startup check announces itself, and
      the receiving node binds the sender's (non-empty) id to its address,
      overwriting any earlier entry and keeping all others. From an empty
      registry the result is exactly that one entry. */
  lemma HandshakeRecordsSender(nodeId: string, addr: string, marshal: Message -> seq<byte>,
                               unmarshal: seq<byte> -> Decoded, rest: seq<byte>, peers: map<string, string>)
    requires CodecRoundTrips(marshal, unmarshal)
    requires CheckIdentity(nodeId, addr) == Proceed
    ensures nodeId != "" && addr != ""
    ensures Handle(peers, ReadString(AnnouncementBytes(nodeId, addr, marshal) + rest), unmarshal) == peers[nodeId := addr]
    ensures Handle(map[], ReadString(AnnouncementBytes(nodeId, addr, marshal) + rest), unmarshal) == map[nodeId := addr]
  {
    AnnouncementReadBack(nodeId, addr, marshal, unmarshal, rest);
  }

  /** One write performed by a successful connectToPeer. */
  datatype Delivery = Delivery(peer: string, bytes: seq<byte>)

  /** The entries of `peerAddrs` whose dial succeeded, in order; `dialOk[k]`
      is the outcome of dialing entry k. Never more than were configured, and
      all of them when every dial succeeds. */
  function Reachable(peerAddrs: seq<string>, dialOk: seq<bool>): (r: seq<string>)
    requires |dialOk| == |peerAddrs|
    ensures |r| <= |peerAddrs|
    ensures (forall k :: 0 <= k < |dialOk| ==> dialOk[k]) ==> r == peerAddrs
  {
    if peerAddrs == [] then []
    else
      var n := |peerAddrs| - 1;
      var init := Reachable(peerAddrs[..n], dialOk[..n]);
      assert peerAddrs == peerAddrs[..n] + [peerAddrs[n]];
      if dialOk[n] then init + [peerAddrs[n]] else init
  }

  /** The indices of the dials that succeeded, in increasing order: each
      index listed is a successful dial, and every successful dial is listed. */
  function Successes(dialOk: seq<bool>): (ks: seq<nat>)
    ensures forall j :: 0 <= j < |ks| ==> ks[j] < |dialOk| && dialOk[ks[j]]
    ensures forall j, j' :: 0 <= j < j' < |ks| ==> ks[j] < ks[j']
    ensures forall k :: 0 <= k < |dialOk| && dialOk[k] ==> k in ks
  {
    if dialOk == [] then []
    else
      var n := |dialOk| - 1;
      var init := Successes(dialOk[..n]);
      assert forall j :: 0 <= j < |init| ==> dialOk[init[j]] == dialOk[..n][init[j]];
      if dialOk[n] then init + [n] else init
  }

  /** The reached peers are exactly the configured entries at the successful
      dials, one per successful dial, in configured order. */
  lemma {:induction false} ReachableSelects(peerAddrs: seq<string>, dialOk: seq<bool>)
    requires |dialOk| == |peerAddrs|
    ensures |Reachable(peerAddrs, dialOk)| == |Successes(dialOk)|
    ensures forall j :: 0 <= j < |Successes(dialOk)| ==>
              Reachable(peerAddrs, dialOk)[j] == peerAddrs[Successes(dialOk)[j]]
  {
    if peerAddrs != [] {
      var n := |peerAddrs| - 1;
      var init := Reachable(peerAddrs[..n], dialOk[..n]);
      var ks := Successes(dialOk[..n]);
      ReachableSelects(peerAddrs[..n], dialOk[..n]);
      forall j | 0 <= j < |ks| ensures init[j] == peerAddrs[ks[j]] {
        assert peerAddrs[..n][ks[j]] == peerAddrs[ks[j]];
      }
      if dialOk[n] {
        assert Reachable(peerAddrs, dialOk) == init + [peerAddrs[n]];
        assert Successes(dialOk) == ks + [n];
      } else {
        assert Reachable(peerAddrs, dialOk) == init;
        assert Successes(dialOk) == ks;
      }
    }
  }

  /** An address is reached exactly when some dial of it succeeds. */
  lemma {:induction false} ReachableMembers(peerAddrs: seq<string>, dialOk: seq<bool>, p: string)
    requires |dialOk| == |peerAddrs|
    ensures p in Reachable(peerAddrs, dialOk) <==>
              exists k :: 0 <= k < |peerAddrs| && peerAddrs[k] == p && dialOk[k]
  {
    if peerAddrs != [] {
      var n := |peerAddrs| - 1;
      ReachableMembers(peerAddrs[..n], dialOk[..n], p);
      if exists k :: 0 <= k < |peerAddrs| && peerAddrs[k] == p && dialOk[k] {
        var k :| 0 <= k < |peerAddrs| && peerAddrs[k] == p && dialOk[k];
        if k < n {
          assert peerAddrs[..n][k] == p && dialOk[..n][k];
        }
      }
    }
  }

  /** Each entry is dialed on its own: when an address is configured twice,
      the first dial can fail and the second succeed, and it is sent to once. */
  lemma RepeatedPeerDialedSeparately(p: string)
    ensures Reachable([p, p], [false, true]) == [p]
  {
  }

  /** The dial-each-peer loop of main: connectToPeer on every configured
      address in order, `dialOk[k]` being the outcome of the k-th dial. A
      peer whose dial fails is skipped silently; each successful dial, in
      configured order, yields one delivery of the framed announcement. */
  method AnnounceToPeers(peerAddrs: seq<string>, dialOk: seq<bool>, nodeId: string, addr: string,
                         marshal: Message -> seq<byte>) returns (sent: seq<Delivery>)
    requires |dialOk| == |peerAddrs|
    ensures |sent| == |Successes(dialOk)|
    ensures forall j :: 0 <= j < |sent| ==>
              sent[j] == Delivery(peerAddrs[Successes(dialOk)[j]], AnnouncementBytes(nodeId, addr, marshal))
  {
    var bytes := Frame(marshal(Announcement(nodeId, addr)));
    sent := [];
    var i := 0;
    while i < |peerAddrs|
      invariant 0 <= i <= |peerAddrs|
      invariant |sent| == |Reachable(peerAddrs[..i], dialOk[..i])|
      invariant forall k :: 0 <= k < |sent| ==> sent[k] == Delivery(Reachable(peerAddrs[..i], dialOk[..i])[k], bytes)
    {
      assert peerAddrs[..i + 1][..i] == peerAddrs[..i];
      assert dialOk[..i + 1][..i] == dialOk[..i];
      if dialOk[i] {
        sent := sent + [Delivery(peerAddrs[i], bytes)];
      }
      i := i + 1;
    }
    assert peerAddrs[..i] == peerAddrs;
    assert dialOk[..i] == dialOk;
    ReachableSelects(peerAddrs, dialOk);
  }
}
