/** VXLAN peer reconciliation of pkg/network/vxlan.go: a diff loop whose forwarding steps may
    fail one by one.
 */
module PeerSync {

  /** The outcome of addPeerForwarding at each position of the list, should it be called. */
  type Outcomes = nat -> bool

  /** The peers stored after UpdatePeers: those of the list that were stored already or were
      added successfully at one of their positions. */
  ghost function Updated(stored: set<string>, peers: seq<string>, ok: Outcomes): set<string> {
    set p | p in peers && (p in stored || Added(peers, ok, p))
  }

  ghost predicate Added(peers: seq<string>, ok: Outcomes, p: string) {
    exists i :: 0 <= i < |peers| && peers[i] == p && ok(i)
  }

  /** The positions at which forwarding is attempted: peers not stored, and repetitions. */
  predicate Attempted(stored: set<string>, peers: seq<string>, i: nat)
    requires i < |peers|
  {
    peers[i] !in stored || peers[i] in peers[..i]
  }

  /** The forwarding entries that UpdatePeers makes. */
  ghost function Forwarded(stored: set<string>, peers: seq<string>, ok: Outcomes): set<string> {
    set i | 0 <= i < |peers| && Attempted(stored, peers, i) && ok(i) :: peers[i]
  }

  class StaticPeerStore {
    var peers: set<string>

    constructor (initialPeers: seq<string>)
      ensures peers == set p | p in initialPeers
    {
      peers := {};
      new;
      for i := 0 to |initialPeers|
        invariant peers == set p | p in initialPeers[..i]
      {
        peers := peers + {initialPeers[i]};
      }
      assert initialPeers[..|initialPeers|] == initialPeers;
    }

    /** GetPeers, in any order. */
    method GetPeers() returns (r: seq<string>)
      ensures |r| == |peers| && forall p :: p in r <==> p in peers
    {
      r := [];
      var rest := peers;
      while rest != {}
        invariant rest <= peers && |r| + |rest| == |peers|
        invariant forall p :: p in r <==> p in peers - rest
      {
        var p :| p in rest;
        r := r + [p];
        rest := rest - {p};
      }
    }

    method AddPeer(ip: string)
      modifies this
      ensures peers == old(peers) + {ip}
    {
      peers := peers + {ip};
    }

    method RemovePeer(ip: string)
      modifies this
      ensures peers == old(peers) - {ip}
    {
      peers := peers - {ip};
    }
  }

  class VXLANManager {
    const peerStore: StaticPeerStore
    // The forwarding entries of the kernel for this interface.
    var fdb: set<string>

    constructor (store: StaticPeerStore)
      ensures peerStore == store && fdb == {}
    {
      peerStore, fdb := store, {};
    }

    /** addPeerForwarding; an entry that exists already counts as a success. */
    method AddPeerForwarding(peer: string, succeeds: bool) returns (ok: bool)
      modifies this
      ensures ok == succeeds && fdb == if ok then old(fdb) + {peer} else old(fdb)
    {
      if succeeds {
        fdb := fdb + {peer};
      }
      ok := succeeds;
    }

    /** The first loop of UpdatePeers: adds what is new and crosses off what is listed. */
    method AddListed(newPeers: seq<string>, known: set<string>, outcomes: Outcomes) returns (current: set<string>)
      requires known == peerStore.peers
      modifies this, peerStore
      ensures current == known - Listed(newPeers)
      ensures peerStore.peers == known + Updated(known, newPeers, outcomes)
      ensures fdb == old(fdb) + Forwarded(known, newPeers, outcomes)
    {
      current := known;
      for i := 0 to |newPeers|
        invariant current == known - Listed(newPeers[..i])
        invariant peerStore.peers == known + Updated(known, newPeers[..i], outcomes)
        invariant fdb == old(fdb) + Forwarded(known, newPeers[..i], outcomes)
      {
        var peer := newPeers[i];
        OneMorePeer(known, newPeers, outcomes, i);
        if peer !in current {
          var added := AddPeerForwarding(peer, outcomes(i));
          if !added {
            continue;
          }
          peerStore.AddPeer(peer);
        }
        current := current - {peer};
      }
      assert newPeers[..|newPeers|] == newPeers;
    }

    method UpdatePeers(newPeers: seq<string>, linkExists: bool, outcomes: Outcomes) returns (ok: bool)
      modifies this, peerStore
      ensures ok == linkExists
      ensures !ok ==> peerStore.peers == old(peerStore.peers) && fdb == old(fdb)
      ensures ok ==> peerStore.peers == Updated(old(peerStore.peers), newPeers, outcomes)
      ensures ok ==> fdb == old(fdb) + Forwarded(old(peerStore.peers), newPeers, outcomes)
    {
      if !linkExists {
        return false;
      }
      var known := peerStore.GetPeers();
      assert Listed(known) == peerStore.peers;
      UnlistedGoes(peerStore.peers, newPeers, outcomes);
      var current := AddListed(newPeers, Listed(known), outcomes);
      RemoveAll(current);
      ok := true;
    }

    /** The second loop of UpdatePeers. */
    method RemoveAll(unlisted: set<string>)
      modifies peerStore
      ensures peerStore.peers == old(peerStore.peers) - unlisted
    {
      var current := unlisted;
      while current != {}
        invariant current <= unlisted && peerStore.peers == old(peerStore.peers) - (unlisted - current)
      {
        var peer :| peer in current;
        peerStore.RemovePeer(peer);
        current := current - {peer};
      }
      assert unlisted - current == unlisted;
    }
  }

  lemma UnlistedGoes(stored: set<string>, peers: seq<string>, ok: Outcomes)
    ensures stored + Updated(stored, peers, ok) - (stored - Listed(peers)) == Updated(stored, peers, ok)
  {
  }

  function Listed(peers: seq<string>): set<string> {
    set p | p in peers
  }

  /** What one more position of the list does to the two specifications. */
  lemma OneMorePeer(stored: set<string>, peers: seq<string>, ok: Outcomes, i: nat)
    requires i < |peers|
    ensures var p := peers[i];
            && Listed(peers[..i + 1]) == Listed(peers[..i]) + {p}
            && (Attempted(stored, peers, i) <==> p !in stored - Listed(peers[..i]))
            && stored + Updated(stored, peers[..i + 1], ok) ==
               stored + Updated(stored, peers[..i], ok) + (if ok(i) then {p} else {})
            && Forwarded(stored, peers[..i + 1], ok) ==
               Forwarded(stored, peers[..i], ok) + (if ok(i) && Attempted(stored, peers, i) then {p} else {})
  {
    assert peers[..i + 1] == peers[..i] + [peers[i]];
    OneMoreAdded(stored, peers, ok, i);
    OneMoreForwarded(stored, peers, ok, i);
  }

  lemma OneMoreAdded(stored: set<string>, peers: seq<string>, ok: Outcomes, i: nat)
    requires i < |peers|
    ensures stored + Updated(stored, peers[..i + 1], ok) ==
            stored + Updated(stored, peers[..i], ok) + (if ok(i) then {peers[i]} else {})
  {
  }

  lemma OneMoreForwarded(stored: set<string>, peers: seq<string>, ok: Outcomes, i: nat)
    requires i < |peers|
    ensures Forwarded(stored, peers[..i + 1], ok) ==
            Forwarded(stored, peers[..i], ok) + (if ok(i) && Attempted(stored, peers, i) then {peers[i]} else {})
  {
  }

  /** Stored peers keep having a forwarding entry. */
  lemma ForwardingKept(stored: set<string>, fdb: set<string>, peers: seq<string>, ok: Outcomes)
    requires stored <= fdb
    ensures Updated(stored, peers, ok) <= fdb + Forwarded(stored, peers, ok)
  {
  }

  /** UpdatePeers, on its result: the store holds exactly the listed peers that were stored before
      or for which some attempt succeeded. Forwarding is attempted for a peer exactly when it is
      listed and was not stored, or is listed again. */
  lemma UpdatedIs(stored: set<string>, peers: seq<string>, ok: Outcomes, p: string)
    ensures p in Updated(stored, peers, ok) <==>
            p in peers && (p in stored || exists i :: 0 <= i < |peers| && peers[i] == p && ok(i))
    ensures p in Forwarded(stored, peers, ok) <==>
            exists i :: 0 <= i < |peers| && peers[i] == p && ok(i)
                        && (p in stored ==> exists j :: 0 <= j < i && peers[j] == p)
  {
    if i :| 0 <= i < |peers| && peers[i] == p && ok(i) && (p in stored ==> exists j :: 0 <= j < i && peers[j] == p) {
      assert p in stored ==> p in peers[..i];
      assert Attempted(stored, peers, i);
    }
    if p in Forwarded(stored, peers, ok) {
      var i :| 0 <= i < |peers| && Attempted(stored, peers, i) && ok(i) && peers[i] == p;
      if p in stored {
        var j :| 0 <= j < i && peers[..i][j] == p;
        assert peers[j] == p;
      }
    }
  }

  /** After one call with a list, further calls with it change nothing, whatever fails in them,
      exactly when the store already equals the list; and it does when all additions succeed. */
  lemma SettledIff(stored: set<string>, peers: seq<string>, ok: Outcomes)
    ensures var now := Updated(stored, peers, ok);
            && ((forall ok': Outcomes :: Updated(now, peers, ok') == now) <==> now == Listed(peers))
            && ((forall i: nat :: ok(i)) ==> now == Listed(peers))
  {
    var now := Updated(stored, peers, ok);
    var allOk: Outcomes := i => true;
    AllSucceed(stored, peers, ok);
    AllSucceed(now, peers, allOk);
    assert now == Listed(peers) ==> forall p | p in peers :: p in now;
  }

  lemma AllSucceed(stored: set<string>, peers: seq<string>, ok: Outcomes)
    ensures (forall i: nat :: ok(i)) ==> Updated(stored, peers, ok) == Listed(peers)
  {
    if forall i: nat :: ok(i) {
      forall p | p in peers
        ensures Added(peers, ok, p)
      {
        var i :| 0 <= i < |peers| && peers[i] == p;
        assert ok(i);
      }
    }
  }

  // ----- Repeated calls with the same list -----

  ghost function Repeated(stored: set<string>, peers: seq<string>, calls: seq<Outcomes>): set<string> {
    if |calls| == 0 then stored
    else Updated(Repeated(stored, peers, calls[..|calls| - 1]), peers, calls[|calls| - 1])
  }

  /** Over any number of calls with one list, nothing that was reached is lost: the store holds
      the listed peers that were stored at first or were added by at least one call. */
  lemma {:induction false} RepeatedConverges(stored: set<string>, peers: seq<string>, calls: seq<Outcomes>)
    requires |calls| > 0
    ensures Repeated(stored, peers, calls) ==
            set p | p in peers && (p in stored || exists c :: 0 <= c < |calls| && Added(peers, calls[c], p))
  {
    var front, last := calls[..|calls| - 1], calls[|calls| - 1];
    if |front| > 0 {
      RepeatedConverges(stored, peers, front);
    }
    forall p | p in peers
      ensures (exists c :: 0 <= c < |calls| && Added(peers, calls[c], p)) <==>
              Added(peers, last, p) || exists c :: 0 <= c < |front| && Added(peers, front[c], p)
    {
      if c :| 0 <= c < |front| && Added(peers, front[c], p) {
        assert calls[c] == front[c];
      }
    }
  }
}
