/** Connections are answered in order, however they are interleaved with others. */
module Orders {
  import opened Words
  import opened Stores
  import opened Pdus
  import opened Mbap
  import opened RawIngest
  import opened Dispatching
  import opened Authorities
  import opened Servers
  import opened Histories
  import opened Gates

  /** The requests in a byte stream, up to its end or the first one that cannot be read. */
  function Asked(input: seq<byte>, port: u16): seq<Request>
    decreases |input|
  {
    ParseRequestConsumes(input, port);
    var (r, rest) := ParseRequest(input, port);
    if r.Err? then [] else [r.value] + Asked(rest, port)
  }

  /** The requests that the replies of connection `c` answer. */
  function Answered(replies: seq<Reply>, c: int): seq<Request> {
    if replies == [] then []
    else
      var init, last := replies[..|replies| - 1], replies[|replies| - 1];
      if last.conn == c then Answered(init, c) + [last.req] else Answered(init, c)
  }

  /** The requests that a connection has still to answer. */
  function Remaining(peer: Peer): seq<Request> {
    match peer
    case Reading(port, _, input) => Asked(input, port)
    case Checking(port, _, input, req, _) => [req] + Asked(input, port)
    case Judging(port, _, input, req, _, _) => [req] + Asked(input, port)
    case Pending(port, _, input, req, _, _) => [req] + Asked(input, port)
    case Answering(port, _, input, reply) => [reply.req] + Asked(input, port)
    case _ => []
  }

  /** All writes to connection `c` succeed. */
  predicate Reliable(schedule: seq<(int, bool)>, c: int) {
    forall i | 0 <= i < |schedule| && schedule[i].0 == c :: schedule[i].1
  }

  lemma AnsweredSnoc(replies: seq<Reply>, reply: Reply, c: int)
    ensures Answered(replies + [reply], c) ==
            if reply.conn == c then Answered(replies, c) + [reply.req] else Answered(replies, c)
  {
    assert (replies + [reply])[..|replies|] == replies;
  }

  lemma AnswersOwn(s: Contents, auth: Auth, m: Machine, d: int)
    requires Inv(s, auth, m) && d in m.peers && m.peers[d].Answering?
    ensures m.peers[d].reply.conn == d
  {
    hide Justified;
    assert PeerInv(s, auth, m.log, m.stamps, d, m.peers[d]);
  }

  lemma NextRemaining(peer: Peer, auth: Auth, c: int, now: nat)
    ensures Remaining(Next(peer, auth, c, now)) == Remaining(peer)
  {
    hide ParsePacket, Judge;
  }

  lemma CheckedRemaining(m: Machine, c: int, peer: Peer, sealed: bool)
    requires peer.Checking?
    ensures Remaining(Checked(m, c, peer, sealed)) == Remaining(peer)
  {
  }

  /** A step moves requests of `c` from what remains to what is answered, from the front, and loses none. */
  lemma StepInOrder(s: Contents, auth: Auth, m: Machine, d: int, ok: bool, c: int)
    requires Inv(s, auth, m) && c in m.peers && (d == c ==> ok)
    ensures var n := Step(m, auth, d, ok);
            && c in n.peers
            && Answered(n.replies, c) + Remaining(n.peers[c]) == Answered(m.replies, c) + Remaining(m.peers[c])
  {
    hide Inv, Next, Checked, Dispatch, Ingest, Sealed, Effect, Answered, Asked;
    if d in m.peers {
      match m.peers[d]
      case Answering(_, _, _, reply) =>
        AnswersOwn(s, auth, m, d);
        AnsweredSnoc(m.replies, reply, c);
      case Checking(_, _, _, req, _) => CheckedRemaining(m, d, m.peers[d], Sealed(m.store, Target(req)));
      case _ => NextRemaining(m.peers[d], auth, d, |m.log|);
    }
  }

  /** In every interleaving, the answers on a connection are to the requests it has sent, in their order,
      one for each; what is not yet answered is still to come. Once the connection is closed all have been
      answered. */
  lemma {:induction false} InOrder(m: Machine, auth: Auth, schedule: seq<(int, bool)>, c: int)
    requires Initial(m) && c in m.peers && m.peers[c].Reading? && Reliable(schedule, c)
    ensures var now := Exec(m, auth, schedule);
            && c in now.peers
            && Asked(m.peers[c].input, m.peers[c].port) == Answered(now.replies, c) + Remaining(now.peers[c])
    decreases |schedule|
  {
    hide Step, Inv, Asked;
    if schedule != [] {
      var before := schedule[..|schedule| - 1];
      var (d, ok) := schedule[|schedule| - 1];
      InOrder(m, auth, before, c);
      Reachable(m, auth, before);
      StepInOrder(m.store, auth, Exec(m, auth, before), d, ok, c);
    }
  }

  /** For the stream of any well-framed requests this means: the `k`-th answer is to the `k`-th request. */
  lemma {:induction false} AskedAll(reqs: seq<Request>, port: u16)
    requires forall i | 0 <= i < |reqs| :: WellFramed(reqs[i], port)
    ensures Asked(EncodeRequests(reqs), port) == reqs
  {
    hide EncodeRequest;
    if reqs != [] {
      RequestRoundTrip(reqs[0], port, EncodeRequests(reqs[1..]));
      AskedAll(reqs[1..], port);
      assert [reqs[0]] + reqs[1..] == reqs;
    }
  }
}
