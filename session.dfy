/**
 * The `/receive` handler seen sequentially: register, write the greeting,
 * then write the receiver's queued messages oldest first until a write fails
 * or the request is cancelled, and close the registration on every way out.
 */
module Session {
  import opened Ints
  import opened Ids
  import opened Messages
  import opened Registry

  /**
   * How the connection behaves: the write numbered `failAt` fails (number 0
   * is the greeting), and the request is cancelled once the session has
   * taken `cancelAfter` queued messages or has emptied its queue.
   */
  datatype Peer = Peer(failAt: nat, cancelAfter: nat)

  function Min(a: nat, b: nat): nat {
    if a < b then a else b
  }

  /** The queued messages the session takes before it is cancelled. */
  function Taken(queue: seq<Message>, peer: Peer): (t: seq<Message>)
    ensures |t| <= |queue| && t == queue[..|t|]
    ensures |t| < |queue| ==> |t| == peer.cancelAfter
    ensures peer.cancelAfter < |queue| ==> |t| == peer.cancelAfter
  {
    queue[..Min(peer.cancelAfter, |queue|)]
  }

  /** The messages a session writes successfully, in order. */
  function Written(hello: Message, queue: seq<Message>, peer: Peer): (w: seq<Message>)
    ensures |w| == Min(peer.failAt, |Taken(queue, peer)| + 1)
    ensures |w| > 0 <==> peer.failAt > 0
    ensures |w| > 0 ==> w[0] == hello
    ensures forall i :: 1 <= i < |w| ==> w[i] == queue[i - 1]
  {
    ([hello] + Taken(queue, peer))[..Min(peer.failAt, |Taken(queue, peer)| + 1)]
  }

  /** With a healthy connection that outlives the queue, everything queued is written. */
  lemma WritesWholeQueue(hello: Message, queue: seq<Message>, peer: Peer)
    requires peer.failAt > |queue| && peer.cancelAfter >= |queue|
    ensures Written(hello, queue, peer) == [hello] + queue
  {
  }

  /**
   * How the loop in `Drain` can end: cancelled or with an empty queue after
   * its last successful write, or on the write that failed.
   */
  lemma DrainExit(hello: Message, queue: seq<Message>, peer: Peer, taken: nat, written: seq<Message>)
    requires taken <= |queue| && taken <= peer.cancelAfter
    requires || (&& taken + 1 <= peer.failAt && (taken == peer.cancelAfter || taken == |queue|)
                 && written == ([hello] + queue)[..taken + 1])
             || (taken == peer.failAt && written == ([hello] + queue)[..taken])
    ensures taken == Min(peer.failAt, |Taken(queue, peer)|)
    ensures written == Written(hello, queue, peer)
  {
  }

  /**
   * The handler's loop after a successful greeting: take and write queued
   * messages until a write fails or the request is cancelled. Only the
   * session's own queue changes.
   */
  method Drain(c: Chatter, id: string, hello: Message, peer: Peer) returns (written: seq<Message>)
    requires c.Valid() && id in c.receivers && peer.failAt > 0
    modifies c
    ensures c.Valid() && id in c.receivers
    ensures written == Written(hello, old(c.receivers[id]), peer)
    ensures c.receivers - {id} == old(c.receivers) - {id}
    ensures c.receivers[id] == old(c.receivers[id])[Min(peer.failAt, |Taken(old(c.receivers[id]), peer)|)..]
    ensures c.receiverCount == old(c.receiverCount) && c.ctr == old(c.ctr)
    ensures c.Issued == old(c.Issued)
  {
    ghost var queue := c.receivers[id];
    written := [hello];
    var taken := 0;
    while taken < peer.cancelAfter && c.receivers[id] != []
      invariant c.Valid() && id in c.receivers
      invariant taken <= |queue| && taken <= peer.cancelAfter
      invariant c.receivers == old(c.receivers)[id := queue[taken..]]
      invariant c.receiverCount == old(c.receiverCount) && c.ctr == old(c.ctr)
      invariant c.Issued == old(c.Issued)
      invariant written == ([hello] + queue)[..taken + 1] && taken + 1 <= peer.failAt
      decreases |queue| - taken
    {
      var m := c.Take(id);
      taken := taken + 1;
      if taken == peer.failAt {
        break;
      }
      written := written + [m];
    }
    DrainExit(hello, queue, peer, taken, written);
    ReplaceKeepsOthers(old(c.receivers), id, queue[taken..]);
  }

  /**
   * The streaming part of the handler: write `hello`, then drain the queue;
   * close the registration whichever way that ends, the greeting failing
   * included.
   */
  method Stream(c: Chatter, sub: Subscription, hello: Message, peer: Peer, now: Instant)
    returns (written: seq<Message>)
    requires c.Valid() && sub.owner == c && !sub.closed && sub.id in c.receivers
    modifies c, sub
    ensures c.Valid() && sub.closed
    ensures written == Written(hello, old(c.receivers[sub.id]), peer)
    ensures sub.id !in c.receivers
    ensures c.receiverCount == AddInt32(old(c.receiverCount), -1)
    ensures c.ctr == NextCounter(old(c.ctr))
    ensures |c.Issued| == |old(c.Issued)| + 1
    ensures c.receivers == Broadcast(old(c.receivers) - {sub.id},
                                     LeaveNotice(FormatID(now.unix, c.ctr), now.rfc3339, c.receiverCount))
  {
    if peer.failAt == 0 {
      written := [];
    } else {
      written := Drain(c, sub.id, hello, peer);
    }
    sub.Close(now);
  }

  /**
   * The whole handler: `Receive`, the greeting, then Stream. The receiver,
   * the join notice and the greeting are stamped at `now`; the leave notice
   * at `closedAt`, when the connection ends.
   */
  method HandleReceive(c: Chatter, now: Instant, peer: Peer, closedAt: Instant) returns (written: seq<Message>)
    requires c.Valid()
    modifies c
    ensures c.Valid()
    ensures written == Written(Hello(now.rfc3339),
               [JoinNotice(FormatID(now.unix, NextCounter(NextCounter(old(c.ctr)))),
                           now.rfc3339, AddInt32(old(c.receiverCount), 1))], peer)
    ensures c.receiverCount == old(c.receiverCount)
    ensures c.ctr == NextCounter(NextCounter(NextCounter(NextCounter(old(c.ctr)))))
    ensures |c.Issued| == |old(c.Issued)| + 4
    ensures |old(c.Issued)| < Modulus32 ==>
      c.receivers == Broadcast(Broadcast(old(c.receivers),
        JoinNotice(FormatID(now.unix, NextCounter(NextCounter(old(c.ctr)))), now.rfc3339, AddInt32(old(c.receiverCount), 1))),
        LeaveNotice(FormatID(closedAt.unix, c.ctr), closedAt.rfc3339, old(c.receiverCount)))
  {
    var sub := c.Receive(now);
    var hello := c.NewMessage(now);
    hello := hello.(id := HelloID, ping := PingMessage(true, ""));
    written := Stream(c, sub, hello, peer, closedAt);
    AddInt32Inverse(old(c.receiverCount));
    if |old(c.Issued)| < Modulus32 {
      RegisterThenDrop(old(c.receivers), sub.id,
        JoinNotice(FormatID(now.unix, NextCounter(NextCounter(old(c.ctr)))), now.rfc3339, AddInt32(old(c.receiverCount), 1)));
    }
  }
}
