/**
 * A worked run of the registry: one receiver connects, "alice" sends "hi",
 * and the receiver's session writes exactly the greeting, its own join
 * notice and the text, in that order.
 */
module Scenario {
  import opened Wrappers
  import opened Ids
  import opened Messages
  import opened Registry
  import opened Session
  import opened Publish

  /** The receiver connects to a new registry; its greeting is made but not written yet. */
  method Connect(now: Instant) returns (c: Chatter, sub: Subscription, hello: Message)
    ensures fresh(c) && fresh(sub)
    ensures c.Valid() && sub.owner == c && !sub.closed
    ensures c.ctr == 3 && c.receiverCount == 1
    ensures c.receivers == map[sub.id := [JoinNotice(FormatID(now.unix, 2), now.rfc3339, 1)]]
    ensures hello == Hello(now.rfc3339)
  {
    c := new Chatter();
    sub := c.Receive(now);
    hello := c.NewMessage(now);
    hello := hello.(id := HelloID, ping := PingMessage(true, ""));
  }

  /**
   * Two receivers join one after the other, well before the counter wraps:
   * they get different ids and the count still equals the registered receivers.
   */
  method TwoJoins(c: Chatter, now: Instant) returns (first: Subscription, second: Subscription)
    requires c.Valid() && |c.Issued| < 0x1000 && |c.receivers| < 0x1000
    modifies c
    ensures c.Valid()
    ensures first.id != second.id && first.id in c.receivers && second.id in c.receivers
    ensures c.receiverCount == |c.receivers| == |old(c.receivers)| + 2
  {
    first := c.Receive(now);
    second := c.Receive(now);
  }

  method AliceSaysHi(now: Instant) returns (written: seq<Message>)
    ensures |written| == 3
    ensures written[0] == Hello(now.rfc3339)
    ensures written[1] == JoinNotice(FormatID(now.unix, 2), now.rfc3339, 1)
    ensures written[1].system.text == "total chatters +1 = 1"
    ensures written[2] == Envelope(FormatID(now.unix, 4), now.rfc3339)
                            .(text := TextMessage(true, "alice", "hi"))
  {
    var c, sub, hello := Connect(now);
    var id := HandleSend(c, TextMessage(false, "alice", "hi"), None, now);
    written := Stream(c, sub, hello, Peer(3, 2), now);
    assert Numerals.Decimal(1) == "1";
  }
}
