/**
 * The `chatter` registry: a map from receiver id to that receiver's queue,
 * the live receiver count and the id counter, and the operations that
 * stamp, fan out, register and deregister.
 */
module Registry {
  import opened Ints
  import opened Ids
  import opened Messages

  /** The registered queues, by receiver id; each queue is oldest first. */
  type Queues = map<string, seq<Message>>

  /** The effect of one Send: `m` appended at the end of every registered queue. */
  function Broadcast(qs: Queues, m: Message): (r: Queues)
    ensures r.Keys == qs.Keys
  {
    map k | k in qs :: qs[k] + [m]
  }

  /**
   * Fan-out adds no receiver and removes none, keeps what every queue held
   * and puts `m` last in each.
   */
  lemma BroadcastAppends(qs: Queues, m: Message)
    ensures Broadcast(qs, m).Keys == qs.Keys
    ensures forall k :: k in qs ==>
      var r := Broadcast(qs, m)[k];
      |r| == |qs[k]| + 1 && r[..|qs[k]|] == qs[k] && r[|qs[k]|] == m
  {
  }

  /**
   * A receiver registered just before a Send and removed right after it
   * leaves the other queues as the Send alone would.
   */
  lemma RegisterThenDrop(qs: Queues, id: string, m: Message)
    requires id !in qs
    ensures Broadcast(qs[id := []], m) - {id} == Broadcast(qs, m)
  {
  }

  /**
   * Registering an empty queue under a new id and then sending `m`: the
   * newcomer holds just `m`, every other queue gets `m` appended.
   */
  lemma JoinedQueues(qs: Queues, id: string, m: Message)
    ensures Broadcast(qs[id := []], m).Keys == qs.Keys + {id}
    ensures Broadcast(qs[id := []], m)[id] == [m]
    ensures forall k :: k in qs && k != id ==> Broadcast(qs[id := []], m)[k] == qs[k] + [m]
  {
  }

  /** Replacing one queue leaves the other receivers' queues as they were. */
  lemma ReplaceKeepsOthers(qs: Queues, id: string, q: seq<Message>)
    ensures qs[id := q] - {id} == qs - {id}
  {
  }

  /** The effect of Sends of `ms`, one after the other. */
  ghost function Published(qs: Queues, ms: seq<Message>): Queues
    decreases |ms|
  {
    if ms == [] then qs else Broadcast(Published(qs, ms[..|ms| - 1]), ms[|ms| - 1])
  }

  /** One more Send after a run of Sends. */
  lemma PublishedStep(qs: Queues, ms: seq<Message>, m: Message)
    ensures Published(qs, ms + [m]) == Broadcast(Published(qs, ms), m)
  {
    assert (ms + [m])[..|ms|] == ms;
  }

  /**
   * A receiver registered throughout a run of Sends gets every message once,
   * in the order they were sent, after what it already held.
   */
  lemma {:induction false} PublishedInOrder(qs: Queues, ms: seq<Message>)
    ensures Published(qs, ms).Keys == qs.Keys
    ensures forall k :: k in qs ==> Published(qs, ms)[k] == qs[k] + ms
    decreases |ms|
  {
    if ms != [] {
      var init, last := ms[..|ms| - 1], ms[|ms| - 1];
      PublishedInOrder(qs, init);
      assert init + [last] == ms;
      forall k | k in qs ensures Published(qs, ms)[k] == qs[k] + ms {
        assert Published(qs, ms)[k] == Published(qs, init)[k] + [last];
      }
    }
  }

  /**
   * The loop `Send` runs over the registry: visit every entry once, in no
   * particular order, and push `m` into its queue.
   */
  method FanOut(qs: Queues, m: Message) returns (r: Queues)
    ensures r == Broadcast(qs, m)
  {
    var pending := qs.Keys;
    r := qs;
    while pending != {}
      invariant pending <= r.Keys == qs.Keys
      invariant forall k :: k in r ==> r[k] == if k in pending then qs[k] else qs[k] + [m]
      decreases pending
    {
      var k :| k in pending;
      r := r[k := r[k] + [m]];
      pending := pending - {k};
    }
    assert r == Broadcast(qs, m);
  }

  class Chatter {
    var receivers: Queues
    var receiverCount: int32
    var ctr: uint32
    /** Every id issued so far, oldest first, and the Unix time each carries. */
    ghost var Issued: seq<string>
    ghost var IssuedAt: seq<int64>

    /**
     * The log explains the counter and every registered id; and until the
     * counter wraps (so no id has been issued twice), the count is the
     * number of registered receivers, as an int32.
     */
    ghost predicate Valid()
      reads this
    {
      && IssuedLog(Issued, IssuedAt)
      && ctr == |Issued| % Modulus32
      && (forall k :: k in receivers ==> k in Issued)
      && (|Issued| < Modulus32 ==> receiverCount == ToInt32(|receivers|))
    }

    /** Before any wrap, the count is exactly the number of registered receivers. */
    lemma CountIsReceivers()
      requires Valid() && |Issued| < Modulus32 && |receivers| < 0x8000_0000
      ensures receiverCount == |receivers|
    {
    }

    /** `chatter{}`: nobody registered, both counters zero. */
    constructor ()
      ensures Valid()
      ensures receivers == map[] && receiverCount == 0 && ctr == 0 && Issued == []
    {
      receivers := map[];
      receiverCount := 0;
      ctr := 0;
      Issued, IssuedAt := [], [];
    }

    /** `NewID`: bump the counter and print the time and the new counter value. */
    method NewID(unix: int64) returns (id: string)
      requires Valid()
      modifies this
      ensures Valid()
      ensures ctr == NextCounter(old(ctr))
      ensures id == FormatID(unix, ctr)
      ensures Issued == old(Issued) + [id]
      ensures |old(Issued)| < Modulus32 ==> id !in old(Issued)
      ensures receivers == old(receivers) && receiverCount == old(receiverCount)
    {
      CounterTracksLog(|Issued|);
      ctr := NextCounter(ctr);
      id := FormatID(unix, ctr);
      if |Issued| < Modulus32 {
        NextIsFresh(Issued, IssuedAt, unix);
      }
      IssuedLogExtend(Issued, IssuedAt, unix);
      Issued, IssuedAt := Issued + [id], IssuedAt + [unix];
    }

    /** `NewMessage`: an envelope with a fresh id and the time, nothing present. */
    method NewMessage(now: Instant) returns (m: Message)
      requires Valid()
      modifies this
      ensures Valid()
      ensures ctr == NextCounter(old(ctr))
      ensures m == Envelope(FormatID(now.unix, ctr), now.rfc3339)
      ensures Issued == old(Issued) + [m.id]
      ensures |old(Issued)| < Modulus32 ==> m.id !in old(Issued)
      ensures receivers == old(receivers) && receiverCount == old(receiverCount)
    {
      var id := NewID(now.unix);
      m := Envelope(id, now.rfc3339);
    }

    /** `Send`: push `m` into every registered queue. */
    method Send(m: Message)
      requires Valid()
      modifies this
      ensures Valid()
      ensures receivers == Broadcast(old(receivers), m)
      ensures receiverCount == old(receiverCount) && ctr == old(ctr)
      ensures Issued == old(Issued) && IssuedAt == old(IssuedAt)
    {
      BroadcastAppends(receivers, m);
      receivers := FanOut(receivers, m);
      assert |receivers.Keys| == |old(receivers).Keys|;
    }

    /**
     * `Receive`: register a new empty queue under a fresh id, raise the count
     * and then announce the new count to everyone, the newcomer included.
     */
    method Receive(now: Instant) returns (sub: Subscription)
      requires Valid()
      modifies this
      ensures Valid()
      ensures fresh(sub) && sub.owner == this && !sub.closed
      ensures sub.id == FormatID(now.unix, NextCounter(old(ctr)))
      ensures ctr == NextCounter(NextCounter(old(ctr)))
      ensures receiverCount == AddInt32(old(receiverCount), 1)
      ensures receivers == Broadcast(old(receivers)[sub.id := []],
                                     JoinNotice(FormatID(now.unix, ctr), now.rfc3339, receiverCount))
      ensures receivers.Keys == old(receivers).Keys + {sub.id}
      ensures receivers[sub.id] == [JoinNotice(FormatID(now.unix, ctr), now.rfc3339, receiverCount)]
      ensures forall k :: k in old(receivers) && k != sub.id ==>
        receivers[k] == old(receivers)[k] + [JoinNotice(FormatID(now.unix, ctr), now.rfc3339, receiverCount)]
      ensures |old(Issued)| < Modulus32 ==> sub.id !in old(receivers)
      ensures |Issued| < Modulus32 && |receivers| < 0x8000_0000 ==> receiverCount == |receivers|
      ensures |Issued| == |old(Issued)| + 2
    {
      ghost var before := receivers;
      var id := NewID(now.unix);
      assert |old(Issued)| < Modulus32 ==> id !in before;
      sub := new Subscription(id, this);
      Register(id);
      var msg := NewMessage(now);
      msg := msg.(system := SystemMessage(true, JoinPrefix + Numerals.Decimal(receiverCount)));
      assert msg == JoinNotice(FormatID(now.unix, ctr), now.rfc3339, receiverCount);
      Send(msg);
      JoinedQueues(before, id, msg);
      if |Issued| < Modulus32 && |receivers| < 0x8000_0000 {
        CountIsReceivers();
      }
    }

    /**
     * Storing a new empty queue under an issued id and raising the count;
     * before the wrap `id` is not registered yet, so the count stays exact.
     */
    method Register(id: string)
      requires Valid() && id in Issued
      requires |Issued| < Modulus32 ==> id !in receivers
      modifies this
      ensures Valid()
      ensures receivers == old(receivers)[id := []]
      ensures receiverCount == AddInt32(old(receiverCount), 1)
      ensures ctr == old(ctr) && Issued == old(Issued) && IssuedAt == old(IssuedAt)
    {
      AddToInt32(|receivers|, 1);
      receivers := receivers[id := []];
      receiverCount := AddInt32(receiverCount, 1);
    }

    /** Taking the oldest message off a receiver's queue (`<-msgs`). */
    method Take(id: string) returns (m: Message)
      requires Valid() && id in receivers && receivers[id] != []
      modifies this
      ensures Valid()
      ensures m == old(receivers[id][0])
      ensures receivers == old(receivers)[id := old(receivers[id][1..])]
      ensures receiverCount == old(receiverCount) && ctr == old(ctr)
      ensures Issued == old(Issued) && IssuedAt == old(IssuedAt)
    {
      m := receivers[id][0];
      receivers := receivers[id := receivers[id][1..]];
    }
  }

  /**
   * What `Receive` hands back besides the id and the channel: the close
   * function, which may be called once.
   */
  class Subscription {
    const id: string
    const owner: Chatter
    var closed: bool

    constructor (id: string, owner: Chatter)
      ensures this.id == id && this.owner == owner && !closed
    {
      this.id := id;
      this.owner := owner;
      closed := false;
    }

    /**
     * The close function: drop the queue from the registry, close it, lower the
     * count and then announce the new count to the receivers that remain.
     */
    method Close(now: Instant)
      requires owner.Valid() && !closed && id in owner.receivers
      modifies this, owner
      ensures owner.Valid() && closed
      ensures id !in owner.receivers
      ensures owner.ctr == NextCounter(old(owner.ctr))
      ensures |owner.Issued| == |old(owner.Issued)| + 1
      ensures owner.receiverCount == AddInt32(old(owner.receiverCount), -1)
      ensures owner.receivers == Broadcast(old(owner.receivers) - {id},
                                           LeaveNotice(FormatID(now.unix, owner.ctr), now.rfc3339, owner.receiverCount))
      ensures |owner.Issued| < Modulus32 && |owner.receivers| < 0x8000_0000 ==>
        owner.receiverCount == |owner.receivers|
    {
      AddToInt32(|owner.receivers|, -1);
      owner.receivers := owner.receivers - {id};
      closed := true;
      owner.receiverCount := AddInt32(owner.receiverCount, -1);
      var msg := owner.NewMessage(now);
      msg := msg.(system := SystemMessage(true, LeavePrefix + Numerals.Decimal(owner.receiverCount)));
      owner.Send(msg);
    }
  }
}
