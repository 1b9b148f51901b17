/**
 * The keepalive goroutine: after a first wait, publish a ping whose payload
 * is up to 100 random bytes, and wait again for a delay derived from the
 * payload's length.
 */
module Keepalive {
  import opened Wrappers
  import opened Ints
  import opened Ids
  import opened Messages
  import opened Registry

  /** The length used when the random source cannot supply one. */
  const FallbackLength: uint8 := 69
  const MaxLength: uint8 := 100
  const MinDelay: nat := 2
  const MaxDelay: nat := 30

  /**
   * The payload length: the random byte, or FallbackLength when the random
   * source failed (`random` is None), capped at MaxLength.
   */
  function PingLength(random: Option<uint8>): (len: uint8)
    ensures var r := if random.Some? then random.value else FallbackLength;
      len <= MaxLength && len <= r && (len == r || len == MaxLength)
  {
    var r := if random.Some? then random.value else FallbackLength;
    if r > MaxLength then MaxLength else r
  }

  /** Seconds until the next ping, for a payload of `len` bytes. */
  function NextDelay(len: uint8): (seconds: nat)
    ensures MinDelay <= seconds < MaxDelay
    ensures len < MaxDelay - MinDelay ==> seconds == MinDelay + len
  {
    MinDelay + len % (MaxDelay - MinDelay)
  }

  /**
   * The payload: the bytes the random source delivered, or, when it failed,
   * the bytes 0, 1, 2, ... up to the length.
   */
  function PingPayload(len: uint8, random: Option<seq<uint8>>): (bytes: seq<uint8>)
    requires random.Some? ==> |random.value| == len
    ensures |bytes| == len
    ensures random.Some? ==> bytes == random.value
    ensures random.None? ==> forall i :: 0 <= i < |bytes| ==> bytes[i] == i
  {
    if random.Some? then random.value else seq(len, (i: int) requires 0 <= i < len => i as uint8)
  }

  /** The fallback loop: every byte of the buffer set to its own index, as `byte(i)`. */
  method FillWithIndex(a: array<uint8>)
    modifies a
    ensures forall i :: 0 <= i < a.Length ==> a[i] == i % 0x100
  {
    var i := 0;
    while i < a.Length
      invariant 0 <= i <= a.Length
      invariant forall j :: 0 <= j < i ==> a[j] == j % 0x100
    {
      a[i] := i % 0x100;
      i := i + 1;
    }
  }

  /** What the ping loop gets from the outside world on one timer tick. */
  datatype Tick = Tick(now: Instant, lengthByte: Option<uint8>, bytes: Option<seq<uint8>>)

  /** The random source delivers exactly the bytes asked for, or fails. */
  predicate WellFormed(t: Tick) {
    t.bytes.Some? ==> |t.bytes.value| == PingLength(t.lengthByte)
  }

  /** The payload a well-formed tick ends up with. */
  function Payload(t: Tick): (bytes: seq<uint8>)
    requires WellFormed(t)
    ensures |bytes| == PingLength(t.lengthByte) <= MaxLength
  {
    PingPayload(PingLength(t.lengthByte), t.bytes)
  }

  /** The payload bytes of one tick: the random ones, or the fallback loop's. */
  method FillPayload(t: Tick) returns (bytes: seq<uint8>)
    requires WellFormed(t)
    ensures bytes == Payload(t)
  {
    if t.bytes.Some? {
      bytes := t.bytes.value;
    } else {
      var a := new uint8[PingLength(t.lengthByte)];
      FillWithIndex(a);
      bytes := a[..];
      assert forall i :: 0 <= i < |bytes| ==> bytes[i] == i;
    }
  }

  /** A ping envelope whose payload, already encoded, is `random`. */
  function Ping(id: string, time: string, random: string): (m: Message)
    ensures m.id == id && m.time == time && m.ping == PingMessage(true, random)
    ensures PresentCount(m) == 1
  {
    Envelope(id, time).(ping := PingMessage(true, random))
  }

  /**
   * One tick: stamp a ping, fill its payload, fan it out and return the
   * delay before the next tick. `encode` stands for base64.
   */
  method KeepaliveTick(c: Chatter, tick: Tick, encode: seq<uint8> -> string) returns (delay: nat)
    requires c.Valid() && WellFormed(tick)
    modifies c
    ensures c.Valid()
    ensures MinDelay <= delay < MaxDelay
    ensures delay == NextDelay(PingLength(tick.lengthByte))
    ensures c.ctr == NextCounter(old(c.ctr)) && c.receiverCount == old(c.receiverCount)
    ensures |c.Issued| == |old(c.Issued)| + 1
    ensures c.receivers == Broadcast(old(c.receivers),
      Ping(FormatID(tick.now.unix, c.ctr), tick.now.rfc3339,
           encode(Payload(tick))))
  {
    var msg := c.NewMessage(tick.now);
    var length := PingLength(tick.lengthByte);
    var bytes := FillPayload(tick);
    msg := msg.(ping := PingMessage(true, encode(bytes)));
    c.Send(msg);
    delay := NextDelay(length);
  }

  /** `m` is the ping published on tick `t`, stamped with counter value `ctr`. */
  predicate PingFor(t: Tick, m: Message, ctr: uint32, encode: seq<uint8> -> string) {
    WellFormed(t) && m == Ping(FormatID(t.now.unix, ctr), t.now.rfc3339, encode(Payload(t)))
  }

  /** Tick `t` published `m` with counter value `ctr` and chose the wait `delay`. */
  predicate TickDone(t: Tick, delay: nat, m: Message, ctr: uint32, encode: seq<uint8> -> string) {
    delay == NextDelay(PingLength(t.lengthByte)) && PingFor(t, m, ctr, encode)
  }

  /** One more completed tick, the i-th after counter value `start`, extends the record. */
  lemma DoneExtend(ticks: seq<Tick>, delays: seq<nat>, sent: seq<Message>, i: nat, start: uint32,
                   delay: nat, m: Message, encode: seq<uint8> -> string)
    requires i < |ticks| && |delays| == i && |sent| == i
    requires forall j :: 0 <= j < i ==>
      TickDone(ticks[j], delays[j], sent[j], CounterAfter(start, j + 1), encode)
    requires TickDone(ticks[i], delay, m, CounterAfter(start, i + 1), encode)
    ensures forall j :: 0 <= j < i + 1 ==>
      TickDone(ticks[j], (delays + [delay])[j], (sent + [m])[j], CounterAfter(start, j + 1), encode)
  {
  }

  /**
   * The ping loop over a finite run of ticks: one ping per tick, each fanned
   * out in turn; `sent` is what was published, `delays` the waits chosen.
   */
  method Keepalive(c: Chatter, ticks: seq<Tick>, encode: seq<uint8> -> string)
    returns (delays: seq<nat>, ghost sent: seq<Message>)
    requires c.Valid()
    requires forall i :: 0 <= i < |ticks| ==> WellFormed(ticks[i])
    modifies c
    ensures c.Valid()
    ensures |delays| == |ticks| && |sent| == |ticks|
    ensures forall i :: 0 <= i < |ticks| ==>
      TickDone(ticks[i], delays[i], sent[i], CounterAfter(old(c.ctr), i + 1), encode)
    ensures forall i :: 0 <= i < |ticks| ==> MinDelay <= delays[i] < MaxDelay
    ensures c.receivers == Published(old(c.receivers), sent)
    ensures c.ctr == CounterAfter(old(c.ctr), |ticks|)
    ensures |c.Issued| == |old(c.Issued)| + |ticks|
    ensures c.receiverCount == old(c.receiverCount)
  {
    delays, sent := [], [];
    var i := 0;
    while i < |ticks|
      invariant 0 <= i <= |ticks| && |delays| == i && |sent| == i
      invariant c.Valid()
      invariant forall j :: 0 <= j < i ==>
        TickDone(ticks[j], delays[j], sent[j], CounterAfter(old(c.ctr), j + 1), encode)
      invariant c.receivers == Published(old(c.receivers), sent)
      invariant c.ctr == CounterAfter(old(c.ctr), i)
      invariant |c.Issued| == |old(c.Issued)| + i
      invariant c.receiverCount == old(c.receiverCount)
    {
      var delay := KeepaliveTick(c, ticks[i], encode);
      ghost var m := Ping(FormatID(ticks[i].now.unix, c.ctr), ticks[i].now.rfc3339, encode(Payload(ticks[i])));
      DoneExtend(ticks, delays, sent, i, old(c.ctr), delay, m, encode);
      PublishedStep(old(c.receivers), sent, m);
      delays, sent := delays + [delay], sent + [m];
      i := i + 1;
    }
  }
}
