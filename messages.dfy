/**
 * The message envelope: an id, an RFC 3339 time and four sub-records, of
 * which the publisher marks the one it fills in as present.
 */
module Messages {
  import opened Ints
  import opened Numerals
  import opened Ids

  datatype TextMessage = TextMessage(present: bool, sender: string, text: string)

  datatype FileMessage = FileMessage(
    present: bool,
    sender: string,
    clientUuid: string,
    filename: string,
    mimetype: string,
    hashSha256: string,
    dataB64: string,
    totalSize: uint64,
    offset: uint64)

  datatype PingMessage = PingMessage(present: bool, random: string)

  datatype SystemMessage = SystemMessage(present: bool, text: string)

  datatype Message = Message(
    id: string,
    time: string,
    text: TextMessage,
    file: FileMessage,
    ping: PingMessage,
    system: SystemMessage)

  /** One reading of the clock: Unix seconds (for ids) and its RFC 3339 form. */
  datatype Instant = Instant(unix: int64, rfc3339: string)

  /** The zero values of the sub-records. */
  const NoText: TextMessage := TextMessage(false, "", "")
  const NoFile: FileMessage := FileMessage(false, "", "", "", "", "", "", 0, 0)
  const NoPing: PingMessage := PingMessage(false, "")
  const NoSystem: SystemMessage := SystemMessage(false, "")

  /** The number of sub-records marked present. */
  function PresentCount(m: Message): (n: nat)
    ensures n <= 4
  {
    (if m.text.present then 1 else 0) + (if m.file.present then 1 else 0)
    + (if m.ping.present then 1 else 0) + (if m.system.present then 1 else 0)
  }

  /** What NewMessage builds: a stamped envelope with every sub-record zero. */
  function Envelope(id: string, time: string): (m: Message)
    ensures m.id == id && m.time == time && PresentCount(m) == 0
  {
    Message(id, time, NoText, NoFile, NoPing, NoSystem)
  }

  const JoinPrefix: string := "total chatters +1 = "
  const LeavePrefix: string := "total chatters -1 = "

  /** A system notice carrying `text`, the only present sub-record. */
  function Notice(id: string, time: string, text: string): (m: Message)
    ensures m.id == id && m.time == time
    ensures m.system.present && m.system.text == text && PresentCount(m) == 1
  {
    Envelope(id, time).(system := SystemMessage(true, text))
  }

  /** The notice published when a receiver registers and the count becomes `count`. */
  function JoinNotice(id: string, time: string, count: int32): (m: Message)
    ensures m.id == id && m.time == time && m.system.present && PresentCount(m) == 1
    ensures |m.system.text| > |JoinPrefix| && m.system.text[..|JoinPrefix|] == JoinPrefix
  {
    Notice(id, time, JoinPrefix + Decimal(count))
  }

  /** The notice published when a receiver leaves and the count becomes `count`. */
  function LeaveNotice(id: string, time: string, count: int32): (m: Message)
    ensures m.id == id && m.time == time && m.system.present && PresentCount(m) == 1
    ensures |m.system.text| > |LeavePrefix| && m.system.text[..|LeavePrefix|] == LeavePrefix
  {
    Notice(id, time, LeavePrefix + Decimal(count))
  }

  /** The count a notice reports can be read back from its text. */
  lemma NoticeCountReadable(id: string, time: string, count: int32)
    ensures var t := JoinNotice(id, time, count).system.text;
      |t| > |JoinPrefix| && t[..|JoinPrefix|] == JoinPrefix
      && SignedValue(t[|JoinPrefix|..], 10) == count
    ensures var t := LeaveNotice(id, time, count).system.text;
      |t| > |LeavePrefix| && t[..|LeavePrefix|] == LeavePrefix
      && SignedValue(t[|LeavePrefix|..], 10) == count
  {
    var j, l := JoinPrefix + Decimal(count), LeavePrefix + Decimal(count);
    assert j[|JoinPrefix|..] == Decimal(count);
    assert l[|LeavePrefix|..] == Decimal(count);
    SignedRoundTrip(count, 10);
  }

  /** Join and leave notices are never confused, whatever the counts. */
  lemma JoinIsNotLeave(id: string, time: string, m: int32, n: int32)
    ensures JoinNotice(id, time, m) != LeaveNotice(id, time, n)
  {
    var j, l := JoinNotice(id, time, m).system.text, LeaveNotice(id, time, n).system.text;
    assert j[15] == '+' && l[15] == '-';
  }

  /** The greeting: a ping envelope with the fixed id SERVER-HELLO. */
  function Hello(time: string): (m: Message)
    ensures m.id == HelloID && m.ping.present && PresentCount(m) == 1
  {
    Envelope(HelloID, time).(ping := PingMessage(true, ""))
  }
}
