/**
 * The publish side: the `/send` and `/file` handlers after their JSON body
 * has been decoded. Both mark the record present and settle its sender;
 * `/file` also checks the sizes before anything is stamped or sent.
 */
module Publish {
  import opened Wrappers
  import opened Ints
  import opened Ids
  import opened Messages
  import opened Registry

  /** The largest accepted `data_b64`, in characters (2 MiB). */
  const ChunkSizeLimit: nat := 2 * 1024 * 1024
  const Anonymous: string := "anon"

  /**
   * The sender a message is attributed to: the basic-auth user name when the
   * request has basic-auth credentials (`authUser` is Some), otherwise the
   * sender in the body; an empty result becomes "anon".
   */
  function Sender(claimed: string, authUser: Option<string>): (s: string)
    ensures s != ""
    ensures authUser.Some? && authUser.value != "" ==> s == authUser.value
    ensures authUser.None? && claimed != "" ==> s == claimed
    ensures (if authUser.Some? then authUser.value else claimed) == "" ==> s == Anonymous
  {
    var s := if authUser.Some? then authUser.value else claimed;
    if s == "" then Anonymous else s
  }

  /** The text record `/send` publishes. */
  function AcceptText(body: TextMessage, authUser: Option<string>): (t: TextMessage)
    ensures t.present && t.sender != "" && t.text == body.text
    ensures t.sender == Sender(body.sender, authUser)
  {
    body.(present := true, sender := Sender(body.sender, authUser))
  }

  const BadRequest: string := "Bad Request: "

  /** Why `/file` refuses a chunk, in the order the checks are made. */
  datatype Rejection = NoSize | FileTooLarge | OffsetTooLarge | ChunkTooLarge {
    /** The body of the 400 response. */
    function Reason(): (r: string)
      ensures |r| > |BadRequest| && r[..|BadRequest|] == BadRequest
    {
      match this
      case NoSize => "Bad Request: File must have size"
      case FileTooLarge => "Bad Request: File Too Large"
      case OffsetTooLarge => "Bad Request: Offset Too Large"
      case ChunkTooLarge => "Bad Request: Chunk Too Large"
    }
  }

  /** A client can tell every rejection from the response body alone. */
  lemma ReasonsDistinct(a: Rejection, b: Rejection)
    requires a != b
    ensures a.Reason() != b.Reason()
  {
  }

  /** The `/file` checks: accept the chunk, present and attributed, or say why not. */
  function ValidateFile(body: FileMessage, authUser: Option<string>, sizeLimit: uint64)
    : (r: Result<FileMessage, Rejection>)
    ensures r.Success? <==>
      && body.totalSize != 0
      && (sizeLimit != 0 ==> body.totalSize <= sizeLimit && body.offset <= sizeLimit)
      && |body.dataB64| <= ChunkSizeLimit
    ensures r == Failure(NoSize) <==> body.totalSize == 0
    ensures r == Failure(FileTooLarge) <==>
      body.totalSize != 0 && sizeLimit != 0 && body.totalSize > sizeLimit
    ensures r == Failure(OffsetTooLarge) <==>
      body.totalSize != 0 && sizeLimit != 0 && body.totalSize <= sizeLimit && body.offset > sizeLimit
    ensures r == Failure(ChunkTooLarge) <==>
      && body.totalSize != 0
      && (sizeLimit != 0 ==> body.totalSize <= sizeLimit && body.offset <= sizeLimit)
      && |body.dataB64| > ChunkSizeLimit
    ensures r.Success? ==>
      r.value.present && r.value.sender == Sender(body.sender, authUser)
      && r.value.(present := body.present, sender := body.sender) == body
  {
    var f := body.(present := true, sender := Sender(body.sender, authUser));
    if f.totalSize == 0 then Failure(NoSize)
    else if sizeLimit != 0 && f.totalSize > sizeLimit then Failure(FileTooLarge)
    else if sizeLimit != 0 && f.offset > sizeLimit then Failure(OffsetTooLarge)
    else if |f.dataB64| > ChunkSizeLimit then Failure(ChunkTooLarge)
    else Success(f)
  }

  /** An accepted file chunk keeps its sizes within the configured limit. */
  lemma AcceptedWithinLimit(body: FileMessage, authUser: Option<string>, sizeLimit: uint64)
    requires ValidateFile(body, authUser, sizeLimit).Success?
    ensures var f := ValidateFile(body, authUser, sizeLimit).value;
      0 < f.totalSize && (sizeLimit != 0 ==> f.totalSize <= sizeLimit && f.offset <= sizeLimit)
      && |f.dataB64| <= ChunkSizeLimit && f.sender != ""
  {
  }

  /** `/send`: stamp the text, fan it out, and return the id for the response header. */
  method HandleSend(c: Chatter, body: TextMessage, authUser: Option<string>, now: Instant)
    returns (id: string)
    requires c.Valid()
    modifies c
    ensures c.Valid()
    ensures c.ctr == NextCounter(old(c.ctr)) && id == FormatID(now.unix, c.ctr)
    ensures c.Issued == old(c.Issued) + [id]
    ensures c.receivers == Broadcast(old(c.receivers),
                                     Envelope(id, now.rfc3339).(text := AcceptText(body, authUser)))
    ensures c.receiverCount == old(c.receiverCount)
  {
    var text := AcceptText(body, authUser);
    var msg := c.NewMessage(now);
    msg := msg.(text := text);
    id := msg.id;
    c.Send(msg);
  }

  /**
   * `/file`: a rejected chunk changes nothing (no id is used up); an accepted
   * one is stamped, fanned out, and its id returned.
   */
  method HandleFile(c: Chatter, body: FileMessage, authUser: Option<string>, sizeLimit: uint64, now: Instant)
    returns (r: Result<string, Rejection>)
    requires c.Valid()
    modifies c
    ensures c.Valid()
    ensures r.Failure? <==> ValidateFile(body, authUser, sizeLimit).Failure?
    ensures r.Failure? ==>
      && r.error == ValidateFile(body, authUser, sizeLimit).error
      && c.receivers == old(c.receivers) && c.ctr == old(c.ctr) && c.Issued == old(c.Issued)
    ensures r.Success? ==>
      && c.ctr == NextCounter(old(c.ctr)) && r.value == FormatID(now.unix, c.ctr)
      && c.Issued == old(c.Issued) + [r.value]
      && c.receivers == Broadcast(old(c.receivers), Envelope(r.value, now.rfc3339)
                                    .(file := ValidateFile(body, authUser, sizeLimit).value))
    ensures c.receiverCount == old(c.receiverCount)
  {
    var v := ValidateFile(body, authUser, sizeLimit);
    if v.Failure? {
      return Failure(v.error);
    }
    var msg := c.NewMessage(now);
    msg := msg.(file := v.value);
    c.Send(msg);
    r := Success(msg.id);
  }
}
