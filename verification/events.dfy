/** events.go: the frame in which the client reports events to the program
    driving it, `STX name [US payload] ETX`. */
module Events {
  import opened Wrappers
  import opened Strings

  const EventTransmitStart: char := 2 as char       // ASCII Start of Text
  const EventTransmitEnd: char := 3 as char         // ASCII End of Text
  const EventTransmitSeparator: char := 31 as char  // ASCII Unit Separator

  const EventNameHostKeyNew: string := "hostKeyNew"
  const EventNameHostKeyChanged: string := "hostKeyChanged"
  const EventNameSSHStart: string := "sshStart"

  datatype EventError = MarshalFailed

  /** `buildEvent`. The payload may be nil; `marshal` is `json.Marshal`,
      with `None` for its error. */
  function BuildEvent<P>(name: string, payload: Option<P>, marshal: P -> Option<string>): (r: Result<string, EventError>)
    ensures r.Failure? <==> payload.Some? && marshal(payload.value).None?
    ensures r.Success? ==> |r.value| >= |name| + 2
    ensures r.Success? ==> r.value[0] == EventTransmitStart && r.value[|r.value| - 1] == EventTransmitEnd
    ensures r.Success? ==> r.value[1..|name| + 1] == name
    ensures r.Success? && payload.None? ==> |r.value| == |name| + 2
    ensures r.Success? && payload.Some? ==>
      r.value[|name| + 1] == EventTransmitSeparator && r.value[|name| + 2..|r.value| - 1] == marshal(payload.value).value
  {
    var data := [EventTransmitStart] + name;
    match payload
    case None => Success(data + [EventTransmitEnd])
    case Some(p) =>
      match marshal(p)
      case None => Failure(MarshalFailed)
      case Some(bytes) => Success(data + [EventTransmitSeparator] + bytes + [EventTransmitEnd])
  }

  /** How the receiving side reads a frame: strip STX and ETX, then split the
      inside at its first unit separator into the name and the payload. */
  function ParseFrame(frame: string): Option<(string, Option<string>)>
  {
    if |frame| < 2 || frame[0] != EventTransmitStart || frame[|frame| - 1] != EventTransmitEnd then None
    else
      var inner := frame[1..|frame| - 1];
      var i := IndexOfCharFrom(inner, EventTransmitSeparator, 0);
      if i == |inner| then Some((inner, None)) else Some((inner[..i], Some(inner[i + 1..])))
  }

  /** Every frame `BuildEvent` produces reads back as the name and payload bytes
      it was built from, as long as the name holds no unit separator. */
  lemma BuildThenParse<P>(name: string, payload: Option<P>, marshal: P -> Option<string>)
    requires EventTransmitSeparator !in name
    requires payload.Some? ==> marshal(payload.value).Some?
    ensures BuildEvent(name, payload, marshal).Success?
    ensures ParseFrame(BuildEvent(name, payload, marshal).value)
         == Some((name, if payload.Some? then Some(marshal(payload.value).value) else None))
  {
    var frame := BuildEvent(name, payload, marshal).value;
    var inner := frame[1..|frame| - 1];
    if payload.Some? {
      var bytes := marshal(payload.value).value;
      assert inner == name + [EventTransmitSeparator] + bytes;
      assert forall k :: 0 <= k < |name| ==> inner[k] == name[k];
      assert inner[|name|] == EventTransmitSeparator;
      assert IndexOfCharFrom(inner, EventTransmitSeparator, 0) == |name|;
      assert inner[..|name|] == name;
    } else {
      assert inner == name;
    }
  }
}
