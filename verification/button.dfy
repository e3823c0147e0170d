/** The serial push-button bridge (`ButtonProtocol` in button.py): each
    received line is decoded, a fixed message is broadcast, and `FLASH` is
    written back. Opening the serial port is outside the model. */
module Button {
  import opened Utf8

  /** The line delimiter the protocol declares. */
  const Delimiter: string := "\n"

  /** The fixed message broadcast for every press. */
  const PushMessage: string := "KNUK TATS: push butn"

  const FlashLine: string := "FLASH"

  /** What the bridge does, in order: ask the hub to broadcast, or write to the device. */
  datatype Action = HubBroadcast(msg: string) | WriteSerial(data: string)

  /** `sendLine(line)`: the line followed by the delimiter. */
  function SendLine(line: string): (a: Action)
    ensures a.WriteSerial? && |a.data| == |line| + 1 && a.data[..|line|] == line && a.data[|line|..] == Delimiter
  {
    WriteSerial(line + Delimiter)
  }

  /** `flash()`. */
  function Flash(): (a: Action)
    ensures a == WriteSerial("FLASH\n")
  {
    SendLine(FlashLine)
  }

  /** The result of `lineReceived`: the actions taken, or the decode error
      `line.decode()` raises before anything else happens. */
  datatype LineOutcome = Handled(actions: seq<Action>) | DecodeError

  /** `lineReceived(line)`. */
  function LineReceived(line: seq<byte>): (o: LineOutcome)
    ensures o.Handled? <==> Decodes(line)
    ensures o.Handled? ==> o.actions == [HubBroadcast("KNUK TATS: push butn"), WriteSerial("FLASH\n")]
  {
    if !Decodes(line) then DecodeError
    else Handled([HubBroadcast(PushMessage), Flash()])
  }

  /** Broadcast, FLASH, broadcast, FLASH, ...: whole pairs only. */
  predicate Alternating(acts: seq<Action>) {
    && |acts| % 2 == 0
    && forall i :: 0 <= i < |acts| / 2 ==>
         acts[2 * i] == HubBroadcast(PushMessage) && acts[2 * i + 1] == WriteSerial("FLASH\n")
  }

  /** One more press in front keeps the actions in whole pairs. */
  lemma AlternatingCons(rest: seq<Action>)
    requires Alternating(rest)
    ensures Alternating([HubBroadcast(PushMessage), WriteSerial("FLASH\n")] + rest)
  {
    var all := [HubBroadcast(PushMessage), WriteSerial("FLASH\n")] + rest;
    forall i | 0 <= i < |all| / 2
      ensures all[2 * i] == HubBroadcast(PushMessage) && all[2 * i + 1] == WriteSerial("FLASH\n")
    {
      if i > 0 {
        assert all[2 * i] == rest[2 * (i - 1)];
        assert all[2 * i + 1] == rest[2 * (i - 1) + 1];
      }
    }
  }

  /** The actions for a run of received lines. The exception raised by an
      undecodable line escapes the protocol, so no later line is handled. */
  function Session(lines: seq<seq<byte>>): (acts: seq<Action>)
    ensures Alternating(acts)
    ensures |acts| <= 2 * |lines|
    decreases |lines|
  {
    if |lines| == 0 then []
    else
      match LineReceived(lines[0])
      case DecodeError => []
      case Handled(first) =>
        var rest := Session(lines[1..]);
        AlternatingCons(rest);
        first + rest
  }

  /** `n` decodable lines give exactly `n` pairs: the broadcast, then FLASH. */
  lemma {:induction false} SessionAlternates(lines: seq<seq<byte>>)
    requires forall i :: 0 <= i < |lines| ==> Decodes(lines[i])
    ensures |Session(lines)| == 2 * |lines|
    ensures forall i :: 0 <= i < |lines| ==>
              Session(lines)[2 * i] == HubBroadcast(PushMessage) &&
              Session(lines)[2 * i + 1] == WriteSerial("FLASH\n")
    decreases |lines|
  {
    if |lines| > 0 {
      SessionAlternates(lines[1..]);
      var s := Session(lines);
      var rest := Session(lines[1..]);
      assert s == [HubBroadcast(PushMessage), WriteSerial("FLASH\n")] + rest;
      forall i | 0 <= i < |lines|
        ensures s[2 * i] == HubBroadcast(PushMessage) && s[2 * i + 1] == WriteSerial("FLASH\n")
      {
        if i > 0 {
          assert s[2 * i] == rest[2 * (i - 1)];
          assert s[2 * i + 1] == rest[2 * (i - 1) + 1];
        }
      }
    }
  }

  /** Lines after the first undecodable one have no effect. */
  lemma {:induction false} SessionStopsAtDecodeError(lines: seq<seq<byte>>, k: nat)
    requires k < |lines| && !Decodes(lines[k])
    ensures Session(lines) == Session(lines[..k])
    decreases k
  {
    if k > 0 {
      SessionStopsAtDecodeError(lines[1..], k - 1);
      assert lines[1..][..k - 1] == lines[..k][1..];
    }
  }

  /** A press reported as the ASCII line "push" is broadcast, then flashed. */
  lemma PushLineHandled()
    ensures LineReceived([0x70, 0x75, 0x73, 0x68]) ==
              Handled([HubBroadcast(PushMessage), WriteSerial("FLASH\n")])
  {
    AsciiDecodes([0x70, 0x75, 0x73, 0x68]);
  }

  /** A line holding the byte 0xFF raises in `decode()`: nothing is broadcast. */
  lemma UndecodableLineIgnored()
    ensures LineReceived([0xFF]) == DecodeError
  {
  }
}
