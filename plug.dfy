/** The `HS1xx` driver object: the commands it sends, what it makes of the
    device's replies, and the status fields it updates in place. The socket
    is not modelled: every call that talks to the device takes what the
    socket delivered (`None` when it raised `socket.error`) and a `parse`
    function standing for `json.loads` followed by the key lookups, which
    yields `None` for the JSON text `null`. */
module Plug {
  import opened Wrappers
  import opened SmartHomeProtocol

  /** A telemetry measurement. The driver only copies these floats from the
      reply to its fields, so any value type will do. */
  type Reading = real

  /** `data['system']['get_sysinfo']`: its error code and the relay state. */
  datatype SysInfo = SysInfo(errCode: int, relayState: bool)

  /** `data['emeter']['get_realtime']`: its error code and the measurements. */
  datatype Realtime = Realtime(errCode: int, current: Reading, voltage: Reading,
                               power: Reading, total: Reading)

  /** The parsed reply to the status query. The `realtime` part is only read
      when the emeter is enabled. */
  datatype StatusReply = StatusReply(sysinfo: SysInfo, realtime: Realtime)

  /** The parsed reply to `set_relay_state`: its error code. */
  datatype RelayReply = RelayReply(errCode: int)

  datatype Telemetry = Telemetry(current: Reading, voltage: Reading, power: Reading, energy: Reading)

  /** The driver's status fields as one value. */
  datatype Status = Status(enable: bool, error: bool, telemetry: Telemetry)

  const SysinfoClause: string := "\"system\":{\"get_sysinfo\":null}"
  const EmeterClause: string := "\"emeter\":{\"get_realtime\":{}}"

  /** Python's `sep.join(parts)`. */
  function Join(parts: seq<string>, sep: string): string
    decreases |parts|
  {
    if |parts| == 0 then ""
    else if |parts| == 1 then parts[0]
    else parts[0] + sep + Join(parts[1..], sep)
  }

  /** The clauses of the status query: sysinfo always, realtime telemetry
      only for a plug with an emeter. */
  function UpdateClauses(emeter: bool): seq<string>
  {
    [SysinfoClause] + (if emeter then [EmeterClause] else [])
  }

  /** The status query `__init__` prepares: `'{%s}' % ','.join(commands)`. */
  function UpdateCommand(emeter: bool): (r: string)
    ensures |r| == 2 + |SysinfoClause| + (if emeter then 1 + |EmeterClause| else 0)
    ensures r[0] == '{' && r[|r| - 1] == '}'
    ensures r[1..1 + |SysinfoClause|] == SysinfoClause
  {
    assert Join([EmeterClause], ",") == EmeterClause;
    "{" + Join(UpdateClauses(emeter), ",") + "}"
  }

  predicate IsPrefix(t: string, u: string)
  {
    |t| <= |u| && u[..|t|] == t
  }

  /** `t in s` for Python strings: `t` occurs somewhere in `s`. */
  predicate Contains(s: string, t: string)
  {
    exists i :: 0 <= i <= |s| && IsPrefix(t, s[i..])
  }

  /** The status query as it goes on the wire, for either kind of plug. */
  lemma UpdateCommandText(emeter: bool)
    ensures UpdateCommand(emeter) ==
            if emeter then "{" + SysinfoClause + "," + EmeterClause + "}"
            else "{" + SysinfoClause + "}"
  {
    if emeter {
      assert UpdateClauses(true) == [SysinfoClause, EmeterClause];
      assert Join([EmeterClause], ",") == EmeterClause;
    } else {
      assert UpdateClauses(false) == [SysinfoClause];
    }
  }

  /** Without the emeter the query has no telemetry clause: no place in it
      lines up with `"emeter"`. */
  lemma NoEmeterClause()
    ensures !Contains("{" + SysinfoClause + "}", EmeterClause)
  {
    var s := "{" + SysinfoClause + "}";
    forall i | 0 <= i <= |s|
      ensures !IsPrefix(EmeterClause, s[i..])
    {
      if i <= |s| - |EmeterClause| {
        assert s[i + 1] == SysinfoClause[i];
        assert s[i..][1] != EmeterClause[1];
      }
    }
  }

  /** The status query always asks for sysinfo, and asks for realtime
      telemetry exactly when the emeter is enabled. */
  lemma UpdateCommandClauses(emeter: bool)
    ensures Contains(UpdateCommand(emeter), SysinfoClause)
    ensures Contains(UpdateCommand(emeter), EmeterClause) <==> emeter
  {
    UpdateCommandText(emeter);
    var s := UpdateCommand(emeter);
    var tail := s[1..];
    assert tail[..|SysinfoClause|] == SysinfoClause;
    assert IsPrefix(SysinfoClause, s[1..]);
    if emeter {
      var j := 2 + |SysinfoClause|;
      assert s[j..] == EmeterClause + "}";
      assert IsPrefix(EmeterClause, s[j..]);
    } else {
      NoEmeterClause();
    }
  }

  /** `'%i' % int(state)`: `int(True)` is 1 and `int(False)` is 0. */
  function StateDigit(state: bool): string
  {
    if state then "1" else "0"
  }

  /** The command `setRelayState` sends. */
  function RelayCommand(state: bool): (r: string)
    ensures |r| == 42
  {
    "{\"system\":{\"set_relay_state\":{\"state\":" + StateDigit(state) + "}}}"
  }

  /** The relay command carries the state as the digit 1 or 0 at a fixed
      place, and differs between the two states only there. */
  lemma RelayCommandDigit(state: bool)
    ensures |RelayCommand(state)| == 42
    ensures RelayCommand(state)[38] == if state then '1' else '0'
    ensures RelayCommand(state)[..38] == RelayCommand(!state)[..38]
    ensures RelayCommand(state)[39..] == RelayCommand(!state)[39..]
    ensures RelayCommand(state) != RelayCommand(!state)
  {
  }

  /** Decoding four header bytes, whatever they are, followed by the
      encryption of a payload gives back that payload. */
  lemma UnframeFrame(raw: seq<byte>)
    ensures forall h, p :: |h| == |Header| && raw == h + EncryptStream(InitialKey, p) ==> Unframe(raw) == p
  {
    forall h, p | |h| == |Header| && raw == h + EncryptStream(InitialKey, p)
      ensures Unframe(raw) == p
    {
      assert StripHeader(raw) == EncryptStream(InitialKey, p);
      DecryptEncrypt(InitialKey, p);
    }
  }

  /** What `socketCmd` returns for what the socket delivered: `None` when it
      raised, otherwise `parse` of the decoded bytes after the header, which
      is itself `None` for a `null` reply. A reply made of four header bytes,
      whatever they are, and the encryption of a payload is parsed from
      exactly that payload. */
  function Received<T>(data: Option<seq<byte>>, parse: seq<byte> -> Option<T>): (r: Option<T>)
    ensures data.None? ==> r.None?
    ensures forall h, p :: |h| == |Header| && data == Some(h + EncryptStream(InitialKey, p)) ==> r == parse(p)
  {
    match data
    case None => None
    case Some(raw) => UnframeFrame(raw); parse(Unframe(raw))
  }

  /** `updateStatus` on a status value. `failed` says whether the socket
      raised (which sets the error flag) and `reply` is what `socketCmd`
      returned. Each sub-reply's error code gates only its own fields and
      raises the error flag; no reply at all, whether from a socket failure
      or a `null`, changes nothing else. */
  function ApplyStatus(s: Status, emeter: bool, failed: bool, reply: Option<StatusReply>): (r: Status)
    ensures r.error <==>
            s.error || failed ||
            (reply.Some? && (reply.value.sysinfo.errCode != 0 ||
                             (emeter && reply.value.realtime.errCode != 0)))
    ensures reply.None? ==> r == s.(error := s.error || failed)
    ensures r.enable ==
            if reply.Some? && reply.value.sysinfo.errCode == 0
            then reply.value.sysinfo.relayState else s.enable
    ensures !emeter ==> r.telemetry == s.telemetry
    ensures emeter && reply.Some? && reply.value.realtime.errCode != 0 ==> r.telemetry == s.telemetry
    ensures emeter && reply.Some? && reply.value.realtime.errCode == 0 ==>
            var rt := reply.value.realtime;
            r.telemetry == Telemetry(rt.current, rt.voltage, rt.power, rt.total)
  {
    var s0 := if failed then s.(error := true) else s;
    match reply
    case None => s0
    case Some(data) =>
      var sysinfo := data.sysinfo;
      var s1 := if sysinfo.errCode == 0 then s0.(enable := sysinfo.relayState) else s0.(error := true);
      if !emeter then s1
      else
        var rt := data.realtime;
        if rt.errCode == 0 then s1.(telemetry := Telemetry(rt.current, rt.voltage, rt.power, rt.total))
        else s1.(error := true)
  }

  /** `update`: clear the error flag, then `updateStatus`. Afterwards the flag
      says exactly whether this poll failed, whatever it was before. With
      no error, the status is the reported one, or the old one when the
      reply was `null`. */
  function Updated(s: Status, emeter: bool, failed: bool, reply: Option<StatusReply>): (r: Status)
    ensures r.error <==>
            failed ||
            (reply.Some? && (reply.value.sysinfo.errCode != 0 ||
                             (emeter && reply.value.realtime.errCode != 0)))
    ensures !r.error ==>
              r.enable == if reply.Some? then reply.value.sysinfo.relayState else s.enable
    ensures !r.error && emeter ==>
              r.telemetry == if reply.None? then s.telemetry
                             else var rt := reply.value.realtime;
                                  Telemetry(rt.current, rt.voltage, rt.power, rt.total)
  {
    ApplyStatus(s.(error := false), emeter, failed, reply)
  }

  /** A poll answered with `null` reports no error and leaves the relay
      state and telemetry as they were. */
  lemma NullStatusIsStale(s: Status, emeter: bool)
    ensures Updated(s, emeter, false, None) == s.(error := false)
  {
  }

  /** A relay command was acknowledged: a reply came back with error code 0. */
  predicate Acknowledged(reply: Option<RelayReply>)
  {
    reply.Some? && reply.value.errCode == 0
  }

  /** A relay command raised the error flag: the socket failed, or a reply
      came back with a non-zero error code. */
  predicate Refused(failed: bool, reply: Option<RelayReply>)
  {
    failed || (reply.Some? && reply.value.errCode != 0)
  }

  /** A `null` reply to a relay command is neither acknowledged nor
      refused: `enabled` is not written and the error flag stays down. An
      acknowledged command is never refused. */
  lemma NullRelayReply()
    ensures !Acknowledged(None) && !Refused(false, None)
    ensures forall reply: Option<RelayReply> :: Acknowledged(reply) ==> !Refused(false, reply)
  {
  }

  class HS1xx {
    const emeter: bool
    /** The status query built once by the constructor. */
    const updateCommand: string
    var enable: bool
    var error: bool
    var voltage: Reading
    var current: Reading
    var power: Reading
    var energy: Reading
    /** The field `setRelayState` assigns (`self.enabled`, a different field
        from `enable`); `None` until the first acknowledged command creates it. */
    var enabled: Option<bool>
    /** Every framed, encrypted request `socketCmd` has handed to the socket,
        oldest first. */
    var sent: seq<seq<byte>>

    function State(): Status
      reads this
    {
      Status(enable, error, Telemetry(current, voltage, power, energy))
    }

    /** `__init__`: everything off and zero, and the status query prepared
        from the `emeter` flag. */
    constructor (emeter: bool)
      ensures this.emeter == emeter
      ensures updateCommand == UpdateCommand(emeter)
      ensures State() == Status(false, false, Telemetry(0.0, 0.0, 0.0, 0.0))
      ensures enabled == None && sent == []
    {
      this.emeter := emeter;
      var commands := [SysinfoClause];
      if emeter {
        commands := commands + [EmeterClause];
      }
      updateCommand := "{" + Join(commands, ",") + "}";
      enable := false;
      error := false;
      voltage, current, power, energy := 0.0, 0.0, 0.0, 0.0;
      enabled := None;
      sent := [];
    }

    method HandleError()
      modifies this
      ensures State() == old(State()).(error := true)
      ensures enabled == old(enabled) && sent == old(sent)
    {
      error := true;
    }

    /** `socketCmd`: encrypt and frame the command, hand it to the socket,
        and return the parsed reply; a socket failure raises the error flag
        and returns `None`. */
    method SocketCmd<T>(cmd: string, received: Option<seq<byte>>, parse: seq<byte> -> Option<T>)
      returns (data: Option<T>)
      modifies this
      ensures data == Received(received, parse)
      ensures received.Some? ==> data == parse(Unframe(received.value))
      ensures sent == old(sent) + [Frame(Bytes(cmd))]
      ensures State() == if received.None? then old(State()).(error := true) else old(State())
      ensures enabled == old(enabled)
    {
      var request := Encrypt(Bytes(cmd));
      sent := sent + [request];
      match received {
        case None =>
          HandleError();
          data := None;
        case Some(raw) =>
          var plain := ReceivePayload(raw);
          data := parse(plain);
      }
    }

    /** `updateStatus`: one status query, applied field by field. */
    method UpdateStatus(received: Option<seq<byte>>, parse: seq<byte> -> Option<StatusReply>)
      modifies this
      ensures State() == ApplyStatus(old(State()), emeter, received.None?, Received(received, parse))
      ensures sent == old(sent) + [Frame(Bytes(updateCommand))]
      ensures enabled == old(enabled)
    {
      var data := SocketCmd(updateCommand, received, parse);
      if data.None? {
        return;
      }
      var sysinfo := data.value.sysinfo;
      if sysinfo.errCode == 0 {
        enable := sysinfo.relayState;
      } else {
        HandleError();
      }
      if !emeter {
        return;
      }
      var realtime := data.value.realtime;
      if realtime.errCode == 0 {
        current := realtime.current;
        voltage := realtime.voltage;
        power := realtime.power;
        energy := realtime.total;
      } else {
        HandleError();
      }
    }

    /** `update`: clear the error flag, then query the status. */
    method Update(received: Option<seq<byte>>, parse: seq<byte> -> Option<StatusReply>)
      modifies this
      ensures State() == Updated(old(State()), emeter, received.None?, Received(received, parse))
      ensures sent == old(sent) + [Frame(Bytes(updateCommand))]
      ensures enabled == old(enabled)
    {
      error := false;
      UpdateStatus(received, parse);
    }

    /** `setRelayState`: send the command for `state`; a failed or refused
        command raises the error flag. An acknowledged one is recorded in
        `enabled`, never in `enable`; a `null` reply does neither. */
    method SetRelayState(state: bool, received: Option<seq<byte>>, parse: seq<byte> -> Option<RelayReply>)
      modifies this
      ensures sent == old(sent) + [Frame(Bytes(RelayCommand(state)))]
      ensures State() == old(State()).(error := old(error) || Refused(received.None?, Received(received, parse)))
      ensures enabled == if Acknowledged(Received(received, parse)) then Some(state) else old(enabled)
    {
      var cmd := RelayCommand(state);
      var data := SocketCmd(cmd, received, parse);
      if data.None? {
        return;
      }
      var result := data.value;
      if result.errCode == 0 {
        enabled := Some(state);
      } else {
        HandleError();
      }
    }
  }
}
