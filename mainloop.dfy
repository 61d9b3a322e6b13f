/** One pass of the driver's main loop: poll the plug, then reconcile the
    HAL `enable` pin with the plug's relay state, then publish the error
    flag. The HAL component is modelled by the pin fields of `Controller`;
    the two socket exchanges a pass may make are parameters. */
module MainLoop {
  import opened Wrappers
  import opened SmartHomeProtocol
  import opened Plug

  /** What a pass with a successful poll does about the relay. */
  datatype Action = IssueCommand(value: bool) | Adopt(value: bool) | NoOp

  /** The reconciliation rule. `lastHal` is the pin value the loop last
      acted on, `lastPlug` the plug state it last adopted, `pin` the `enable`
      pin now and `plugEnable` the relay state just polled. A fresh pin value
      that the plug does not already have is sent to the plug; otherwise a
      fresh plug state is copied to the pin; otherwise nothing happens. */
  function Decide(lastHal: bool, lastPlug: bool, pin: bool, plugEnable: bool): (a: Action)
    ensures a.IssueCommand? ==> a.value == pin && pin != lastHal && pin != plugEnable
    ensures a.Adopt? ==> a.value == plugEnable && plugEnable != lastPlug
    ensures a.Adopt? ==> pin == lastHal || pin == plugEnable
    ensures a.NoOp? ==> (pin == lastHal || pin == plugEnable) && plugEnable == lastPlug
  {
    if lastHal != pin && pin != plugEnable then IssueCommand(pin)
    else if lastPlug != plugEnable then Adopt(plugEnable)
    else NoOp
  }

  /** A command wins over adoption when both are called for. */
  lemma CommandPriority(lastHal: bool, lastPlug: bool, pin: bool, plugEnable: bool)
    requires pin != lastHal && pin != plugEnable && plugEnable != lastPlug
    ensures Decide(lastHal, lastPlug, pin, plugEnable) == IssueCommand(pin)
  {
  }

  /** With no fresh pin value, a changed plug state is adopted. */
  lemma PassiveAdoption(lastHal: bool, lastPlug: bool, pin: bool, plugEnable: bool)
    requires pin == lastHal && plugEnable != lastPlug
    ensures Decide(lastHal, lastPlug, pin, plugEnable) == Adopt(plugEnable)
  {
  }

  /** When pin, plug and bookkeeping all agree, nothing happens. */
  lemma Converged(v: bool)
    ensures Decide(v, v, v, v) == NoOp
  {
  }

  /** The loop's bookkeeping together with the `enable` pin. */
  datatype Loop = Loop(lastHal: bool, lastPlug: bool, pin: bool)

  /** The bookkeeping after reconciling with polled relay state `plugEnable`;
      `ok` says whether a command, if one is sent, left the error flag down.
      A command touches only `lastHal`, and only when it went through; an
      adoption sets all three to the plug state; otherwise nothing changes. */
  function Reconcile(l: Loop, plugEnable: bool, ok: bool): (r: Loop)
    ensures Decide(l.lastHal, l.lastPlug, l.pin, plugEnable).IssueCommand? ==>
              r.pin == l.pin && r.lastPlug == l.lastPlug &&
              r.lastHal == if ok then l.pin else l.lastHal
    ensures Decide(l.lastHal, l.lastPlug, l.pin, plugEnable).Adopt? ==>
              r == Loop(plugEnable, plugEnable, plugEnable)
    ensures Decide(l.lastHal, l.lastPlug, l.pin, plugEnable).NoOp? ==> r == l
  {
    match Decide(l.lastHal, l.lastPlug, l.pin, plugEnable)
    case IssueCommand(v) => if ok then l.(lastHal := v) else l
    case Adopt(v) => Loop(v, v, v)
    case NoOp => l
  }

  /** The relay state after a pass, for a plug that switches exactly when a
      command goes through and is not switched by anyone else. */
  function DeviceAfter(l: Loop, plugEnable: bool, ok: bool): bool
  {
    match Decide(l.lastHal, l.lastPlug, l.pin, plugEnable)
    case IssueCommand(v) => if ok then v else plugEnable
    case _ => plugEnable
  }

  /** The invariant that keeps pin and plug from settling apart: the last pin
      value acted on equals the last adopted plug state or the plug state. */
  predicate InSync(l: Loop, plugEnable: bool)
  {
    l.lastHal == l.lastPlug || l.lastHal == plugEnable
  }

  /** The loop starts with both bookkeeping values false. */
  lemma InSyncInitially(pin: bool, plugEnable: bool)
    ensures InSync(Loop(false, false, pin), plugEnable)
  {
  }

  /** A pass keeps the invariant, whatever the pin was set to since the last
      pass, as long as only the loop switches the plug. */
  lemma ReconcileKeepsInSync(l: Loop, pin: bool, plugEnable: bool, ok: bool)
    requires InSync(l, plugEnable)
    ensures InSync(Reconcile(l.(pin := pin), plugEnable, ok),
                   DeviceAfter(l.(pin := pin), plugEnable, ok))
  {
  }

  /** Under the invariant, a pass that does nothing leaves the pin equal to
      the plug's relay state. */
  lemma SettledMeansAgreed(l: Loop, plugEnable: bool)
    requires InSync(l, plugEnable)
    requires Decide(l.lastHal, l.lastPlug, l.pin, plugEnable) == NoOp
    ensures l.pin == plugEnable
  {
  }

  /** Under the invariant, with the pin held still and commands going
      through, two passes bring the loop to rest with pin and plug
      agreeing. */
  lemma ConvergesInTwoPasses(l: Loop, plugEnable: bool)
    requires InSync(l, plugEnable)
    ensures var l1 := Reconcile(l, plugEnable, true);
            var d1 := DeviceAfter(l, plugEnable, true);
            var l2 := Reconcile(l1, d1, true);
            var d2 := DeviceAfter(l1, d1, true);
            Decide(l2.lastHal, l2.lastPlug, l2.pin, d2) == NoOp && l2.pin == d2
  {
  }

  /** Without the invariant the rule can rest with pin and plug apart: after
      a command that went through for `true` the loop holds `lastHal == true`
      and `lastPlug == false`; if the plug is switched back off by someone
      else before the next poll, nothing is ever done about it. */
  lemma StrandedAfterExternalSwitch()
    ensures Reconcile(Loop(false, false, true), false, true) == Loop(true, false, true)
    ensures Decide(true, false, true, false) == NoOp
    ensures !InSync(Loop(true, false, true), false)
  {
  }

  /** A relay command answered with `null` counts as done: the loop records
      the pin value as acted on, although the plug did not acknowledge it
      and `enabled` is not written. */
  lemma NullCommandReplyCountsAsDone(l: Loop, plugEnable: bool)
    requires Decide(l.lastHal, l.lastPlug, l.pin, plugEnable).IssueCommand?
    ensures !Acknowledged(None)
    ensures Reconcile(l, plugEnable, !Refused(false, None)) == l.(lastHal := l.pin)
  {
  }

  /** The relay command a pass sends for the action it took, if any. */
  function CommandRequests(action: Option<Action>): seq<seq<byte>>
  {
    if action.Some? && action.value.IssueCommand? then [Frame(Bytes(RelayCommand(action.value.value)))] else []
  }

  /** The main loop's state: the plug object, the two bookkeeping variables
      and the values of the HAL pins. */
  class Controller {
    const plug: HS1xx
    var lastHalEnable: bool
    var lastPlugEnable: bool
    var enablePin: bool
    var errorPin: bool
    var currentPin: Reading
    var voltagePin: Reading
    var powerPin: Reading
    var energyPin: Reading

    function Bookkeeping(): Loop
      reads this
    {
      Loop(lastHalEnable, lastPlugEnable, enablePin)
    }

    function TelemetryPins(): Telemetry
      reads this
    {
      Telemetry(currentPin, voltagePin, powerPin, energyPin)
    }

    /** The set-up before the loop: a fresh plug object, both bookkeeping
        values false, and the HAL pins at their zero defaults. */
    constructor (emeter: bool)
      ensures fresh(plug) && plug.emeter == emeter && plug.updateCommand == UpdateCommand(emeter)
      ensures plug.State() == Status(false, false, Telemetry(0.0, 0.0, 0.0, 0.0))
      ensures plug.enabled == None && plug.sent == []
      ensures Bookkeeping() == Loop(false, false, false) && !errorPin
      ensures TelemetryPins() == Telemetry(0.0, 0.0, 0.0, 0.0)
    {
      plug := new HS1xx(emeter);
      lastHalEnable, lastPlugEnable := false, false;
      enablePin, errorPin := false, false;
      currentPin, voltagePin, powerPin, energyPin := 0.0, 0.0, 0.0, 0.0;
    }

    /** The telemetry half of a pass with a successful poll: copy the plug's
        readings to the pins, if it has an emeter. */
    method PublishTelemetry()
      modifies this`currentPin, this`voltagePin, this`powerPin, this`energyPin
      ensures TelemetryPins() == if plug.emeter then plug.State().telemetry else old(TelemetryPins())
    {
      if plug.emeter {
        currentPin := plug.current;
        voltagePin := plug.voltage;
        powerPin := plug.power;
        energyPin := plug.energy;
      }
    }

    /** The relay half of a pass with a successful poll: act as `Decide` says on the pin and the polled state. */
    method ReconcileRelay(commandRx: Option<seq<byte>>, parseRelay: seq<byte> -> Option<RelayReply>)
      returns (decision: Action)
      requires !plug.error
      modifies this`lastHalEnable, this`lastPlugEnable, this`enablePin, plug
      ensures decision == Decide(old(lastHalEnable), old(lastPlugEnable), old(enablePin), plug.enable)
      ensures Bookkeeping() == Reconcile(old(Bookkeeping()), plug.enable,
                                         !Refused(commandRx.None?, Received(commandRx, parseRelay)))
      ensures decision.IssueCommand? ==>
                var reply := Received(commandRx, parseRelay);
                plug.sent == old(plug.sent) + [Frame(Bytes(RelayCommand(decision.value)))] &&
                plug.State() == old(plug.State()).(error := Refused(commandRx.None?, reply)) &&
                plug.enabled == (if Acknowledged(reply) then Some(decision.value) else old(plug.enabled))
      ensures !decision.IssueCommand? ==>
                plug.sent == old(plug.sent) && plug.State() == old(plug.State()) &&
                plug.enabled == old(plug.enabled)
    {
      var enable := enablePin;
      decision := Decide(lastHalEnable, lastPlugEnable, enable, plug.enable);
      match decision {
        case IssueCommand(v) =>
          plug.SetRelayState(v, commandRx, parseRelay);
          if !plug.error {
            lastHalEnable := v;
          }
        case Adopt(v) =>
          lastHalEnable := v;
          enablePin := v;
          lastPlugEnable := v;
        case NoOp =>
      }
    }

    /** One pass of the loop body. `statusRx`
        is what the socket delivers for the status query, `commandRx` what
        it delivers for a relay command if one is sent. Returns the action
        taken, or `None` when the poll failed and reconciliation was
        skipped. */
    method Step(statusRx: Option<seq<byte>>, parseStatus: seq<byte> -> Option<StatusReply>,
                commandRx: Option<seq<byte>>, parseRelay: seq<byte> -> Option<RelayReply>)
      returns (action: Option<Action>)
      modifies this, plug
      ensures errorPin == plug.error
      ensures var u := Updated(old(plug.State()), plug.emeter, statusRx.None?, Received(statusRx, parseStatus));
              && (action.None? <==> u.error)
              // a failed poll: nothing but the error flag and pin changes
              && (u.error ==> Bookkeeping() == old(Bookkeeping()) && TelemetryPins() == old(TelemetryPins()))
              // a successful poll: publish telemetry, then act as `Decide` says
              && (!u.error ==>
                    action == Some(Decide(old(lastHalEnable), old(lastPlugEnable), old(enablePin), u.enable)) &&
                    TelemetryPins() == (if plug.emeter then u.telemetry else old(TelemetryPins())) &&
                    Bookkeeping() == Reconcile(old(Bookkeeping()), u.enable,
                                               !Refused(commandRx.None?, Received(commandRx, parseRelay))))
      // the plug is polled once, and sent a command only when `IssueCommand` was decided
      ensures plug.sent == old(plug.sent) + [Frame(Bytes(plug.updateCommand))] + CommandRequests(action)
      ensures var u := Updated(old(plug.State()), plug.emeter, statusRx.None?, Received(statusRx, parseStatus));
              var reply := Received(commandRx, parseRelay);
              if action.Some? && action.value.IssueCommand? then
                plug.State() == u.(error := Refused(commandRx.None?, reply)) &&
                plug.enabled == (if Acknowledged(reply) then Some(action.value.value) else old(plug.enabled))
              else
                plug.State() == u && plug.enabled == old(plug.enabled)
    {
      plug.Update(statusRx, parseStatus);
      action := None;
      if !plug.error {
        PublishTelemetry();
        var decision := ReconcileRelay(commandRx, parseRelay);
        action := Some(decision);
      }
      errorPin := plug.error;
    }
  }
}
