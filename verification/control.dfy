/** The `on`, `off` and `toggle` commands: which calls `control_device`
    makes on the resolved handle, and with which exit status it ends. */
module Control {
  import opened Wrappers
  import opened Devices
  import opened Resolver

  /** The calls made on a device handle, in the order they are made. */
  datatype Command = TurnOn | TurnOff | Update | Disconnect

  /** The calls issued and the process exit status (0 when the function
      returns normally, 1 after `sys.exit(1)`). */
  datatype ControlRun = ControlRun(commands: seq<Command>, exitCode: nat)

  /** The switching call an action asks for: `toggle` reads `is_on` through
      `_safe` with default False, so a state that cannot be read counts as
      off; an action outside the three known ones switches nothing. */
  function Switch(action: string, isOn: Attr<bool>): (c: Option<Command>)
    ensures c.Some? <==> action in {"on", "off", "toggle"}
    ensures c.Some? ==> c.value in {TurnOn, TurnOff}
    ensures c == Some(TurnOff) <==> action == "off" || (action == "toggle" && isOn == Value(true))
  {
    if action == "on" then Some(TurnOn)
    else if action == "off" then Some(TurnOff)
    else if action == "toggle" then
      (if Safe(isOn, false) then Some(TurnOff) else Some(TurnOn))
    else None
  }

  /** `control_device` once `_find_device` has answered.  `failing` holds
      the calls that raise on this handle; a failing `disconnect` is
      swallowed, any other failure ends the run with status 1 after the
      handle is disconnected. */
  function Run(outcome: Outcome, action: string, isOn: Attr<bool>, failing: set<Command>): (r: ControlRun)
    ensures r.exitCode in {0, 1}
    ensures !outcome.Found? ==> r == ControlRun([], 1)
    ensures outcome.Found? ==> |r.commands| > 0 && r.commands[|r.commands| - 1] == Disconnect
  {
    if !outcome.Found? then
      ControlRun([], 1)
    else
      match Switch(action, isOn)
      case None => ControlRun([Disconnect], 0)
      case Some(c) =>
        if c in failing then ControlRun([c, Disconnect], 1)
        else ControlRun([c, Update, Disconnect], if Update in failing then 1 else 0)
  }

  function Count(s: seq<Command>, c: Command): (n: nat)
    ensures n <= |s|
    ensures n == 0 <==> c !in s
  {
    if s == [] then 0 else (if s[0] == c then 1 else 0) + Count(s[1..], c)
  }

  /** A resolved handle is disconnected exactly once, as the last call,
      whatever else fails; an unresolved one sees no call at all. */
  lemma DisconnectOnceAndLast(outcome: Outcome, action: string, isOn: Attr<bool>, failing: set<Command>)
    ensures var r := Run(outcome, action, isOn, failing);
            && (outcome.Found? <==> r.commands != [])
            && (outcome.Found? ==> Count(r.commands, Disconnect) == 1)
  {
  }

  /** `turn_off` is called exactly for `off`, and for `toggle` when the
      device reports that it is on; `turn_on` exactly for `on`, and for
      `toggle` otherwise -- including when `is_on` is missing, None or
      raises.  The two are never both called. */
  lemma SwitchingCalls(outcome: Outcome, action: string, isOn: Attr<bool>, failing: set<Command>)
    ensures var r := Run(outcome, action, isOn, failing);
            && (TurnOff in r.commands <==>
                  outcome.Found? && (action == "off" || (action == "toggle" && isOn == Value(true))))
            && (TurnOn in r.commands <==>
                  outcome.Found? && (action == "on" || (action == "toggle" && isOn != Value(true))))
            && !(TurnOn in r.commands && TurnOff in r.commands)
  {
  }

  /** `update` follows the switching call exactly when that call
      succeeded. */
  lemma UpdateOnlyAfterSuccess(outcome: Outcome, action: string, isOn: Attr<bool>, failing: set<Command>)
    ensures var r := Run(outcome, action, isOn, failing);
            Update in r.commands <==>
              outcome.Found? && Switch(action, isOn).Some? && Switch(action, isOn).value !in failing
  {
  }

  /** The run ends with status 0 exactly when a device was resolved and no
      call other than `disconnect` raised. */
  lemma ExitStatus(outcome: Outcome, action: string, isOn: Attr<bool>, failing: set<Command>)
    ensures var r := Run(outcome, action, isOn, failing);
            r.exitCode == 0 <==>
              outcome.Found? && (forall c :: c in r.commands && c != Disconnect ==> c !in failing)
  {
    var r := Run(outcome, action, isOn, failing);
    if outcome.Found? && Switch(action, isOn).Some? {
      var c := Switch(action, isOn).value;
      if c in failing {
        assert c in r.commands;
      } else if Update in failing {
        assert Update in r.commands;
      }
    }
  }

  /** The power state a successful switching call leaves behind.  This is
      an assumption about the device (`turn_on` makes `is_on` true,
      `turn_off` makes it false), not code of the scripts. */
  function After(c: Command, on: bool): bool {
    match c
    case TurnOn => true
    case TurnOff => false
    case _ => on
  }

  /** Toggling a device whose state is known inverts it; `on` and `off`
      reach their state from either state. */
  lemma ToggleInverts(on: bool)
    ensures After(Switch("toggle", Value(on)).value, on) == !on
    ensures After(Switch("on", Value(on)).value, on)
    ensures !After(Switch("off", Value(on)).value, on)
  {
  }

  /** Two successful toggles in a row, the second reading the state the
      first left, restore the original state. */
  lemma ToggleTwiceRestores(on: bool)
    ensures var mid := After(Switch("toggle", Value(on)).value, on);
            After(Switch("toggle", Value(mid)).value, mid) == on
  {
    ToggleInverts(on);
    ToggleInverts(!on);
  }
}
