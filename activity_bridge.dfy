/**
 * The bridge from the screensaver's D-Bus interface to the publisher:
 * `setup_dbus` tries the known screensaver services in order and attaches the
 * publisher to the first one it can bind; every later change notification
 * becomes an immediate `setValue`.
 *
 * The session bus is an oracle: given a service name and its object path it
 * says how far the attempt inside the `try` block got before a GLib error.
 */
module ActivityBridge {
  import opened Publishing

  /** The screensaver services, in the order they are tried. */
  const ScreensaverNames: seq<string> :=
    ["org.gnome.ScreenSaver", "org.cinnamon.ScreenSaver",
     "org.kde.screensaver", "org.freedesktop.ScreenSaver"]

  /** How one attempt to bind a screensaver service ends. */
  datatype Probe =
    | Unavailable           // getting the object, its interface or GetActive() raised
    | NoSignal(active: bool) // GetActive() answered, connecting ActiveChanged raised
    | Bound(active: bool)    // GetActive() answered and the handler is connected

  type Bus = (string, string) -> Probe

  /** `each.replace('.', '/')`. */
  function DotsToSlashes(s: string): (r: string)
    ensures |r| == |s|
    ensures forall i :: 0 <= i < |s| ==> r[i] == (if s[i] == '.' then '/' else s[i])
    ensures '.' !in r
  {
    if s == [] then []
    else [if s[0] == '.' then '/' else s[0]] + DotsToSlashes(s[1..])
  }

  /** The object path of a service: its name with dots turned into slashes, after a slash. */
  function ObjectPath(name: string): string
  {
    "/" + DotsToSlashes(name)
  }

  /** The probe of one service, with the object path the bridge asks for. */
  function ProbeOf(bus: Bus, name: string): Probe
  {
    bus(name, ObjectPath(name))
  }

  /** The index of the first service from `i` on that binds, if any. */
  function FirstBoundFrom(names: seq<string>, bus: Bus, i: nat): (r: Option<nat>)
    requires i <= |names|
    ensures r.Some? ==> i <= r.value < |names| && ProbeOf(bus, names[r.value]).Bound?
    ensures r.Some? ==> forall j :: i <= j < r.value ==> !ProbeOf(bus, names[j]).Bound?
    ensures r.None? <==> forall j :: i <= j < |names| ==> !ProbeOf(bus, names[j]).Bound?
    decreases |names| - i
  {
    if i == |names| then None
    else if ProbeOf(bus, names[i]).Bound? then Some(i)
    else FirstBoundFrom(names, bus, i + 1)
  }

  /** The index of the first service that binds, if any. */
  function FirstBound(names: seq<string>, bus: Bus): Option<nat>
  {
    FirstBoundFrom(names, bus, 0)
  }

  /**
   * The screensaver state the publisher holds after probing `names` from `i`
   * on, when it held `held` before: each service whose GetActive() answers
   * replaces it, and probing stops at the first service that binds.
   */
  function StatusHeldFrom(names: seq<string>, bus: Bus, i: nat, held: Option<bool>): Option<bool>
    requires i <= |names|
    decreases |names| - i
  {
    if i == |names| then held
    else match ProbeOf(bus, names[i])
      case Unavailable => StatusHeldFrom(names, bus, i + 1, held)
      case NoSignal(a) => StatusHeldFrom(names, bus, i + 1, Some(a))
      case Bound(a) => Some(a)
  }

  /** The state the publisher holds after the whole probing loop, if it was given any. */
  function StatusHeld(names: seq<string>, bus: Bus): Option<bool>
  {
    StatusHeldFrom(names, bus, 0, None)
  }

  /** When a service binds, the state it reported is the one the publisher holds. */
  lemma {:induction false} BoundStatusIsHeld(names: seq<string>, bus: Bus, i: nat, held: Option<bool>)
    requires i <= |names| && FirstBoundFrom(names, bus, i).Some?
    ensures StatusHeldFrom(names, bus, i, held) == Some(ProbeOf(bus, names[FirstBoundFrom(names, bus, i).value]).active)
    decreases |names| - i
  {
    match ProbeOf(bus, names[i])
    case Unavailable => BoundStatusIsHeld(names, bus, i + 1, held);
    case NoSignal(a) => BoundStatusIsHeld(names, bus, i + 1, Some(a));
    case Bound(a) =>
  }

  /**
   * When no service from `i` on answers GetActive(), nothing binds and the
   * publisher keeps what it held; from the start, it is never given a value.
   */
  lemma {:induction false} NothingAnsweredNothingHeld(names: seq<string>, bus: Bus, i: nat, held: Option<bool>)
    requires i <= |names|
    requires forall j :: i <= j < |names| ==> ProbeOf(bus, names[j]).Unavailable?
    ensures StatusHeldFrom(names, bus, i, held) == held && FirstBoundFrom(names, bus, i) == None
    decreases |names| - i
  {
    if i < |names| {
      NothingAnsweredNothingHeld(names, bus, i + 1, held);
    }
  }

  /**
   * `setup_dbus`: probes the screensaver services in their fixed order.
   */
  method SetupDbus(publisher: Publisher, bus: Bus) returns (found: bool)
    requires publisher.Valid()
    modifies publisher, publisher.timer
    ensures publisher.Valid()
    ensures found <==> FirstBound(ScreensaverNames, bus).Some?
    ensures publisher.retired == old(publisher.retired)
    ensures StatusHeld(ScreensaverNames, bus) == None ==>
              publisher.value == old(publisher.value) && publisher.timer == old(publisher.timer)
    ensures StatusHeld(ScreensaverNames, bus).Some? ==>
              && publisher.value == Some(StatusToValue(StatusHeld(ScreensaverNames, bus).value))
              && publisher.timer != null
              && (old(publisher.timer) != null ==> publisher.timer == old(publisher.timer))
              && (old(publisher.timer) == null ==> fresh(publisher.timer))
    ensures old(publisher.timer) != null ==> unchanged(old(publisher.timer))
    ensures old(publisher.timer) == null && publisher.timer != null ==>
              publisher.timer.failCount == 0 && !publisher.timer.died && !publisher.timer.finished
  {
    found := ProbeCandidates(publisher, ScreensaverNames, bus);
  }

  /**
   * The probing loop of `setup_dbus`: each reachable service's state is pushed
   * with `setValue(..., now=False)`; the loop stops at the first service whose
   * change notification could be connected.  Returns whether one was.
   */
  method ProbeCandidates(publisher: Publisher, names: seq<string>, bus: Bus) returns (found: bool)
    requires publisher.Valid()
    modifies publisher, publisher.timer
    ensures publisher.Valid()
    ensures found <==> FirstBound(names, bus).Some?
    ensures publisher.retired == old(publisher.retired)
    ensures StatusHeld(names, bus) == None ==>
              publisher.value == old(publisher.value) && publisher.timer == old(publisher.timer)
    ensures StatusHeld(names, bus).Some? ==>
              && publisher.value == Some(StatusToValue(StatusHeld(names, bus).value))
              && publisher.timer != null
              && (old(publisher.timer) != null ==> publisher.timer == old(publisher.timer))
              && (old(publisher.timer) == null ==> fresh(publisher.timer))
    ensures old(publisher.timer) != null ==> unchanged(old(publisher.timer))
    ensures old(publisher.timer) == null && publisher.timer != null ==>
              publisher.timer.failCount == 0 && !publisher.timer.died && !publisher.timer.finished
  {
    found := false;
    var i := 0;
    ghost var held: Option<bool> := None;
    while i < |names| && !found
      invariant 0 <= i <= |names|
      invariant publisher.Valid()
      invariant publisher.retired == old(publisher.retired)
      invariant found ==> i > 0 && FirstBound(names, bus) == Some(i - 1) && StatusHeld(names, bus) == held
      invariant !found ==> FirstBoundFrom(names, bus, i) == FirstBound(names, bus)
      invariant !found ==> StatusHeldFrom(names, bus, i, held) == StatusHeld(names, bus)
      invariant old(publisher.timer) != null ==> publisher.timer == old(publisher.timer)
      invariant publisher.timer == old(publisher.timer) || fresh(publisher.timer)
      invariant old(publisher.timer) != null ==> unchanged(old(publisher.timer))
      invariant old(publisher.timer) == null && publisher.timer != null ==>
                  publisher.timer.failCount == 0 && !publisher.timer.died && !publisher.timer.finished
      invariant held == None ==> publisher.value == old(publisher.value) && publisher.timer == old(publisher.timer)
      invariant held.Some? ==> publisher.value == Some(StatusToValue(held.value)) && publisher.timer != null
    {
      var each := names[i];
      var probe := bus(each, ObjectPath(each));
      if !probe.Unavailable? {
        publisher.SetValue(StatusToValue(probe.active), false);
        held := Some(probe.active);
      }
      found := probe.Bound?;
      i := i + 1;
    }
  }

  /**
   * The ActiveChanged handler: every change notification pushes the new state
   * at once, replacing the current timer.
   */
  method OnActiveChanged(publisher: Publisher, status: bool)
    requires publisher.Valid()
    modifies publisher, publisher.timer
    ensures publisher.Valid()
    ensures publisher.value == Some(StatusToValue(status))
    ensures publisher.timer != null && fresh(publisher.timer)
    ensures publisher.timer.failCount == 0 && !publisher.timer.died && !publisher.timer.finished
    ensures publisher.retired ==
              old(publisher.retired) + (if old(publisher.timer) == null then {} else {old(publisher.timer)})
    ensures old(publisher.timer) != null ==>
              && old(publisher.timer).finished
              && old(publisher.timer).failCount == old(publisher.timer.failCount)
              && old(publisher.timer).died == old(publisher.timer.died)
  {
    publisher.SetValue(StatusToValue(status), true);
  }
}
