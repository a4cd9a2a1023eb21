/** The scope guard that selects a CUDA device for a copy and puts the previous one back: nested scopes,
    exceptions and failing runtime calls included. */
module CudaDeviceGuard {

  /** Code that runs under guards. Whether a runtime call of a guard succeeds is part of the program, so every
      outcome is covered. */
  datatype Program = Copy(throws: bool)
                   | Then(first: Program, second: Program)
                   | Catch(body: Program, handler: Program)
                   | Scope(target: int, calls: Calls, body: Program)

  /** Success of asking for the device, of selecting the target and of putting the previous device back. */
  datatype Calls = Calls(get: bool, select: bool, restore: bool)

  /** A copy that ran: the device it was meant for, none outside every scope, and the device that was active. */
  datatype Event = Event(meant: int, active: int)

  datatype Result = Result(device: int, threw: bool, events: seq<Event>)

  const NO_DEVICE := -1

  /** What a program does when it starts on a device, with copies meant for `meant`. */
  function Eval(p: Program, device: int, meant: int): Result {
    match p
    case Copy(throws) => Result(device, throws, [Event(meant, device)])
    case Then(first, second) =>
      var a := Eval(first, device, meant);
      if a.threw then a
      else var b := Eval(second, a.device, meant); Result(b.device, b.threw, a.events + b.events)
    case Catch(body, handler) =>
      var a := Eval(body, device, meant);
      if !a.threw then a
      else var b := Eval(handler, a.device, meant); Result(b.device, b.threw, a.events + b.events)
    case Scope(target, calls, body) =>
      if target < 0 then Eval(body, device, meant)
      else if !calls.get then Result(device, true, [])
      else if device == target then Eval(body, device, target)
      else if !calls.select then Result(device, true, [])
      else var a := Eval(body, target, target); a.(device := if calls.restore then device else a.device)
  }

  // ----- the guard as an object -----

  class Runtime {
    var device: int

    constructor (device: int)
      ensures this.device == device
    {
      this.device := device;
    }

    /** Selecting a device changes nothing when it fails. */
    method SetDevice(device: int, succeeds: bool)
      modifies this
      ensures this.device == if succeeds then device else old(this.device)
    {
      if succeeds {
        this.device := device;
      }
    }
  }

  class Guard {
    var previous: int
    var active: bool

    constructor ()
      ensures previous == NO_DEVICE && !active
    {
      previous, active := NO_DEVICE, false;
    }

    /** The constructor body of the original; it throws by returning true. */
    method Enter(rt: Runtime, target: int, calls: Calls) returns (threw: bool)
      requires previous == NO_DEVICE && !active && rt.device >= 0
      modifies this, rt
      ensures !threw ==> active == (target >= 0 && old(rt.device) != target)
      ensures active ==> previous == old(rt.device)
      ensures rt.device == if !threw && target >= 0 then target else old(rt.device)
      ensures threw <==> target >= 0 && (!calls.get || (old(rt.device) != target && !calls.select))
    {
      if target < 0 {
        return false;
      }
      if !calls.get {
        return true;
      }
      previous := rt.device;
      if previous != target {
        rt.SetDevice(target, calls.select);
        if !calls.select {
          return true;
        }
        active := true;
      }
      threw := false;
    }

    /** The destructor: a failing call goes unnoticed. */
    method Leave(rt: Runtime, calls: Calls)
      modifies rt
      ensures rt.device == if active && previous >= 0 && calls.restore then previous else old(rt.device)
    {
      if active && previous >= 0 {
        rt.SetDevice(previous, calls.restore);
      }
    }
  }

  /** Running a program; a guard whose constructor threw has no destructor. */
  method Run(rt: Runtime, p: Program, meant: int) returns (threw: bool, events: seq<Event>)
    requires rt.device >= 0
    modifies rt
    ensures Result(rt.device, threw, events) == Eval(p, old(rt.device), meant)
    ensures rt.device >= 0
    decreases p
  {
    match p
    case Copy(throws) =>
      threw, events := throws, [Event(meant, rt.device)];
    case Then(first, second) =>
      threw, events := Run(rt, first, meant);
      if !threw {
        var more;
        threw, more := Run(rt, second, meant);
        events := events + more;
      }
    case Catch(body, handler) =>
      threw, events := Run(rt, body, meant);
      if threw {
        var more;
        threw, more := Run(rt, handler, meant);
        events := events + more;
      }
    case Scope(target, calls, body) =>
      var guard := new Guard();
      threw := guard.Enter(rt, target, calls);
      events := [];
      if !threw {
        threw, events := Run(rt, body, if target < 0 then meant else target);
        guard.Leave(rt, calls);
      }
  }

  // ----- what the guards guarantee -----

  /** Code without guards: copies on given devices, failures, sequences and handlers. */
  datatype Plain = Does(event: Event, throws: bool)
                 | Fails
                 | Both(first: Plain, second: Plain)
                 | Handled(body: Plain, handler: Plain)

  /** Whether it throws, and the copies that ran. */
  function Exec(p: Plain): (bool, seq<Event>) {
    match p
    case Does(event, throws) => (throws, [event])
    case Fails => (true, [])
    case Both(first, second) =>
      var a, b := Exec(first), Exec(second);
      if a.0 then a else (b.0, a.1 + b.1)
    case Handled(body, handler) =>
      var a, b := Exec(body), Exec(handler);
      if a.0 then (b.0, a.1 + b.1) else a
  }

  /** The code with its guards resolved, for the devices it runs on: a guard that cannot ask for the device or cannot
      select another one fails, and otherwise its scope is its body. */
  function Resolve(p: Program, device: int, meant: int): Plain {
    match p
    case Copy(throws) => Does(Event(meant, device), throws)
    case Then(first, second) =>
      Both(Resolve(first, device, meant), Resolve(second, Eval(first, device, meant).device, meant))
    case Catch(body, handler) =>
      Handled(Resolve(body, device, meant), Resolve(handler, Eval(body, device, meant).device, meant))
    case Scope(target, calls, body) =>
      if target < 0 then Resolve(body, device, meant)
      else if !calls.get || (device != target && !calls.select) then Fails
      else Resolve(body, target, target)
  }

  /** Guards neither swallow nor add exceptions, and run their bodies: for any calls that fail, a program throws and
      copies as it does with its guards resolved. */
  lemma {:induction false} GuardsAreTransparent(p: Program, device: int, meant: int)
    ensures (Eval(p, device, meant).threw, Eval(p, device, meant).events) == Exec(Resolve(p, device, meant))
    decreases p
  {
    match p
    case Copy(_) =>
    case Then(first, second) =>
      GuardsAreTransparent(first, device, meant);
      GuardsAreTransparent(second, Eval(first, device, meant).device, meant);
    case Catch(body, handler) =>
      GuardsAreTransparent(body, device, meant);
      GuardsAreTransparent(handler, Eval(body, device, meant).device, meant);
    case Scope(target, calls, body) =>
      if target < 0 {
        GuardsAreTransparent(body, device, meant);
      } else {
        GuardsAreTransparent(body, target, target);
      }
  }

  /** Every restoring call succeeds. */
  predicate Restores(p: Program) {
    match p
    case Copy(_) => true
    case Then(first, second) => Restores(first) && Restores(second)
    case Catch(body, handler) => Restores(body) && Restores(handler)
    case Scope(_, calls, body) => calls.restore && Restores(body)
  }

  /** A copy ran on the device it was meant for. */
  predicate Placed(e: Event) { e.meant == NO_DEVICE || e.meant == e.active }

  /** With restoring calls that succeed, every program comes back to the device it started on, whether it
      throws or not and whichever other calls fail; and every copy that ran, ran on the device of its innermost
      scope. */
  lemma {:induction false} DeviceIsRestored(p: Program, device: int, meant: int)
    requires Restores(p) && (meant == NO_DEVICE || meant == device)
    ensures Eval(p, device, meant).device == device
    ensures forall e | e in Eval(p, device, meant).events :: Placed(e)
    decreases p
  {
    match p
    case Copy(_) =>
    case Then(first, second) =>
      DeviceIsRestored(first, device, meant);
      DeviceIsRestored(second, device, meant);
    case Catch(body, handler) =>
      DeviceIsRestored(body, device, meant);
      DeviceIsRestored(handler, device, meant);
    case Scope(target, calls, body) =>
      if target < 0 {
        DeviceIsRestored(body, device, meant);
      } else {
        DeviceIsRestored(body, target, target);
      }
  }

  /** The devices that scopes selected in a run and nobody put back: a scope leaves one if its restoring call
      fails, and a scope around it that restores clears what was left inside. */
  function Strays(p: Program, device: int, meant: int): seq<int> {
    match p
    case Copy(_) => []
    case Then(first, second) =>
      var a := Eval(first, device, meant);
      Strays(first, device, meant) + if a.threw then [] else Strays(second, a.device, meant)
    case Catch(body, handler) =>
      var a := Eval(body, device, meant);
      Strays(body, device, meant) + if a.threw then Strays(handler, a.device, meant) else []
    case Scope(target, calls, body) =>
      if target < 0 then Strays(body, device, meant)
      else if !calls.get then []
      else if device == target then Strays(body, device, target)
      else if !calls.select || calls.restore then []
      else [target] + Strays(body, target, target)
  }

  function LastOr(s: seq<int>, device: int): int {
    if s == [] then device else s[|s| - 1]
  }

  lemma LastOfBoth(a: seq<int>, b: seq<int>, device: int)
    ensures LastOr(a + b, device) == LastOr(b, LastOr(a, device))
  {
    if b == [] {
      assert a + b == a;
    }
  }

  /** Every program ends on the device that was left last, or on the one it started on if none was left. So it
      comes back exactly if nothing was left, or the device left last is the one it started on. */
  lemma {:induction false} EndsOnLastStray(p: Program, device: int, meant: int)
    ensures Eval(p, device, meant).device == LastOr(Strays(p, device, meant), device)
    ensures Eval(p, device, meant).device == device
            <==> Strays(p, device, meant) == [] || Strays(p, device, meant)[|Strays(p, device, meant)| - 1] == device
    decreases p
  {
    match p
    case Copy(_) =>
    case Then(first, second) =>
      var a := Eval(first, device, meant);
      EndsOnLastStray(first, device, meant);
      EndsOnLastStray(second, a.device, meant);
      LastOfBoth(Strays(first, device, meant), if a.threw then [] else Strays(second, a.device, meant), device);
    case Catch(body, handler) =>
      var a := Eval(body, device, meant);
      EndsOnLastStray(body, device, meant);
      EndsOnLastStray(handler, a.device, meant);
      LastOfBoth(Strays(body, device, meant), if a.threw then Strays(handler, a.device, meant) else [], device);
    case Scope(target, calls, body) =>
      if target < 0 {
        EndsOnLastStray(body, device, meant);
      } else {
        EndsOnLastStray(body, target, target);
        LastOfBoth([target], Strays(body, target, target), device);
      }
  }

  /** One restoring call that fails can send a later copy of the enclosing scope to the wrong device. */
  lemma FailedRestoreMisplacesCopy(failing: Calls, fine: Calls)
    requires failing == Calls(true, true, false) && fine == Calls(true, true, true)
    ensures var p := Scope(0, fine, Then(Scope(1, failing, Copy(false)), Copy(false)));
            Eval(p, 0, NO_DEVICE) == Result(1, false, [Event(1, 1), Event(0, 1)])
  {
    assert Eval(Scope(1, failing, Copy(false)), 0, 0) == Result(1, false, [Event(1, 1)]);
    assert [Event(1, 1)] + [Event(0, 1)] == [Event(1, 1), Event(0, 1)];
  }
}
