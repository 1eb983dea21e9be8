/** Enumeration of the root hub ports (section 4.3 of the xHCI specification): only one port at a time
    may be between its reset and the assignment of an address. */
module Enumeration {
  import opened Results

  datatype ConfigPhase =
    NotConnected | WaitingAddressed | ResettingPort | EnablingSlot | AddressingDevice
    | InitializingDevice | ConfiguringEndpoints | Configured

  function Rank(phase: ConfigPhase): nat {
    match phase
    case NotConnected => 0
    case WaitingAddressed => 1
    case ResettingPort => 2
    case EnablingSlot => 3
    case AddressingDevice => 4
    case InitializingDevice => 5
    case ConfiguringEndpoints => 6
    case Configured => 7
  }

  const NUM_PORTS := 256
  const DEVICE_SIZE := 8
  const SUPER_SPEED_PLUS := 5

  type PortId = p: nat | p < NUM_PORTS

  /** What the port registers say when an event is handled. */
  datatype PortStatus = PortStatus(connected: bool, enabled: bool, resetChanged: bool, speed: nat)

  /** The commands the driver gives; the port is the one it means, which an Enable Slot command does not
      say. */
  datatype Command =
    | EnableSlotCommand(port: PortId)
    | AddressDeviceCommand(port: PortId, slot: nat)
    | ConfigureEndpointCommand(port: PortId, slot: nat)

  datatype Issuer = EnableSlotIssuer | AddressDeviceIssuer | ConfigureEndpointIssuer | OtherIssuer

  /** The events, with what the driver reads from the registers and the device context while it handles
      them: port is the port number in the device context of the slot. */
  datatype Event =
    | PortFound(id: PortId, status: seq<PortStatus>)
    | PortStatusChange(id: PortId, status: seq<PortStatus>)
    | Transfer(slot: nat, failure: Option<Error>, port: PortId, initialized: bool, speed: nat)
    | CommandCompletion(issuer: Issuer, slot: nat, port: PortId, status: seq<PortStatus>)
  {
    predicate Ok() {
      (PortFound? || PortStatusChange? ==> id > 0) && (Transfer? || |status| == NUM_PORTS)
    }
  }

  /** A port between its reset and its address. */
  predicate InAddressing(phase: ConfigPhase) {
    phase.ResettingPort? || phase.EnablingSlot? || phase.AddressingDevice?
  }

  /** The ports being addressed are the one named, or none if the name is 0, which is no port. */
  ghost predicate Exclusive(phases: seq<ConfigPhase>, addressing: nat) {
    && |phases| == NUM_PORTS && addressing < NUM_PORTS
    && phases[0] == NotConnected
    && forall i :: 0 <= i < NUM_PORTS && i > 0 ==> (InAddressing(phases[i]) <==> i == addressing)
  }

  /** A port only waits while another one is being addressed. */
  ghost predicate NobodyForgotten(phases: seq<ConfigPhase>, addressing: nat)
  {
    addressing == 0 ==> forall i :: 0 <= i < |phases| ==> phases[i] != WaitingAddressed
  }

  /** No port goes back. */
  ghost predicate Advanced(before: seq<ConfigPhase>, after: seq<ConfigPhase>) {
    |before| == |after| && forall i :: 0 <= i < |before| ==> Rank(before[i]) <= Rank(after[i])
  }

  /** The commands that enable slots and assign addresses. */
  function Asked(commands: seq<Command>): seq<Command> {
    if commands == [] then []
    else
      var last := commands[|commands| - 1];
      Asked(commands[..|commands| - 1]) + if last.ConfigureEndpointCommand? then [] else [last]
  }

  lemma AskedAppend(commands: seq<Command>, c: Command)
    ensures Asked(commands + [c]) == Asked(commands) + if c.ConfigureEndpointCommand? then [] else [c]
  {
    assert (commands + [c])[..|commands|] == commands;
  }

  /** Every address goes to the port for which the last slot was enabled: although the completion of an
      Enable Slot command does not name a port, it is never taken for another port's. */
  ghost predicate Matched(asked: seq<Command>, phases: seq<ConfigPhase>, addressing: nat)
    requires Exclusive(phases, addressing)
  {
    && (forall i :: 0 <= i < |asked| && asked[i].AddressDeviceCommand? ==>
          i > 0 && asked[i - 1] == EnableSlotCommand(asked[i].port))
    && (phases[addressing].EnablingSlot? ==>
          asked != [] && asked[|asked| - 1] == EnableSlotCommand(addressing))
  }

  lemma SlotAsked(asked: seq<Command>, phases: seq<ConfigPhase>, addressing: nat)
    requires Exclusive(phases, addressing) && Matched(asked, phases, addressing) && phases[addressing].ResettingPort?
    ensures var phases' := phases[addressing := EnablingSlot];
      Exclusive(phases', addressing) && Matched(asked + [EnableSlotCommand(addressing)], phases', addressing)
  {
  }

  /** Matched only looks at the port being addressed. */
  lemma StillMatched(asked: seq<Command>, phases: seq<ConfigPhase>, addressing: nat,
                     phases': seq<ConfigPhase>, addressing': nat)
    requires Exclusive(phases, addressing) && Exclusive(phases', addressing') && Matched(asked, phases, addressing)
    requires phases'[addressing'].EnablingSlot? ==> addressing' == addressing && phases[addressing].EnablingSlot?
    ensures Matched(asked, phases', addressing')
  {
  }

  // ---------------------------------------------------------------- what each event does

  type PhaseTable = phases: seq<ConfigPhase> | |phases| == NUM_PORTS witness seq(NUM_PORTS, _ => NotConnected)

  /** All that the driver keeps about the ports and the devices. */
  datatype State = State(phases: PhaseTable, addressing: PortId, devices: set<nat>, commands: seq<Command>) {
    ghost predicate Safe() {
      Exclusive(phases, addressing) && Matched(Asked(commands), phases, addressing)
    }

    predicate HasDevice(slot: nat) {
      slot <= DEVICE_SIZE && slot in devices
    }

    /** The port comes to another phase, with the command for it if there is one. */
    function To(port: PortId, phase: ConfigPhase, given: seq<Command>): State
    {
      this.(phases := phases[port := phase], commands := commands + given)
    }
  }

  /** A port that is plugged in is reset, or waits for the one that is being addressed. */
  function PluggedIn(s: State, port: PortId, connected: bool): State
  {
    if !connected then s
    else if s.addressing != 0 then s.To(port, WaitingAddressed, [])
    else s.To(port, ResettingPort, []).(addressing := port)
  }

  /** A new port is plugged in; a port whose reset is complete gets a slot. */
  function PortChanged(s: State, port: PortId, status: PortStatus): State
  {
    if s.phases[port].NotConnected? then PluggedIn(s, port, status.connected)
    else if s.phases[port].ResettingPort? && status.enabled && status.resetChanged then
      s.To(port, EnablingSlot, [EnableSlotCommand(port)])
    else s
  }

  function PortChangedError(s: State, port: PortId): Option<Error>
  {
    if s.phases[port].NotConnected? || s.phases[port].ResettingPort? then None else Some(InvalidPhase)
  }

  predicate KnownSpeed(speed: nat) {
    0 < speed <= SUPER_SPEED_PLUS
  }

  /** The endpoints of a device that has become initialized are configured. */
  function Transferred(s: State, slot: nat, failure: Option<Error>, port: PortId, initialized: bool, speed: nat): State
  {
    if s.HasDevice(slot) && failure.None? && initialized && s.phases[port].InitializingDevice? && KnownSpeed(speed)
    then s.To(port, ConfiguringEndpoints, [ConfigureEndpointCommand(port, slot)])
    else s
  }

  function TransferredError(s: State, slot: nat, failure: Option<Error>, port: PortId, initialized: bool, speed: nat): Option<Error>
  {
    if !s.HasDevice(slot) then Some(InvalidSlotID)
    else if failure.Some? then failure
    else if initialized && s.phases[port].InitializingDevice? && !KnownSpeed(speed) then Some(UnknownXHCISpeedID)
    else None
  }

  /** The event completes the command that a port is waiting for. */
  predicate Expected(s: State, issuer: Issuer, slot: nat, port: PortId)
  {
    match issuer
    case EnableSlotIssuer => s.phases[s.addressing].EnablingSlot? && slot <= DEVICE_SIZE
    case AddressDeviceIssuer => s.HasDevice(slot) && port == s.addressing && s.phases[port].AddressingDevice?
    case ConfigureEndpointIssuer => s.HasDevice(slot) && s.phases[port].ConfiguringEndpoints?
    case OtherIssuer => false
  }

  /** The new slot goes to the port being addressed; a port that has its address makes room for the lowest
      waiting one; a port whose endpoints are configured is done. */
  function Completed(s: State, issuer: Issuer, slot: nat, port: PortId, status: seq<PortStatus>): State
    requires |status| == NUM_PORTS
  {
    if !Expected(s, issuer, slot, port) then s
    else match issuer
    case EnableSlotIssuer =>
      s.To(s.addressing, AddressingDevice, [AddressDeviceCommand(s.addressing, slot)]).(devices := s.devices + {slot})
    case AddressDeviceIssuer =>
      var i := FirstWaiting(s.phases, 0);
      if i == NUM_PORTS then s.To(port, InitializingDevice, []).(addressing := 0)
      else PluggedIn(s.(addressing := 0), i, status[i].connected).To(port, InitializingDevice, [])
    case _ => s.To(port, Configured, [])
  }

  function CompletedError(s: State, issuer: Issuer, slot: nat, port: PortId): Option<Error>
  {
    if Expected(s, issuer, slot, port) then None
    else if issuer.EnableSlotIssuer? then Some(if s.phases[s.addressing].EnablingSlot? then InvalidSlotID else InvalidPhase)
    else if issuer.OtherIssuer? || s.HasDevice(slot) then Some(InvalidPhase)
    else Some(InvalidSlotID)
  }

  /** What a command completion leaves, command by command. The Enable Slot command brings the slot for the port
      being addressed; with its address that port makes room, and the lowest waiting one is reset if it is
      still connected. */
  ghost predicate CompletionDone(s: State, issuer: Issuer, slot: nat, port: PortId, status: seq<PortStatus>,
                                 t: State, error: Option<Error>)
    requires |status| == NUM_PORTS
  {
    if issuer.EnableSlotIssuer? && s.phases[s.addressing] == EnablingSlot && slot <= DEVICE_SIZE then
      && t.phases == s.phases[s.addressing := AddressingDevice] && t.addressing == s.addressing && error == None
      && t.devices == s.devices + {slot} && t.commands == s.commands + [AddressDeviceCommand(s.addressing, slot)]
    else if issuer.AddressDeviceIssuer? && slot <= DEVICE_SIZE && slot in s.devices && port == s.addressing
            && s.phases[port] == AddressingDevice then
      && t.devices == s.devices && t.commands == s.commands && error == None && t.phases[port] == InitializingDevice
      && (forall i :: IsFirstWaiting(s.phases, i) && status[i].connected ==>
            t.addressing == i && t.phases == s.phases[port := InitializingDevice][i := ResettingPort])
      && ((forall i :: !(IsFirstWaiting(s.phases, i) && status[i].connected)) ==>
            t.addressing == 0 && t.phases == s.phases[port := InitializingDevice])
    else if issuer.ConfigureEndpointIssuer? && slot <= DEVICE_SIZE && slot in s.devices
            && s.phases[port] == ConfiguringEndpoints then
      t == s.(phases := s.phases[port := Configured]) && error == None
    else
      && t == s
      && error == Some(if issuer.OtherIssuer? then InvalidPhase
                       else if issuer.EnableSlotIssuer? && s.phases[s.addressing] != EnablingSlot then InvalidPhase
                       else if slot <= DEVICE_SIZE && slot in s.devices && !issuer.EnableSlotIssuer? then InvalidPhase
                       else InvalidSlotID)
  }

  lemma CompletedIs(s: State, issuer: Issuer, slot: nat, port: PortId, status: seq<PortStatus>)
    requires |status| == NUM_PORTS
    ensures CompletionDone(s, issuer, slot, port, status, Completed(s, issuer, slot, port, status),
                           CompletedError(s, issuer, slot, port))
  {
    var w := FirstWaiting(s.phases, 0);
    if w < NUM_PORTS {
      assert IsFirstWaiting(s.phases, w);
      assert forall i :: IsFirstWaiting(s.phases, i) ==> i == w;
    } else {
      assert forall i :: !IsFirstWaiting(s.phases, i);
    }
  }

  /** The lowest waiting port at or above i. */
  function FirstWaiting(phases: seq<ConfigPhase>, i: nat): (r: nat)
    requires i <= |phases|
    ensures i <= r <= |phases| && (r < |phases| ==> phases[r] == WaitingAddressed)
    ensures forall j :: i <= j < r ==> phases[j] != WaitingAddressed
    decreases |phases| - i
  {
    if i == |phases| || phases[i] == WaitingAddressed then i else FirstWaiting(phases, i + 1)
  }

  /** What an event does. */
  function Next(s: State, e: Event): State
    requires e.Ok()
  {
    match e
    case PortFound(id, status) =>
      if s.phases[id].NotConnected? then PluggedIn(s, id, status[id].connected) else s
    case PortStatusChange(id, status) => PortChanged(s, id, status[id])
    case Transfer(slot, failure, port, initialized, speed) => Transferred(s, slot, failure, port, initialized, speed)
    case CommandCompletion(issuer, slot, port, status) => Completed(s, issuer, slot, port, status)
  }

  function NextError(s: State, e: Event): Option<Error>
    requires e.Ok()
  {
    match e
    case PortFound(_, _) => None
    case PortStatusChange(id, _) => PortChangedError(s, id)
    case Transfer(slot, failure, port, initialized, speed) => TransferredError(s, slot, failure, port, initialized, speed)
    case CommandCompletion(issuer, slot, port, _) => CompletedError(s, issuer, slot, port)
  }

  /** The events that a device causes that is plugged in when no other port is being addressed. */
  function Arrival(port: PortId, slot: nat, speed: nat, status: seq<PortStatus>): seq<Event> {
    [PortStatusChange(port, status), PortStatusChange(port, status), CommandCompletion(EnableSlotIssuer, slot, 0, status),
     CommandCompletion(AddressDeviceIssuer, slot, port, status), Transfer(slot, None, port, true, speed),
     CommandCompletion(ConfigureEndpointIssuer, slot, port, status)]
  }

  function After(s: State, events: seq<Event>): State
    requires forall k :: 0 <= k < |events| ==> events[k].Ok()
    decreases |events|
  {
    if events == [] then s else Next(After(s, events[..|events| - 1]), events[|events| - 1])
  }

  /** They take its port all the way, with the three commands on it, and leave the others alone. */
  lemma Enumerated(s: State, port: PortId, slot: nat, speed: nat, status: seq<PortStatus>)
    requires |status| == NUM_PORTS && port > 0 && slot <= DEVICE_SIZE && 0 < speed <= 5
    requires s.addressing == 0 && s.phases[port] == NotConnected && forall i :: 0 <= i < NUM_PORTS ==> s.phases[i] != WaitingAddressed
    requires status[port].connected && status[port].enabled && status[port].resetChanged
    ensures var t := After(s, Arrival(port, slot, speed, status));
      && t.phases == s.phases[port := Configured] && t.addressing == 0
      && t.commands == s.commands + [EnableSlotCommand(port), AddressDeviceCommand(port, slot), ConfigureEndpointCommand(port, slot)]
  {
    var es := Arrival(port, slot, speed, status);
    assert es[..0] == [];
    var s1 := Next(s, es[0]);
    var s2 := Next(s1, es[1]);
    var s3 := Next(s2, es[2]);
    assert s3.phases == s.phases[port := AddressingDevice] && s3.addressing == port && slot in s3.devices;
    var s4 := Next(s3, es[3]);
    assert FirstWaiting(s3.phases, 0) == NUM_PORTS;
    var s5 := Next(s4, es[4]);
    var s6 := Next(s5, es[5]);
    hide Next;
    AfterSix(s, es);
    assert s6.phases == s.phases[port := Configured];
  }

  lemma AfterSix(s: State, es: seq<Event>)
    requires |es| == 6 && forall k :: 0 <= k < |es| ==> es[k].Ok()
    ensures After(s, es) == Next(Next(Next(Next(Next(Next(s, es[0]), es[1]), es[2]), es[3]), es[4]), es[5])
  {
    hide Next;
    assert es[..5][..4] == es[..4] && es[..4][..3] == es[..3] && es[..3][..2] == es[..2] && es[..2][..1] == es[..1];
    assert es[..1][..0] == [];
    assert After(s, []) == s;
    assert After(s, es[..1]) == Next(s, es[0]);
    assert After(s, es[..2]) == Next(After(s, es[..1]), es[1]);
    assert After(s, es[..3]) == Next(After(s, es[..2]), es[2]);
    assert After(s, es[..4]) == Next(After(s, es[..3]), es[3]);
    assert After(s, es[..5]) == Next(After(s, es[..4]), es[4]);
  }

  /** The port whose turn it is next. */
  ghost predicate IsFirstWaiting(phases: seq<ConfigPhase>, i: int) {
    0 <= i < |phases| && phases[i] == WaitingAddressed && forall j :: 0 <= j < i ==> phases[j] != WaitingAddressed
  }

  /** When a port gets its address, the one whose turn comes is still connected. */
  ghost predicate TurnTaken(s: State, e: Event)
    requires e.Ok()
  {
    e.CommandCompletion? && e.issuer.AddressDeviceIssuer? && Expected(s, e.issuer, e.slot, e.port) ==>
      forall i :: IsFirstWaiting(s.phases, i) ==> e.status[i].connected
  }

  /** An event makes the driver forget a waiting port exactly when that port missed its turn. */
  lemma ForgottenExactly(s: State, e: Event)
    requires s.Safe() && NobodyForgotten(s.phases, s.addressing) && e.Ok()
    ensures NobodyForgotten(Next(s, e).phases, Next(s, e).addressing) <==> TurnTaken(s, e)
  {
    hide Matched, Asked;
    if e.CommandCompletion? && Expected(s, e.issuer, e.slot, e.port) && e.issuer.AddressDeviceIssuer? {
      var i := FirstWaiting(s.phases, 0);
      assert i < NUM_PORTS ==> IsFirstWaiting(s.phases, i);
      var t := Next(s, e);
      if i < NUM_PORTS && !e.status[i].connected {
        assert t.phases[i] == WaitingAddressed;
      }
    }
  }

  class Controller {
    const portConfigPhase: array<ConfigPhase>
    var addressingPort: PortId
    var devices: set<nat>
    var commands: seq<Command>

    constructor ()
      ensures Valid() && fresh(portConfigPhase) && addressingPort == 0 && devices == {} && commands == []
      ensures forall i :: 0 <= i < NUM_PORTS ==> portConfigPhase[i] == NotConnected
    {
      portConfigPhase := new ConfigPhase[NUM_PORTS](_ => NotConnected);
      addressingPort, devices, commands := 0, {}, [];
    }

    ghost predicate Valid()
      reads this, portConfigPhase
    {
      && portConfigPhase.Length == NUM_PORTS && Exclusive(portConfigPhase[..], addressingPort)
      && Matched(Asked(commands), portConfigPhase[..], addressingPort)
    }

    ghost function Phases(): seq<ConfigPhase>
      reads portConfigPhase
    {
      portConfigPhase[..]
    }

    ghost function Now(): State
      requires portConfigPhase.Length == NUM_PORTS
      reads this, portConfigPhase
    {
      State(Phases(), addressingPort, devices, commands)
    }

    predicate FindBySlot(slot: nat)
      reads this`devices
    {
      slot <= DEVICE_SIZE && slot in devices
    }

    method ResetPort(port: PortId, connected: bool) returns (error: Option<Error>)
      requires portConfigPhase.Length == NUM_PORTS && port > 0
      modifies portConfigPhase, this`addressingPort
      ensures var phase := old(portConfigPhase[port]);
        if !connected then error == None && Phases() == old(Phases()) && addressingPort == old(addressingPort)
        else if old(addressingPort) != 0 then
          error == None && Phases() == old(Phases())[port := WaitingAddressed] && addressingPort == old(addressingPort)
        else if phase != NotConnected && phase != WaitingAddressed then
          error == Some(InvalidPhase) && Phases() == old(Phases()) && addressingPort == old(addressingPort)
        else
          error == None && Phases() == old(Phases())[port := ResettingPort] && addressingPort == port
    {
      if !connected {
        return None;
      }
      if addressingPort != 0 {
        portConfigPhase[port] := WaitingAddressed;
      } else {
        var portPhase := portConfigPhase[port];
        if portPhase != NotConnected && portPhase != WaitingAddressed {
          return Some(InvalidPhase);
        }
        addressingPort := port;
        portConfigPhase[port] := ResettingPort;
      }
      error := None;
    }

    method EnableSlot(port: PortId, status: PortStatus)
      requires portConfigPhase.Length == NUM_PORTS
      modifies portConfigPhase, this`commands
      ensures if status.enabled && status.resetChanged
              then Phases() == old(Phases())[port := EnablingSlot] && commands == old(commands) + [EnableSlotCommand(port)]
              else Phases() == old(Phases()) && commands == old(commands)
    {
      if status.enabled && status.resetChanged {
        portConfigPhase[port] := EnablingSlot;
        commands := commands + [EnableSlotCommand(port)];
      }
    }

    /** The result of AllocDevice is not looked at, so a slot that has a device keeps it. */
    method AddressDevice(port: PortId, slot: nat) returns (error: Option<Error>)
      requires portConfigPhase.Length == NUM_PORTS
      modifies portConfigPhase, this`devices, this`commands
      ensures error == if slot > DEVICE_SIZE then Some(InvalidSlotID) else None
      ensures if slot > DEVICE_SIZE
              then Phases() == old(Phases()) && devices == old(devices) && commands == old(commands)
              else Phases() == old(Phases())[port := AddressingDevice] && devices == old(devices) + {slot}
                   && commands == old(commands) + [AddressDeviceCommand(port, slot)]
    {
      if slot <= DEVICE_SIZE && slot !in devices {
        devices := devices + {slot};
      }
      if !FindBySlot(slot) {
        return Some(InvalidSlotID);
      }
      portConfigPhase[port] := AddressingDevice;
      commands := commands + [AddressDeviceCommand(port, slot)];
      error := None;
    }

    method ConfigureEndpoints(port: PortId, slot: nat, speed: nat) returns (error: Option<Error>)
      requires portConfigPhase.Length == NUM_PORTS
      modifies portConfigPhase, this`commands
      ensures error == if speed == 0 || speed > SUPER_SPEED_PLUS then Some(UnknownXHCISpeedID) else None
      ensures if error.Some?
              then Phases() == old(Phases()) && commands == old(commands)
              else Phases() == old(Phases())[port := ConfiguringEndpoints]
                   && commands == old(commands) + [ConfigureEndpointCommand(port, slot)]
    {
      if speed == 0 || speed > SUPER_SPEED_PLUS {
        return Some(UnknownXHCISpeedID);
      }
      portConfigPhase[port] := ConfiguringEndpoints;
      commands := commands + [ConfigureEndpointCommand(port, slot)];
      error := None;
    }

    method ConfigurePort(port: PortId, status: PortStatus) returns (error: Option<Error>)
      requires Valid() && port > 0
      modifies portConfigPhase, this`addressingPort
      ensures Valid() && Advanced(old(Phases()), Phases()) && error == None
      ensures Now() == if old(portConfigPhase[port]).NotConnected? then PluggedIn(old(Now()), port, status.connected) else old(Now())
      ensures if old(portConfigPhase[port]) == NotConnected && status.connected
              then Phases() == old(Phases())[port := if old(addressingPort) == 0 then ResettingPort else WaitingAddressed]
                   && addressingPort == if old(addressingPort) == 0 then port else old(addressingPort)
              else Phases() == old(Phases()) && addressingPort == old(addressingPort)
    {
      error := None;
      if portConfigPhase[port] == NotConnected {
        error := ResetPort(port, status.connected);
      }
    }

    method OnPortStatusChange(port: PortId, status: PortStatus) returns (error: Option<Error>)
      requires Valid() && port > 0
      modifies portConfigPhase, this`addressingPort, this`commands
      ensures Valid() && Advanced(old(Phases()), Phases())
      ensures Now() == PortChanged(old(Now()), port, status) && error == PortChangedError(old(Now()), port)
      ensures devices == old(devices)
      ensures error == if old(portConfigPhase[port]) in {NotConnected, ResettingPort} then None else Some(InvalidPhase)
      ensures old(portConfigPhase[port]) == NotConnected && status.connected ==>
        && Phases() == old(Phases())[port := if old(addressingPort) == 0 then ResettingPort else WaitingAddressed]
        && addressingPort == (if old(addressingPort) == 0 then port else old(addressingPort)) && commands == old(commands)
      ensures old(portConfigPhase[port]) == ResettingPort && status.enabled && status.resetChanged ==>
        && Phases() == old(Phases())[port := EnablingSlot] && addressingPort == old(addressingPort)
        && commands == old(commands) + [EnableSlotCommand(port)]
      ensures !(old(portConfigPhase[port]) == NotConnected && status.connected)
              && !(old(portConfigPhase[port]) == ResettingPort && status.enabled && status.resetChanged) ==>
        Phases() == old(Phases()) && addressingPort == old(addressingPort) && commands == old(commands)
    {
      hide Matched, Asked;
      ghost var asked, phases, addressing := Asked(commands), Phases(), addressingPort;
      match portConfigPhase[port] {
        case NotConnected =>
          error := ResetPort(port, status.connected);
          StillMatched(asked, phases, addressing, Phases(), addressingPort);
        case ResettingPort =>
          AskedAppend(commands, EnableSlotCommand(port));
          SlotAsked(asked, phases, addressing);
          EnableSlot(port, status);
          error := None;
        case _ => error := Some(InvalidPhase);
      }
    }

    method OnTransfer(slot: nat, failure: Option<Error>, port: PortId, initialized: bool, speed: nat)
      returns (error: Option<Error>)
      requires Valid()
      modifies portConfigPhase, this`commands
      ensures Valid() && Advanced(old(Phases()), Phases())
      ensures Now() == Transferred(old(Now()), slot, failure, port, initialized, speed)
      ensures error == TransferredError(old(Now()), slot, failure, port, initialized, speed)
      ensures slot <= DEVICE_SIZE && slot in devices && failure == None && initialized
              && old(portConfigPhase[port]) == InitializingDevice && 0 < speed <= SUPER_SPEED_PLUS ==>
        && Phases() == old(Phases())[port := ConfiguringEndpoints] && error == None
        && commands == old(commands) + [ConfigureEndpointCommand(port, slot)]
      ensures !(slot <= DEVICE_SIZE && slot in devices && failure == None && initialized
                && old(portConfigPhase[port]) == InitializingDevice && 0 < speed <= SUPER_SPEED_PLUS) ==>
        Phases() == old(Phases()) && commands == old(commands)
      ensures slot > DEVICE_SIZE || slot !in devices ==> error == Some(InvalidSlotID)
      ensures slot <= DEVICE_SIZE && slot in devices ==>
        error == if failure.None? && initialized && old(portConfigPhase[port]) == InitializingDevice
                    && (speed == 0 || speed > SUPER_SPEED_PLUS) then Some(UnknownXHCISpeedID) else failure
    {
      hide Matched, Asked;
      ghost var asked, phases, addressing := Asked(commands), Phases(), addressingPort;
      if !FindBySlot(slot) {
        return Some(InvalidSlotID);
      }
      if failure.Some? {
        return failure;
      }
      if initialized && portConfigPhase[port] == InitializingDevice {
        AskedAppend(commands, ConfigureEndpointCommand(port, slot));
        assert asked + [] == asked;
        error := ConfigureEndpoints(port, slot, speed);
        StillMatched(asked, phases, addressing, Phases(), addressingPort);
        return;
      }
      error := None;
    }

    /** After an address was assigned the lowest waiting port gets its turn, if it is connected. */
    method AddressAssigned(slot: nat, port: PortId, status: seq<PortStatus>) returns (error: Option<Error>)
      requires Valid() && |status| == NUM_PORTS
      modifies portConfigPhase, this`addressingPort
      ensures Valid() && Advanced(old(Phases()), Phases())
      ensures Now() == Completed(old(Now()), AddressDeviceIssuer, slot, port, status)
      ensures error == CompletedError(old(Now()), AddressDeviceIssuer, slot, port)
    {
      hide Matched, Asked;
      ghost var asked, phases, addressing := Asked(commands), Phases(), addressingPort;
      if !FindBySlot(slot) {
        return Some(InvalidSlotID);
      }
      if port != addressingPort {
        return Some(InvalidPhase);
      }
      if portConfigPhase[port] != AddressingDevice {
        return Some(InvalidPhase);
      }
      addressingPort := 0;
      var i := 0;
      while i < NUM_PORTS
        invariant 0 <= i <= NUM_PORTS && addressingPort == 0 && Phases() == old(Phases())
        invariant FirstWaiting(Phases(), 0) == FirstWaiting(Phases(), i)
      {
        if portConfigPhase[i] == WaitingAddressed {
          var err := ResetPort(i, status[i].connected);
          if err.Some? {
            return err;
          }
          break;
        }
        i := i + 1;
      }
      portConfigPhase[port] := InitializingDevice;
      StillMatched(asked, phases, addressing, Phases(), addressingPort);
      error := None;
    }

    method OnCommandCompletion(issuer: Issuer, slot: nat, port: PortId, status: seq<PortStatus>)
      returns (error: Option<Error>)
      requires Valid() && |status| == NUM_PORTS
      modifies portConfigPhase, this`addressingPort, this`devices, this`commands
      ensures Valid() && Advanced(old(Phases()), Phases())
      ensures Now() == Completed(old(Now()), issuer, slot, port, status) && error == CompletedError(old(Now()), issuer, slot, port)
      ensures CompletionDone(old(Now()), issuer, slot, port, status, Now(), error)
    {
      hide FirstWaiting, IsFirstWaiting, PluggedIn, Asked, CompletionDone;
      CompletedIs(Now(), issuer, slot, port, status);
      match issuer {
        case EnableSlotIssuer =>
          if portConfigPhase[addressingPort] != EnablingSlot {
            return Some(InvalidPhase);
          }
          AskedAppend(commands, AddressDeviceCommand(addressingPort, slot));
          error := AddressDevice(addressingPort, slot);
        case AddressDeviceIssuer => error := AddressAssigned(slot, port, status);
        case ConfigureEndpointIssuer =>
          if !FindBySlot(slot) {
            return Some(InvalidSlotID);
          }
          if portConfigPhase[port] != ConfiguringEndpoints {
            return Some(InvalidPhase);
          }
          portConfigPhase[port] := Configured;
          error := None;
        case OtherIssuer => error := Some(InvalidPhase);
      }
    }

    method Handle(event: Event) returns (error: Option<Error>)
      requires Valid() && event.Ok()
      modifies portConfigPhase, this`addressingPort, this`devices, this`commands
      ensures Valid() && Advanced(old(Phases()), Phases())
      ensures Now() == Next(old(Now()), event) && error == NextError(old(Now()), event)
    {
      match event {
        case PortFound(id, status) => error := ConfigurePort(id, status[id]);
        case PortStatusChange(id, status) => error := OnPortStatusChange(id, status[id]);
        case Transfer(slot, failure, port, initialized, speed) => error := OnTransfer(slot, failure, port, initialized, speed);
        case CommandCompletion(issuer, slot, port, status) => error := OnCommandCompletion(issuer, slot, port, status);
      }
    }

    /** Over any sequence of events, and between any two of them: one port at a time is being addressed, no port
        goes back, every address goes to the port that asked, and none is ever forgotten if and only if each
        port whose turn comes is still connected. The trace is what the driver knows before and after each event. */
    method Run(events: seq<Event>) returns (errors: seq<Option<Error>>, ghost trace: seq<State>)
      requires Valid() && forall k :: 0 <= k < |events| ==> events[k].Ok()
      modifies portConfigPhase, this`addressingPort, this`devices, this`commands
      ensures Valid() && |errors| == |events| && |trace| == |events| + 1
      ensures trace[0] == old(Now()) && trace[|events|] == Now()
      ensures forall k :: 0 <= k <= |events| ==> trace[k].Safe() && Advanced(trace[0].phases, trace[k].phases)
      ensures forall k :: 0 <= k < |events| ==>
        trace[k + 1] == Next(trace[k], events[k]) && errors[k] == NextError(trace[k], events[k])
      ensures old(NobodyForgotten(Phases(), addressingPort)) ==>
        ((forall k :: 0 <= k <= |events| ==> NobodyForgotten(trace[k].phases, trace[k].addressing)) <==>
         (forall k :: 0 <= k < |events| ==> TurnTaken(trace[k], events[k])))
    {
      hide Next, NextError, Exclusive, Matched, Asked, TurnTaken, NobodyForgotten, State.Safe;
      errors, trace := [], [Now()];
      IsSafe();
      for n := 0 to |events|
        invariant Valid() && |errors| == n && |trace| == n + 1
        invariant trace[0] == old(Now()) && trace[n] == Now()
        invariant forall k :: 0 <= k <= n ==> trace[k].Safe()
        invariant forall k :: 0 <= k <= n ==> Advanced(trace[0].phases, trace[k].phases)
        invariant forall k :: 0 <= k < n ==>
          trace[k + 1] == Next(trace[k], events[k]) && errors[k] == NextError(trace[k], events[k])
        invariant old(NobodyForgotten(Phases(), addressingPort)) ==>
          ((forall k :: 0 <= k <= n ==> NobodyForgotten(trace[k].phases, trace[k].addressing)) <==>
           (forall k :: 0 <= k < n ==> TurnTaken(trace[k], events[k])))
      {
        var error := Handle(events[n]);
        if NobodyForgotten(trace[n].phases, trace[n].addressing) {
          ForgottenExactly(trace[n], events[n]);
        }
        errors, trace := errors + [error], trace + [Now()];
        IsSafe();
      }
    }

    lemma IsSafe()
      requires Valid()
      ensures Now().Safe()
    {
    }
  }
}
