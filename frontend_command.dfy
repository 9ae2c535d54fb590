/**
 * The browser's command model (BusGui/frontend/src/models/Command.ts):
 * display names of fixtures and the constructors of the commands the
 * touch controls send.
 */
module FrontendCommand {
  import opened Wrappers
  import opened Text
  import BackendCommand

  /** The `Device` enum, numbered from 0 in declaration order. */
  datatype Device = MOSFET | RELAY | LED | DIGITAL | ANALOG

  function DeviceOrdinal(d: Device): int
  {
    match d
    case MOSFET => 0
    case RELAY => 1
    case LED => 2
    case DIGITAL => 3
    case ANALOG => 4
  }

  /** The `CommandType` enum, numbered from 0 in declaration order. */
  datatype CommandType = Intensity | Color | On | Off

  function TypeOrdinal(t: CommandType): int
  {
    match t
    case Intensity => 0
    case Color => 1
    case On => 2
    case Off => 3
  }

  /** How many members each device's fixture enum declares (MosfetFixtures, RelayFixtures, ...). */
  function FixtureCount(device: int): nat
  {
    if device == DeviceOrdinal(MOSFET) then 10
    else if device == DeviceOrdinal(RELAY) then 8
    else if device == DeviceOrdinal(LED) then 4
    else if device == DeviceOrdinal(DIGITAL) then 8
    else if device == DeviceOrdinal(ANALOG) then 1
    else 0
  }

  predicate IsKnownFixture(device: int, fixture: int)
  {
    0 <= fixture < FixtureCount(device)
  }

  function UnknownName(device: int, fixture: int): string
  {
    "Unknown Device: " + IntToString(device) + ":" + IntToString(fixture)
  }

  /** `getName`: the display name of a fixture, by device and fixture ordinal. */
  function GetName(device: int, fixture: int): string
  {
    match device
    case 0 =>
      (match fixture
       case 7 => "Front Aisle"
       case 9 => "Rear Aisle"
       case 4 => "Shower"
       case 5 => "Closet"
       case 8 => "Shoes"
       case 6 => "Entry"
       case 0 => "Mosfet 0"
       case 1 => "Mosfet 1"
       case 2 => "Mosfet 2"
       case 3 => "Mosfet 3"
       case _ => UnknownName(device, fixture))
    case 2 =>
      (match fixture
       case 1 => "Bedroom Front Driver"
       case 0 => "Bedroom Passenger/Rear"
       case 2 => "LED 2"
       case 3 => "LED 3"
       case _ => UnknownName(device, fixture))
    case 4 =>
      (match fixture
       case 0 => "Freshwater Tank Level"
       case _ => UnknownName(device, fixture))
    case 1 =>
      (match fixture
       case 0 => "Freshwater Pump"
       case 1 => "Propane Shutoff"
       case 2 => "Relay 2"
       case 3 => "Relay 3"
       case 4 => "Relay 4"
       case 5 => "Relay 5"
       case 6 => "Relay 6"
       case 7 => "Relay 7"
       case _ => UnknownName(device, fixture))
    case 3 =>
      (match fixture
       case 0 => "Freshwater Pump"
       case 1 => "Freshwater Pump"
       case 2 => "Freshwater Pump"
       case 3 => "Freshwater Pump"
       case 4 => "Digital 4"
       case 5 => "Digital 5"
       case 6 => "Digital 6"
       case 7 => "Digital 7"
       case _ => UnknownName(device, fixture))
    case _ => UnknownName(device, fixture)
  }

  /** The fallback is taken exactly for the pairs no fixture enum declares. */
  lemma GetNameFallbackIff(device: int, fixture: int)
    ensures GetName(device, fixture) == UnknownName(device, fixture) <==> !IsKnownFixture(device, fixture)
  {
    assert UnknownName(device, fixture)[0] == 'U';
    if IsKnownFixture(device, fixture) {
      assert GetName(device, fixture)[0] != 'U';
    }
  }

  /** The named MOSFET fixtures. */
  lemma MosfetNames()
    ensures GetName(0, 4) == "Shower" && GetName(0, 5) == "Closet" && GetName(0, 6) == "Entry"
    ensures GetName(0, 7) == "Front Aisle" && GetName(0, 8) == "Shoes" && GetName(0, 9) == "Rear Aisle"
  {
  }

  /** The placeholder fixtures are named after their ordinal: "Mosfet n", "LED n", "Relay n", "Digital n". */
  lemma PlaceholderNames(fixture: int)
    ensures 0 <= fixture < 4 ==> GetName(0, fixture) == "Mosfet " + IntToString(fixture)
    ensures 2 <= fixture < 4 ==> GetName(2, fixture) == "LED " + IntToString(fixture)
    ensures 2 <= fixture < 8 ==> GetName(1, fixture) == "Relay " + IntToString(fixture)
    ensures 4 <= fixture < 8 ==> GetName(3, fixture) == "Digital " + IntToString(fixture)
  {
    if 0 <= fixture < 8 {
      assert IntToString(fixture) == [DigitChar(fixture)];
    }
  }

  /** The first four DIGITAL inputs all share the name "Freshwater Pump", like RELAY 0. */
  lemma DigitalInputsShareName(fixture: int)
    requires 0 <= fixture < 4
    ensures GetName(3, fixture) == "Freshwater Pump" == GetName(1, 0)
  {
  }

  // ---------------------------------------------------------------------------
  // Building commands.

  /** The commands the browser sends, as the TypeScript `Command` type describes them. */
  datatype Command =
    | ColorCommand(device: int, fixture: int, red: int, green: int, blue: int)
    | IntensityCommand(device: int, fixture: int, intensity: int)
    | OnOffCommand(kind: CommandType, device: int, fixture: int)

  function TypeOf(c: Command): CommandType
  {
    match c
    case ColorCommand(_, _, _, _, _) => Color
    case IntensityCommand(_, _, _) => Intensity
    case OnOffCommand(kind, _, _) => kind
  }

  /** The state of a light control: `Mosfet` ({i, on}) or `LEDColor` ({r, g, b, a}). */
  datatype LightState =
    | MosfetState(i: real, on: bool)
    | LedState(r: real, g: real, b: real, a: real)

  /** `state.on`: an `LEDColor` has no `on` field, so it reads as undefined, which is false. */
  predicate IsOn(s: LightState)
  {
    s.MosfetState? && s.on
  }

  /** `Math.ceil` on exact reals: the least integer not below x. */
  function Ceil(x: real): (n: int)
    ensures n as real >= x && (n - 1) as real < x
  {
    if x.Floor as real == x then x.Floor else x.Floor + 1
  }

  /** `makeLedCommand`: a Color command whose channels are the colour scaled by its alpha, rounded up. */
  function MakeLedCommand(device: int, fixture: int, state: LightState): (c: Command)
    requires state.LedState?
    ensures TypeOf(c) == Color && c.device == device && c.fixture == fixture
  {
    ColorCommand(device, fixture, Ceil(state.r * state.a), Ceil(state.g * state.a), Ceil(state.b * state.a))
  }

  /** `makeMosfetCommand`: an Intensity command with the level scaled to 0..255, rounded up. */
  function MakeMosfetCommand(device: int, fixture: int, state: LightState): (c: Command)
    requires state.MosfetState?
    ensures TypeOf(c) == Intensity && c.device == device && c.fixture == fixture
  {
    IntensityCommand(device, fixture, Ceil(state.i * 255.0))
  }

  /** `makeToggleCommand`: On exactly when `state.on` holds, otherwise Off. */
  function MakeToggleCommand(device: int, fixture: int, state: LightState): (c: Command)
    ensures TypeOf(c) == (if IsOn(state) then On else Off)
    ensures c.device == device && c.fixture == fixture
  {
    OnOffCommand(if IsOn(state) then On else Off, device, fixture)
  }

  /** An LED colour state can never switch a fixture on: its missing `on` field reads as false. */
  lemma ToggleOfLedStateIsOff(device: int, fixture: int, r: real, g: real, b: real, a: real)
    ensures TypeOf(MakeToggleCommand(device, fixture, LedState(r, g, b, a))) == Off
  {
  }

  // ---------------------------------------------------------------------------
  // What the backend receives.

  function BackendType(t: CommandType): BackendCommand.CommandType
  {
    match t
    case Intensity => BackendCommand.Intensity
    case Color => BackendCommand.Color
    case On => BackendCommand.On
    case Off => BackendCommand.Off
  }

  /** Both sides number the command types alike. */
  lemma TypeOrdinalsAgree(t: CommandType)
    ensures TypeOrdinal(t) == BackendCommand.TypeOrdinal(BackendType(t))
  {
  }

  /** The object the backend receives for `c`: its own fields as numbers, every other field undefined. */
  function ToWire(c: Command): (w: BackendCommand.Command)
    ensures w.tag == BackendCommand.Num(TypeOrdinal(TypeOf(c)))
  {
    var undefined := BackendCommand.NotNum("undefined");
    var base := BackendCommand.Command(
      BackendCommand.Num(TypeOrdinal(TypeOf(c))), BackendCommand.Num(c.device), BackendCommand.Num(c.fixture),
      undefined, undefined, undefined, undefined);
    match c
    case ColorCommand(_, _, r, g, b) =>
      base.(red := BackendCommand.Num(r), green := BackendCommand.Num(g), blue := BackendCommand.Num(b))
    case IntensityCommand(_, _, i) => base.(intensity := BackendCommand.Num(i))
    case OnOffCommand(_, _, _) => base
  }

  /** The order the backend reads from `c`. */
  function AsOrder(c: Command): BackendCommand.Order
  {
    match c
    case ColorCommand(d, f, r, g, b) => BackendCommand.SetColor(d, f, r, g, b)
    case IntensityCommand(d, f, i) => BackendCommand.SetIntensity(d, f, i)
    case OnOffCommand(kind, d, f) =>
      if kind == On then BackendCommand.TurnOn(d, f)
      else if kind == Off then BackendCommand.TurnOff(d, f)
      else BackendCommand.TurnOff(d, f)
  }

  /** A well-formed On/Off command carries one of those two types. */
  predicate WellTyped(c: Command)
  {
    c.OnOffCommand? ==> c.kind == On || c.kind == Off
  }

  /** What the browser builds reaches the backend as the order it meant. */
  lemma ToWireCarries(c: Command)
    requires WellTyped(c)
    ensures BackendCommand.Carries(ToWire(c), AsOrder(c))
  {
  }

  /** A toggle always passes the backend's validation. */
  lemma ToggleIsValid(device: int, fixture: int, state: LightState)
    ensures BackendCommand.ValidateCommand(ToWire(MakeToggleCommand(device, fixture, state)))
  {
  }

  lemma CeilIsByte(x: real)
    ensures 0 <= Ceil(x) <= 255 <==> -1.0 < x <= 255.0
  {
  }

  /** A MOSFET command passes validation iff its scaled level rounds up into [0, 255]. */
  lemma MosfetValidIff(device: int, fixture: int, state: LightState)
    requires state.MosfetState?
    ensures BackendCommand.ValidateCommand(ToWire(MakeMosfetCommand(device, fixture, state)))
      <==> -1.0 < state.i * 255.0 <= 255.0
  {
    CeilIsByte(state.i * 255.0);
  }

  /** An LED command passes validation iff every alpha-scaled channel rounds up into [0, 255]. */
  lemma LedValidIff(device: int, fixture: int, state: LightState)
    requires state.LedState?
    ensures BackendCommand.ValidateCommand(ToWire(MakeLedCommand(device, fixture, state)))
      <==> -1.0 < state.r * state.a <= 255.0 && -1.0 < state.g * state.a <= 255.0 && -1.0 < state.b * state.a <= 255.0
  {
    CeilIsByte(state.r * state.a);
    CeilIsByte(state.g * state.a);
    CeilIsByte(state.b * state.a);
  }

  lemma ProductNonNegative(x: real, y: real)
    requires 0.0 <= x && 0.0 <= y
    ensures 0.0 <= x * y
  {
  }

  lemma ScaledChannel(c: real, a: real)
    requires 0.0 <= c <= 255.0 && 0.0 <= a <= 1.0
    ensures 0.0 <= c * a <= 255.0
  {
    ProductNonNegative(c, a);
    ProductNonNegative(c, 1.0 - a);
    ProductNonNegative(255.0 - c, a);
    assert c * a == c - c * (1.0 - a);
    assert 255.0 * a - c * a == (255.0 - c) * a;
  }

  /** Controls within their ranges (levels in [0, 1], channels in [0, 255], alpha in [0, 1]) always produce valid commands. */
  lemma InRangeControlsAreValid(device: int, fixture: int, state: LightState)
    requires state.MosfetState? ==> 0.0 <= state.i <= 1.0
    requires state.LedState? ==>
      0.0 <= state.r <= 255.0 && 0.0 <= state.g <= 255.0 && 0.0 <= state.b <= 255.0 && 0.0 <= state.a <= 1.0
    ensures state.MosfetState? ==> BackendCommand.ValidateCommand(ToWire(MakeMosfetCommand(device, fixture, state)))
    ensures state.LedState? ==> BackendCommand.ValidateCommand(ToWire(MakeLedCommand(device, fixture, state)))
  {
    match state {
      case MosfetState(_, _) =>
        MosfetValidIff(device, fixture, state);
      case LedState(r, g, b, a) =>
        var w := ToWire(MakeLedCommand(device, fixture, state));
        assert w.red == BackendCommand.Num(Ceil(r * a));
        assert w.green == BackendCommand.Num(Ceil(g * a));
        assert w.blue == BackendCommand.Num(Ceil(b * a));
        ChannelIsByte(r, a);
        ChannelIsByte(g, a);
        ChannelIsByte(b, a);
        BackendCommand.ColorValidIff(w);
    }
  }

  /** An in-range channel scaled by an in-range alpha rounds up to a byte. */
  lemma ChannelIsByte(c: real, a: real)
    requires 0.0 <= c <= 255.0 && 0.0 <= a <= 1.0
    ensures 0 <= Ceil(c * a) <= 255
  {
    ScaledChannel(c, a);
    CeilIsByte(c * a);
  }

  /**
   * End to end: for a command the backend accepts, the controller splits the
   * written string into the command's type, device, fixture, on-flag and payload.
   */
  lemma SentAsWritten(c: Command)
    requires WellTyped(c) && BackendCommand.ValidateCommand(ToWire(c))
    ensures BackendCommand.DecodeFields(BackendCommand.FormatCommand(ToWire(c))) == Some(BackendCommand.WireFields(AsOrder(c)))
  {
    ToWireCarries(c);
    BackendCommand.FormatRoundTrip(ToWire(c), AsOrder(c));
  }
}
