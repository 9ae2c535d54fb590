/**
 * The backend's command model: `validateCommand` and `formatCommand`
 * (BusGui/backend/src/models/Command.ts).
 *
 * A command reaches the backend as a JavaScript object taken from untrusted
 * socket input, so none of its declared field types can be trusted: each field
 * is either a number or something else (a string, a boolean, `undefined`, ...).
 * Only integer-valued numbers are modelled.
 */
module BackendCommand {
  import opened Wrappers
  import opened Text

  /** A field of the incoming object. `shown` is the text `${value}` prints for a non-number. */
  datatype Field = Num(value: int) | NotNum(shown: string)

  /** The `CommandType` enum; its members are the numbers 0 to 3. */
  datatype CommandType = Intensity | Color | On | Off

  function TypeOrdinal(t: CommandType): (n: int)
    ensures 0 <= n < 4
  {
    match t
    case Intensity => 0
    case Color => 1
    case On => 2
    case Off => 3
  }

  /** The fields of a received command object; `tag` is its `type` field. */
  datatype Command = Command(
    tag: Field, device: Field, fixture: Field,
    red: Field, green: Field, blue: Field, intensity: Field)

  predicate IsNum(f: Field) { f.Num? }

  /** `typeof f === "number" && f >= 0 && f <= 255` */
  predicate IsByte(f: Field) { f.Num? && 0 <= f.value <= 255 }

  predicate HasType(c: Command, t: CommandType)
  {
    c.tag.Num? && c.tag.value == TypeOrdinal(t)
  }

  /** `validateCommand`: the fail-closed structural check. */
  function ValidateCommand(c: Command): (ok: bool)
    ensures ok ==> IsNum(c.device) && IsNum(c.fixture) && IsNum(c.tag) && 0 <= c.tag.value < 4
  {
    if !IsNum(c.device) || !IsNum(c.fixture) || !IsNum(c.tag) then false
    else if c.tag.value == TypeOrdinal(Color) then IsByte(c.red) && IsByte(c.green) && IsByte(c.blue)
    else if c.tag.value == TypeOrdinal(Intensity) then IsByte(c.intensity)
    else if c.tag.value == TypeOrdinal(On) || c.tag.value == TypeOrdinal(Off) then true
    else false
  }

  /** `${f}` for a field of the command object. */
  function Show(f: Field): (s: string)
    ensures f.Num? ==> ParseInt(s) == Some(f.value)
  {
    match f
    case Num(v) => IntToStringRoundTrip(v); IntToString(v)
    case NotNum(s) => s
  }

  /**
   * `formatCommand`: "{type} {device} {fixture}", then " 1 {intensity}",
   * " 1 {red} {green} {blue}", " 1" or " 0" by type, and nothing for any other
   * type. No terminator is appended.
   */
  function FormatCommand(c: Command): (r: string)
    ensures Show(c.tag) + " " + Show(c.device) + " " + Show(c.fixture) <= r
  {
    var base := Show(c.tag) + " " + Show(c.device) + " " + Show(c.fixture);
    if HasType(c, Intensity) then base + " 1 " + Show(c.intensity)
    else if HasType(c, Color) then base + " 1 " + Show(c.red) + " " + Show(c.green) + " " + Show(c.blue)
    else if HasType(c, On) then base + " 1"
    else if HasType(c, Off) then base + " 0"
    else base
  }

  // ---------------------------------------------------------------------------
  // Reference view: the well-typed orders a valid command stands for.

  /** A command as its declared TypeScript type describes it, with integer fields. */
  datatype Order =
    | SetIntensity(device: int, fixture: int, level: int)
    | SetColor(device: int, fixture: int, r: int, g: int, b: int)
    | TurnOn(device: int, fixture: int)
    | TurnOff(device: int, fixture: int)

  /** Every payload value lies in [0, 255]; device and fixture are not constrained. */
  predicate InRange(o: Order)
  {
    match o
    case SetIntensity(_, _, level) => 0 <= level <= 255
    case SetColor(_, _, r, g, b) => 0 <= r <= 255 && 0 <= g <= 255 && 0 <= b <= 255
    case TurnOn(_, _) => true
    case TurnOff(_, _) => true
  }

  function OrderType(o: Order): CommandType
  {
    match o
    case SetIntensity(_, _, _) => Intensity
    case SetColor(_, _, _, _, _) => Color
    case TurnOn(_, _) => On
    case TurnOff(_, _) => Off
  }

  /** The received object holds `o`: numeric header fields and the variant's numeric payload fields. */
  predicate Carries(c: Command, o: Order)
  {
    && c.tag == Num(TypeOrdinal(OrderType(o)))
    && c.device == Num(o.device) && c.fixture == Num(o.fixture)
    && match o
       case SetIntensity(_, _, level) => c.intensity == Num(level)
       case SetColor(_, _, r, g, b) => c.red == Num(r) && c.green == Num(g) && c.blue == Num(b)
       case TurnOn(_, _) => true
       case TurnOff(_, _) => true
  }

  /**
   * The positional fields the controller reads, as laid out in the comment
   * above `formatCommand`: type, device, fixture, on-flag, then the payload.
   */
  function WireFields(o: Order): (fs: seq<int>)
    ensures |fs| == match o
      case SetIntensity(_, _, _) => 5
      case SetColor(_, _, _, _, _) => 7
      case TurnOn(_, _) => 4
      case TurnOff(_, _) => 4
    ensures fs[..3] == [TypeOrdinal(OrderType(o)), o.device, o.fixture]
    ensures fs[3] == if o.TurnOff? then 0 else 1
  {
    var head := [TypeOrdinal(OrderType(o)), o.device, o.fixture];
    match o
    case SetIntensity(_, _, level) => head + [1, level]
    case SetColor(_, _, r, g, b) => head + [1, r, g, b]
    case TurnOn(_, _) => head + [1]
    case TurnOff(_, _) => head + [0]
  }

  /** How the controller reads a command string: split on spaces, each token a decimal integer. */
  function DecodeFields(s: string): Option<seq<int>>
  {
    ParseAll(Split(s, ' '))
  }

  function ParseAll(tokens: seq<string>): Option<seq<int>>
  {
    if tokens == [] then Some([])
    else match (ParseInt(tokens[0]), ParseAll(tokens[1..]))
      case (Some(v), Some(vs)) => Some([v] + vs)
      case _ => None
  }

  // ---------------------------------------------------------------------------
  // Properties of validateCommand.

  /** A non-numeric `device`, `fixture` or `type` rejects the command whatever the other fields hold. */
  lemma HeaderMustBeNumeric(c: Command)
    requires !c.device.Num? || !c.fixture.Num? || !c.tag.Num?
    ensures !ValidateCommand(c)
  {
  }

  /** A Color command is valid iff all three channels are numbers in [0, 255]. */
  lemma ColorValidIff(c: Command)
    requires c.device.Num? && c.fixture.Num? && HasType(c, Color)
    ensures ValidateCommand(c) <==> IsByte(c.red) && IsByte(c.green) && IsByte(c.blue)
  {
  }

  /** An Intensity command is valid iff `intensity` is a number in [0, 255]. */
  lemma IntensityValidIff(c: Command)
    requires c.device.Num? && c.fixture.Num? && HasType(c, Intensity)
    ensures ValidateCommand(c) <==> IsByte(c.intensity)
  {
  }

  /** On and Off need nothing beyond a numeric header; any other numeric type is rejected. */
  lemma OnOffAndUnknownTypes(c: Command)
    requires c.device.Num? && c.fixture.Num? && c.tag.Num?
    ensures (HasType(c, On) || HasType(c, Off)) ==> ValidateCommand(c)
    ensures !(0 <= c.tag.value < 4) ==> !ValidateCommand(c)
  {
  }

  /** Device and fixture are never range-checked: replacing them by any other numbers keeps the verdict. */
  lemma DeviceFixtureUnchecked(c: Command, device: int, fixture: int)
    requires c.device.Num? && c.fixture.Num?
    ensures ValidateCommand(c.(device := Num(device), fixture := Num(fixture))) == ValidateCommand(c)
  {
  }

  /** The order a valid command holds. */
  function OrderOf(c: Command): (o: Order)
    requires ValidateCommand(c)
    ensures Carries(c, o) && InRange(o)
  {
    if HasType(c, Color) then SetColor(c.device.value, c.fixture.value, c.red.value, c.green.value, c.blue.value)
    else if HasType(c, Intensity) then SetIntensity(c.device.value, c.fixture.value, c.intensity.value)
    else if HasType(c, On) then TurnOn(c.device.value, c.fixture.value)
    else TurnOff(c.device.value, c.fixture.value)
  }

  /** The validator accepts exactly the objects that carry an in-range order. */
  lemma ValidIffCarriesOrder(c: Command)
    ensures ValidateCommand(c) <==> exists o :: Carries(c, o) && InRange(o)
  {
    if ValidateCommand(c) {
      var o := OrderOf(c);
      assert Carries(c, o) && InRange(o);
    }
  }

  // ---------------------------------------------------------------------------
  // Properties of formatCommand.

  lemma {:induction false} ParseAllInts(vs: seq<int>)
    ensures ParseAll(Texts(vs)) == Some(vs)
  {
    if vs != [] {
      IntToStringRoundTrip(vs[0]);
      assert Texts(vs)[1..] == Texts(vs[1..]);
      ParseAllInts(vs[1..]);
      assert [vs[0]] + vs[1..] == vs;
    }
  }

  lemma NoSpaceInInt(n: int)
    ensures ' ' !in IntToString(n)
  {
  }

  lemma JoinCons(x: string, rest: seq<string>, sep: char)
    requires |rest| > 0
    ensures Join([x] + rest, sep) == x + [sep] + Join(rest, sep)
  {
    assert ([x] + rest)[1..] == rest;
  }

  /** The decimal texts of a sequence of integers. */
  function Texts(vs: seq<int>): (ts: seq<string>)
    ensures |ts| == |vs| && forall i :: 0 <= i < |vs| ==> ts[i] == IntToString(vs[i])
  {
    seq(|vs|, i requires 0 <= i < |vs| => IntToString(vs[i]))
  }

  lemma Join4(a: string, b: string, c: string, d: string)
    ensures Join([a, b, c, d], ' ') == a + " " + b + " " + c + " " + d
  {
    JoinCons(c, [d], ' ');
    assert [b, c, d] == [b] + [c, d];
    JoinCons(b, [c, d], ' ');
    assert [a, b, c, d] == [a] + [b, c, d];
    JoinCons(a, [b, c, d], ' ');
  }

  lemma Join5(a: string, b: string, c: string, d: string, e: string)
    ensures Join([a, b, c, d, e], ' ') == a + " " + b + " " + c + " " + d + " " + e
  {
    Join4(b, c, d, e);
    assert [a, b, c, d, e] == [a] + [b, c, d, e];
    JoinCons(a, [b, c, d, e], ' ');
  }

  lemma Join7(a: string, b: string, c: string, d: string, e: string, f: string, g: string)
    ensures Join([a, b, c, d, e, f, g], ' ') == a + " " + b + " " + c + " " + d + " " + e + " " + f + " " + g
  {
    Join5(c, d, e, f, g);
    assert [b, c, d, e, f, g] == [b] + [c, d, e, f, g];
    JoinCons(b, [c, d, e, f, g], ' ');
    assert [a, b, c, d, e, f, g] == [a] + [b, c, d, e, f, g];
    JoinCons(a, [b, c, d, e, f, g], ' ');
  }

  lemma FormatIntensityIsJoin(c: Command, o: Order)
    requires Carries(c, o) && o.SetIntensity?
    ensures FormatCommand(c) == Join(Texts(WireFields(o)), ' ')
  {
    var t, d, f, l := IntToString(0), IntToString(o.device), IntToString(o.fixture), IntToString(o.level);
    IntensityTexts(o);
    Join5(t, d, f, "1", l);
    SpacedOne(t + " " + d + " " + f);
  }

  lemma IntensityTexts(o: Order)
    requires o.SetIntensity?
    ensures Texts(WireFields(o)) == [IntToString(0), IntToString(o.device), IntToString(o.fixture), IntToString(1),
      IntToString(o.level)]
  {
    assert WireFields(o) == [0, o.device, o.fixture, 1, o.level];
  }

  lemma FormatColorIsJoin(c: Command, o: Order)
    requires Carries(c, o) && o.SetColor?
    ensures FormatCommand(c) == Join(Texts(WireFields(o)), ' ')
  {
    var t, d, f := IntToString(1), IntToString(o.device), IntToString(o.fixture);
    var x, y, z := IntToString(o.r), IntToString(o.g), IntToString(o.b);
    ColorTexts(o);
    FormatColorText(c, o);
    Join7(t, d, f, "1", x, y, z);
    SpacedOne(t + " " + d + " " + f);
  }

  lemma ColorTexts(o: Order)
    requires o.SetColor?
    ensures Texts(WireFields(o)) == [IntToString(1), IntToString(o.device), IntToString(o.fixture), IntToString(1),
      IntToString(o.r), IntToString(o.g), IntToString(o.b)]
  {
    assert WireFields(o) == [1, o.device, o.fixture, 1, o.r, o.g, o.b];
  }

  lemma FormatColorText(c: Command, o: Order)
    requires Carries(c, o) && o.SetColor?
    ensures FormatCommand(c) == IntToString(1) + " " + IntToString(o.device) + " " + IntToString(o.fixture)
      + " 1 " + IntToString(o.r) + " " + IntToString(o.g) + " " + IntToString(o.b)
  {
  }

  /** The on-flag written as its own space-separated field. */
  lemma SpacedOne(p: string)
    ensures p + " " + "1" + " " == p + " 1 "
  {
  }

  lemma FormatSwitchIsJoin(c: Command, o: Order)
    requires Carries(c, o) && (o.TurnOn? || o.TurnOff?)
    ensures FormatCommand(c) == Join(Texts(WireFields(o)), ' ')
  {
    var flag := if o.TurnOn? then "1" else "0";
    var t, d, f := IntToString(TypeOrdinal(OrderType(o))), IntToString(o.device), IntToString(o.fixture);
    SwitchTexts(o);
    FormatSwitchText(c, o);
    Join4(t, d, f, flag);
  }

  lemma SwitchTexts(o: Order)
    requires o.TurnOn? || o.TurnOff?
    ensures Texts(WireFields(o)) == [IntToString(TypeOrdinal(OrderType(o))), IntToString(o.device), IntToString(o.fixture),
      if o.TurnOn? then "1" else "0"]
  {
    assert IntToString(1) == "1" && IntToString(0) == "0";
    assert WireFields(o) == [TypeOrdinal(OrderType(o)), o.device, o.fixture, if o.TurnOn? then 1 else 0];
  }

  lemma FormatSwitchText(c: Command, o: Order)
    requires Carries(c, o) && (o.TurnOn? || o.TurnOff?)
    ensures FormatCommand(c) == IntToString(TypeOrdinal(OrderType(o))) + " " + IntToString(o.device) + " "
      + IntToString(o.fixture) + " " + (if o.TurnOn? then "1" else "0")
  {
    var base := IntToString(TypeOrdinal(OrderType(o))) + " " + IntToString(o.device) + " " + IntToString(o.fixture);
    if o.TurnOn? {
      assert FormatCommand(c) == base + " 1";
      assert base + " 1" == base + " " + "1";
    } else {
      assert FormatCommand(c) == base + " 0";
      assert base + " 0" == base + " " + "0";
    }
  }

  /** The written string is the decimal text of the order's fields joined by single spaces. */
  lemma FormatIsJoin(c: Command, o: Order)
    requires Carries(c, o)
    ensures FormatCommand(c) == Join(Texts(WireFields(o)), ' ')
  {
    match o {
      case SetIntensity(_, _, _) => FormatIntensityIsJoin(c, o);
      case SetColor(_, _, _, _, _) => FormatColorIsJoin(c, o);
      case TurnOn(_, _) => FormatSwitchIsJoin(c, o);
      case TurnOff(_, _) => FormatSwitchIsJoin(c, o);
    }
  }

  /**
   * Round trip: the string written for a valid command splits on spaces into
   * exactly the positional fields of the order it carries (5 tokens for
   * Intensity, 7 for Color, 4 for On and Off).
   */
  lemma FormatRoundTrip(c: Command, o: Order)
    requires ValidateCommand(c) && Carries(c, o)
    ensures DecodeFields(FormatCommand(c)) == Some(WireFields(o))
    ensures |Split(FormatCommand(c), ' ')| == |WireFields(o)|
  {
    var fs := WireFields(o);
    var ts := Texts(fs);
    FormatIsJoin(c, o);
    forall i | 0 <= i < |ts| ensures ' ' !in ts[i] {
      NoSpaceInInt(fs[i]);
    }
    SplitJoin(ts, ' ');
    ParseAllInts(fs);
  }

  /** The string written for a valid command carries no terminator: it holds no CR or LF and ends in a digit. */
  lemma FormatHasNoTerminator(c: Command)
    requires ValidateCommand(c)
    ensures var s := FormatCommand(c); '\n' !in s && '\r' !in s && IsDigit(s[|s| - 1])
  {
  }
}
