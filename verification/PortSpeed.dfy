/**
  The effective speed of a port, derived from its configuration and from what
  the hardware reports, and whether enough is known to calculate headroom.
 */
module PortSpeed {
  import opened BufferTypes
  import opened Texts

  datatype PortInfo = PortInfo(state: PortState, speed: string, autoNeg: bool, advSpeeds: string,
                               supportedSpeeds: string, effectiveSpeed: string, cable: string, mtu: string)

  /** A port is created administratively down with nothing known. */
  const NEW_PORT := PortInfo(AdminDown, "", false, "", "", "", "", "")

  datatype Field = Speed(value: string) | Mtu(value: string) | AdminStatus(value: string)
                 | AdvSpeeds(value: string) | AutoNeg(value: string) | Other(value: string)

  // ---------- lists of speeds ----------

  function FirstComma(text: string): (i: nat)
    ensures i <= |text| && (i < |text| ==> text[i] == ',') && ',' !in text[..i]
  {
    if text == "" || text[0] == ',' then 0
    else var i := 1 + FirstComma(text[1..]); assert text[..i] == [text[0]] + text[1..][..i - 1]; i
  }

  /** The pieces between commas; nothing follows a trailing comma. */
  function Tokens(text: string): seq<string>
    decreases |text|
  {
    if text == "" then []
    else var i := FirstComma(text);
      [text[..i]] + if i < |text| then Tokens(text[i + 1..]) else []
  }

  /** The number the leading digits denote, continuing from `n`. */
  function Digits(text: string, n: nat): nat {
    if text != "" && '0' <= text[0] <= '9' then Digits(text[1..], 10 * n + (text[0] as nat - '0' as nat)) else n
  }

  /** atol, which saturates, assigned to an unsigned 64-bit variable. */
  function Number(text: string): nat {
    if text == "" then 0
    else if text[0] == ' ' || '\t' <= text[0] <= '\r' then Number(text[1..])
    else if text[0] == '-' then
      var n := Digits(text[1..], 0);
      if n == 0 then 0 else if n > 0x8000_0000_0000_0000 then 0x8000_0000_0000_0000 else 0x1_0000_0000_0000_0000 - n
    else
      var n := Digits(if text[0] == '+' then text[1..] else text, 0);
      if n > 0x7FFF_FFFF_FFFF_FFFF then 0x7FFF_FFFF_FFFF_FFFF else n
  }

  function Decimal(n: nat): (text: string)
    ensures text != ""
  {
    if n < 10 then [('0' as nat + n) as char] else Decimal(n / 10) + [('0' as nat + n % 10) as char]
  }

  /** The empty piece that a split finds at the end. */
  function Trailing(text: string): seq<string> {
    if text == "" || text[|text| - 1] == ',' then [""] else []
  }

  lemma CutAt(text: string, i: nat)
    requires i < |text|
    ensures text[..i] + [text[i]] + text[i + 1..] == text
  {
  }

  lemma Regrouped(a: seq<string>, b: seq<string>, c: seq<string>)
    ensures a + b + c == a + (b + c)
  {
  }

  /** The pieces are those of a split, without the empty one after a trailing comma. */
  lemma {:induction false} TokensAreSplit(text: string)
    ensures Tokens(text) + Trailing(text) == Split(text, ',')
    decreases |text|
  {
    var i := FirstComma(text);
    if i == |text| {
      SplitPlain(text, ',');
      assert text[..i] == text;
    } else {
      var head, tail := text[..i], text[i + 1..];
      TokensAreSplit(tail);
      SplitCons(head, tail, ',');
      CutAt(text, i);
      assert Trailing(text) == Trailing(tail);
      Regrouped([head], Tokens(tail), Trailing(tail));
    }
  }

  /** The number of a decimal text is what was printed, as far as a signed 64-bit number goes. */
  lemma NumberOfDecimal(n: nat)
    ensures Number(Decimal(n)) == if n <= 0x7FFF_FFFF_FFFF_FFFF then n else 0x7FFF_FFFF_FFFF_FFFF
  {
    DigitsOfDecimal(n, "");
    FirstIsDigit(n);
    assert Decimal(n) + "" == Decimal(n);
  }

  lemma {:induction false} FirstIsDigit(n: nat)
    ensures '0' <= Decimal(n)[0] <= '9'
  {
    if n >= 10 { FirstIsDigit(n / 10); }
  }

  lemma {:induction false} DigitsOfDecimal(n: nat, rest: string)
    ensures Digits(Decimal(n) + rest, 0) == Digits(rest, n)
  {
    var last := [('0' as nat + n % 10) as char];
    if n < 10 {
      assert Decimal(n) == last && (last + rest)[1..] == rest;
    } else {
      DigitsOfDecimal(n / 10, last + rest);
      assert Decimal(n / 10) + (last + rest) == Decimal(n) + rest;
      assert (last + rest)[1..] == rest;
    }
  }

  /** The largest number in a list, 0 when there is none. */
  ghost predicate IsMaximum(list: seq<string>, max: nat) {
    && (forall t <- list :: Number(t) <= max)
    && (max == 0 || exists t <- list :: Number(t) == max)
  }

  lemma MaximumIsUnique(list: seq<string>, a: nat, b: nat)
    requires IsMaximum(list, a) && IsMaximum(list, b)
    ensures a == b
  {
  }

  method GetMaxSpeedFromList(speeds: string) returns (text: string, ghost max: nat)
    ensures IsMaximum(Tokens(speeds), max) && text == Decimal(max)
    ensures exists m: nat :: IsMaximum(Tokens(speeds), m) && text == Decimal(m)
  {
    var list := Tokens(speeds);
    var maxSpeed := 0;
    for i := 0 to |list|
      invariant IsMaximum(list[..i], maxSpeed)
    {
      var speed := Number(list[i]);
      assert list[..i + 1] == list[..i] + [list[i]];
      if speed > maxSpeed {
        maxSpeed := speed;
      }
    }
    assert list[..|list|] == list;
    return Decimal(maxSpeed), maxSpeed;
  }

  // ---------- what must hold ----------

  /** The effective speed a port must have. */
  ghost predicate IsEffective(info: PortInfo, speed: string) {
    if !info.autoNeg then speed == info.speed
    else if IsNonZero(info.advSpeeds) then
      exists max :: IsMaximum(Tokens(info.advSpeeds), max) && speed == Decimal(max)
    else if IsNonZero(info.supportedSpeeds) then
      exists max :: IsMaximum(Tokens(info.supportedSpeeds), max) && speed == Decimal(max)
    else speed == ""
  }

  ghost predicate Derived(info: PortInfo) {
    IsEffective(info, info.effectiveSpeed)
  }

  lemma EffectiveIsUnique(info: PortInfo, a: string, b: string)
    requires IsEffective(info, a) && IsEffective(info, b)
    ensures a == b
  {
    if info.autoNeg && (IsNonZero(info.advSpeeds) || IsNonZero(info.supportedSpeeds)) {
      var list := Tokens(if IsNonZero(info.advSpeeds) then info.advSpeeds else info.supportedSpeeds);
      var m :| IsMaximum(list, m) && a == Decimal(m);
      var n :| IsMaximum(list, n) && b == Decimal(n);
      MaximumIsUnique(list, m, n);
    }
  }

  // ---------- what the fields of an event leave ----------

  /** The configured speed after the fields of a PORT event. */
  function SpeedAfter(fields: seq<Field>, speed: string): string {
    if fields == [] then speed
    else match fields[|fields| - 1]
      case Speed(value) => value
      case _ => SpeedAfter(fields[..|fields| - 1], speed)
  }

  /** The advertised speeds after the fields of a PORT event; "all" stands for none in particular. */
  function AdvertisedAfter(fields: seq<Field>, speeds: string): string {
    if fields == [] then speeds
    else
      var earlier := AdvertisedAfter(fields[..|fields| - 1], speeds);
      match fields[|fields| - 1]
      case AdvSpeeds(value) => if value == "all" != earlier then "" else value
      case _ => earlier
  }

  /** Whether the port negotiates after the fields of a PORT event. */
  function NegotiatesAfter(fields: seq<Field>, autoNeg: bool): bool {
    if fields == [] then autoNeg
    else match fields[|fields| - 1]
      case AutoNeg(value) => value == "on"
      case _ => NegotiatesAfter(fields[..|fields| - 1], autoNeg)
  }

  /** Whether the port is administratively up after the fields of a PORT event. */
  function UpAfter(fields: seq<Field>, up: bool): bool {
    if fields == [] then up
    else match fields[|fields| - 1]
      case AdminStatus(value) => value == "up"
      case _ => UpAfter(fields[..|fields| - 1], up)
  }

  /** The MTU after the fields of a PORT event. */
  function MtuAfter(fields: seq<Field>, mtu: string): string {
    if fields == [] then mtu
    else match fields[|fields| - 1]
      case Mtu(value) => value
      case _ => MtuAfter(fields[..|fields| - 1], mtu)
  }

  /** Some field has the effective speed derived again: it differs from what the fields before it have left. */
  predicate ChecksSpeed(fields: seq<Field>, before: PortInfo) {
    fields != [] &&
    var earlier := fields[..|fields| - 1];
    ChecksSpeed(earlier, before) ||
    match fields[|fields| - 1]
    case Speed(value) => value != SpeedAfter(earlier, before.speed)
    case AdvSpeeds(value) => value != AdvertisedAfter(earlier, before.advSpeeds)
    case AutoNeg(value) => (value == "on") != NegotiatesAfter(earlier, before.autoNeg)
    case _ => false
  }

  predicate SetsMtu(fields: seq<Field>, before: PortInfo) {
    fields != [] &&
    var earlier := fields[..|fields| - 1];
    SetsMtu(earlier, before) ||
    match fields[|fields| - 1]
    case Mtu(value) => value != MtuAfter(earlier, before.mtu)
    case _ => false
  }

  /** The settings of a port after a PORT event; an initializing port that becomes ready has an MTU. */
  predicate ConfigFollows(fields: seq<Field>, before: PortInfo, after: PortInfo, cable: string) {
    var mtu := MtuAfter(fields, before.mtu);
    && after.speed == SpeedAfter(fields, before.speed)
    && after.autoNeg == NegotiatesAfter(fields, before.autoNeg)
    && after.advSpeeds == AdvertisedAfter(fields, before.advSpeeds)
    && after.supportedSpeeds == before.supportedSpeeds
    && after.cable == (if before.cable == "" then cable else before.cable)
    && after.mtu == (if before.state == Initializing && Updated(fields, before, after) && mtu == "" then DEFAULT_MTU
                     else mtu)
  }

  /** The event changes what headroom depends on, and all of it is known. */
  predicate Updated(fields: seq<Field>, before: PortInfo, after: PortInfo) {
    && (after.effectiveSpeed != before.effectiveSpeed || SetsMtu(fields, before))
    && after.effectiveSpeed != "" && after.cable != ""
  }

  predicate StateFollows(fields: seq<Field>, before: PortInfo, after: PortInfo) {
    after.state ==
      if !UpAfter(fields, before.state != AdminDown) then AdminDown
      else match before.state
        case AdminDown => if after.effectiveSpeed != "" && after.cable != "" then Ready else Initializing
        case Initializing => if Updated(fields, before, after) then Ready else Initializing
        case Ready =>
          if ChecksSpeed(fields, before) && after.autoNeg && after.effectiveSpeed == "" then Initializing else Ready
  }

  /** What a PORT event asks for: zero buffers, the normal ones with or without a start, or nothing. */
  datatype Treatment = Nothing | TakeDown | Refresh(wasDown: bool)

  function TreatmentFor(fields: seq<Field>, before: PortInfo, after: PortInfo, created: bool): Treatment {
    if !UpAfter(fields, before.state != AdminDown) then
      if before.state != AdminDown || created then TakeDown else Nothing
    else if before.state == AdminDown then Refresh(true)
    else if Updated(fields, before, after) then Refresh(false)
    else Nothing
  }

  /** A known port stays so, unless it is ready, stays up, and is left with neither a speed nor negotiation. */
  lemma KnownAfter(fields: seq<Field>, before: PortInfo, after: PortInfo)
    requires Derived(before) && Derived(after) && StateFollows(fields, before, after) && Known(before)
    requires after.cable == before.cable || before.cable == ""
    requires !ChecksSpeed(fields, before) ==> after.effectiveSpeed == before.effectiveSpeed
    ensures Known(after) <==> !(before.state == Ready && UpAfter(fields, true) && !after.autoNeg && after.speed == "")
  {
  }

  /** A ready port has a speed and a cable length. */
  predicate Known(info: PortInfo) {
    info.state == Ready ==> info.effectiveSpeed != "" && info.cable != ""
  }

  // ---------- cable lengths ----------

  /** A port that learns a cable length; if its speed is known, it is ready, with the default MTU if it has none. */
  function WithCable(info: PortInfo, cable: string): PortInfo {
    if info.cable == cable || info.effectiveSpeed == "" then info.(cable := cable)
    else info.(cable := cable, mtu := if info.mtu == "" then DEFAULT_MTU else info.mtu,
               state := if info.state == Initializing then Ready else info.state)
  }

  /** Only the groups of a port that is ready for a new length are refreshed. */
  function Answer(info: PortInfo, cable: string, refresh: Status): Status {
    if info.cable != cable && info.effectiveSpeed != "" && info.state != AdminDown then refresh else Success
  }

  function InfoIn(ports: map<string, PortInfo>, port: string): PortInfo {
    if port in ports then ports[port] else NEW_PORT
  }

  /** The ports, and the lengths cached for ports to come, after the first `n` lengths of an event. */
  function TableAfter(ports: map<string, PortInfo>, lengths: seq<(string, string)>, n: nat): map<string, PortInfo>
    requires n <= |lengths|
  {
    if n == 0 then ports
    else
      var table, (port, cable) := TableAfter(ports, lengths, n - 1), lengths[n - 1];
      table[port := WithCable(InfoIn(table, port), cable)]
  }

  function LengthsOf(lengths: seq<(string, string)>, n: nat): map<string, string>
    requires n <= |lengths|
  {
    if n == 0 then map[] else LengthsOf(lengths, n - 1)[lengths[n - 1].0 := lengths[n - 1].1]
  }

  function AnswerAt(ports: map<string, PortInfo>, lengths: seq<(string, string)>, refresh: string -> Status,
                    i: int): Status
    requires 0 <= i < |lengths|
  {
    Answer(InfoIn(TableAfter(ports, lengths, i), lengths[i].0), lengths[i].1, refresh(lengths[i].0))
  }

  /** No refresh asks for a retry, or one fails, among the first `n` lengths. */
  ghost predicate NoRetry(ports: map<string, PortInfo>, lengths: seq<(string, string)>, refresh: string -> Status,
                          n: int)
    requires n <= |lengths|
  {
    forall i | 0 <= i < n :: AnswerAt(ports, lengths, refresh, i) != NeedRetry
  }

  ghost predicate SomeFailed(ports: map<string, PortInfo>, lengths: seq<(string, string)>, refresh: string -> Status,
                             n: int)
    requires n <= |lengths|
  {
    exists i | 0 <= i < n :: AnswerAt(ports, lengths, refresh, i) == Failed
  }

  lemma NextAnswer(ports: map<string, PortInfo>, lengths: seq<(string, string)>, refresh: string -> Status, n: nat)
    requires n < |lengths|
    ensures var answer := AnswerAt(ports, lengths, refresh, n);
            && (NoRetry(ports, lengths, refresh, n) && answer != NeedRetry ==> NoRetry(ports, lengths, refresh, n + 1))
            && (SomeFailed(ports, lengths, refresh, n + 1) <==>
                  SomeFailed(ports, lengths, refresh, n) || answer == Failed)
  {
  }

  /** Every port of an event ends with the last length given for it. */
  lemma {:induction false} LastLength(ports: map<string, PortInfo>, lengths: seq<(string, string)>, n: nat,
                                      port: string)
    requires n <= |lengths|
    ensures InfoIn(TableAfter(ports, lengths, n), port).cable
            == if port in LengthsOf(lengths, n) then LengthsOf(lengths, n)[port] else InfoIn(ports, port).cable
    ensures port in LengthsOf(lengths, n) <==> exists i | 0 <= i < n :: lengths[i].0 == port
  {
    if n > 0 { LastLength(ports, lengths, n - 1, port); }
  }

  /** A port with what the fields of a PORT event leave. */
  function Taken(fields: seq<Field>, before: PortInfo): PortInfo {
    before.(speed := SpeedAfter(fields, before.speed), mtu := MtuAfter(fields, before.mtu),
            advSpeeds := AdvertisedAfter(fields, before.advSpeeds), autoNeg := NegotiatesAfter(fields, before.autoNeg))
  }

  lemma OneMoreField(fields: seq<Field>, before: PortInfo, i: nat)
    requires i < |fields|
    ensures var earlier, info := fields[..i], Taken(fields[..i], before);
            && Taken(fields[..i + 1], before)
               == (match fields[i]
                   case Speed(value) => info.(speed := value)
                   case Mtu(value) => info.(mtu := value)
                   case AdvSpeeds(value) => info.(advSpeeds := if value == "all" != info.advSpeeds then "" else value)
                   case AutoNeg(value) => info.(autoNeg := value == "on")
                   case _ => info)
            && UpAfter(fields[..i + 1], before.state != AdminDown)
               == (if fields[i].AdminStatus? then fields[i].value == "up"
                   else UpAfter(earlier, before.state != AdminDown))
            && (ChecksSpeed(fields[..i + 1], before) <==>
                  ChecksSpeed(earlier, before) ||
                  match fields[i]
                  case Speed(value) => value != info.speed
                  case AdvSpeeds(value) => value != info.advSpeeds
                  case AutoNeg(value) => (value == "on") != info.autoNeg
                  case _ => false)
            && (SetsMtu(fields[..i + 1], before) <==>
                  SetsMtu(earlier, before) || (fields[i].Mtu? && fields[i].value != info.mtu))
  {
    assert fields[..i + 1][..i] == fields[..i];
  }

  /** The fields of a PORT event in their order. */
  method TakeFields(before: PortInfo, fields: seq<Field>)
    returns (info: PortInfo, checkSpeed: bool, mtuUpdated: bool, adminUpdated: bool, adminUp: bool)
    ensures info == Taken(fields, before) && (!checkSpeed ==> info == before.(mtu := info.mtu))
    ensures checkSpeed == ChecksSpeed(fields, before) && mtuUpdated == SetsMtu(fields, before)
    ensures (if adminUpdated then adminUp else before.state != AdminDown) == UpAfter(fields, before.state != AdminDown)
    ensures adminUpdated ==> adminUp == (before.state == AdminDown)
  {
    ghost var up := before.state != AdminDown;
    info, checkSpeed, mtuUpdated, adminUpdated, adminUp := before, false, false, false, false;
    for i := 0 to |fields|
      invariant info == Taken(fields[..i], before) && (!checkSpeed ==> info == before.(mtu := info.mtu))
      invariant checkSpeed == ChecksSpeed(fields[..i], before) && mtuUpdated == SetsMtu(fields[..i], before)
      invariant (if adminUpdated then adminUp else up) == UpAfter(fields[..i], up) && (adminUpdated ==> adminUp != up)
    {
      OneMoreField(fields, before, i);
      match fields[i] {
        case Speed(value) =>
          if value != info.speed {
            checkSpeed, info := true, info.(speed := value);
          }
        case Mtu(value) =>
          if value != info.mtu {
            mtuUpdated, info := true, info.(mtu := value);
          }
        case AdminStatus(value) =>
          adminUp := value == "up";
          adminUpdated := adminUp != (info.state != AdminDown);
        case AdvSpeeds(value) =>
          if value != info.advSpeeds {
            checkSpeed, info := true, info.(advSpeeds := if value == "all" then "" else value);
          }
        case AutoNeg(value) =>
          if (value == "on") != info.autoNeg {
            checkSpeed, info := true, info.(autoNeg := value == "on");
          }
        case Other(_) =>
      }
    }
    assert fields[..|fields|] == fields;
  }

  /** needRefreshPortDueToEffectiveSpeed: without any speed to choose from, a ready port is not ready any more. */
  method NeedRefreshPort(before: PortInfo) returns (info: PortInfo, changed: bool)
    ensures Derived(info) && changed == (info.effectiveSpeed != before.effectiveSpeed)
    ensures info == before.(effectiveSpeed := info.effectiveSpeed, state := info.state)
    ensures info.state ==
      if before.state == Ready && before.autoNeg && info.effectiveSpeed == "" then Initializing else before.state
  {
    var speed := "";
    info := before;
    if info.autoNeg {
      ghost var max;
      if IsNonZero(info.advSpeeds) {
        speed, max := GetMaxSpeedFromList(info.advSpeeds);
      } else if IsNonZero(info.supportedSpeeds) {
        speed, max := GetMaxSpeedFromList(info.supportedSpeeds);
      } else if info.state == Ready {
        info := info.(state := Initializing);
      }
    } else {
      speed := info.speed;
    }
    changed := speed != info.effectiveSpeed;
    if changed {
      info := info.(effectiveSpeed := speed);
    }
  }

  /** The speed is derived only when a field asks for it; nothing else can change it. */
  method CheckSpeed(ghost before: PortInfo, taken: PortInfo, check: bool) returns (info: PortInfo, updated: bool)
    requires Derived(before) && (!check ==> taken == before.(mtu := taken.mtu))
    ensures Derived(info) && updated == (info.effectiveSpeed != taken.effectiveSpeed) && (!check ==> info == taken)
    ensures info == taken.(effectiveSpeed := info.effectiveSpeed, state := info.state)
    ensures info.state ==
      if check && taken.state == Ready && taken.autoNeg && info.effectiveSpeed == "" then Initializing else taken.state
  {
    info, updated := taken, false;
    if check {
      info, updated := NeedRefreshPort(info);
    } else {
      SameSpeed(before, info);
    }
  }

  /** The state changes of handlePortTable, after the fields have been taken; `created` when the port is new. */
  method MoveState(before: PortInfo, updated: bool, adminUpdated: bool, adminUp: bool, created: bool)
    returns (info: PortInfo, treatment: Treatment)
    requires (adminUpdated ==> adminUp == (before.state == AdminDown)) && (created ==> before.state == AdminDown)
    ensures var known := before.effectiveSpeed != "" && before.cable != "";
            var up := if adminUpdated then adminUp else before.state != AdminDown;
            && info == before.(state := info.state, mtu := info.mtu)
            && info.mtu == (if before.state == Initializing && updated && known && before.mtu == "" then DEFAULT_MTU
                            else before.mtu)
            && info.state == (if !up then AdminDown
                              else if before.state == Ready then Ready
                              else if known && (updated || before.state == AdminDown) then Ready
                              else Initializing)
            && treatment == (if !up && (before.state != AdminDown || created) then TakeDown
                             else if up && before.state == AdminDown then Refresh(true)
                             else if up && updated && known then Refresh(false)
                             else Nothing)
  {
    info := before;
    var refresh, down, wasDown := false, false, false;
    if updated && info.cable != "" && info.effectiveSpeed != "" {
      match info.state {
        case Initializing =>
          info := info.(state := Ready, mtu := if info.mtu == "" then DEFAULT_MTU else info.mtu);
          refresh := true;
        case Ready =>
          refresh := true;
        case AdminDown =>
      }
    }
    if adminUpdated {
      if adminUp {
        info := info.(state := if info.effectiveSpeed != "" && info.cable != "" then Ready else Initializing);
        refresh, wasDown := true, true;
      } else {
        info := info.(state := AdminDown);
        down := true;
      }
    } else if created {
      down := true;
    }
    treatment := if down then TakeDown else if refresh then Refresh(wasDown) else Nothing;
  }

  /** The port after a PORT event; `cable` is the length cached for ports to come. */
  method NextInfo(before: PortInfo, fields: seq<Field>, cable: string, created: bool)
    returns (next: PortInfo, treatment: Treatment)
    requires Derived(before) && (created ==> before.state == AdminDown)
    ensures Derived(next) && ConfigFollows(fields, before, next, cable) && StateFollows(fields, before, next)
    ensures !ChecksSpeed(fields, before) ==> next.effectiveSpeed == before.effectiveSpeed
    ensures treatment == TreatmentFor(fields, before, next, created)
  {
    var info, checkSpeed, mtuUpdated, adminUpdated, adminUp := TakeFields(before, fields);
    var speedUpdated;
    info, speedUpdated := CheckSpeed(before, info, checkSpeed);
    if info.cable == "" && cable != "" {
      info := info.(cable := cable);
    }
    next, treatment := MoveState(info, speedUpdated || mtuUpdated, adminUpdated, adminUp, created);
    SameSpeed(info, next);
  }

  class PortTable {
    var ports: map<string, PortInfo>
    var cables: map<string, string>

    /** Whatever happens, the effective speed follows from the rest. */
    ghost predicate AllDerived()
      reads this`ports
    {
      forall port <- ports.Keys :: Derived(ports[port])
    }

    predicate AllKnown()
      reads this`ports
    {
      forall port <- ports.Keys :: Known(ports[port])
    }

    constructor ()
      ensures ports == map[] && cables == map[] && AllDerived() && AllKnown()
    {
      ports, cables := map[], map[];
    }

    function Info(port: string): PortInfo
      reads this`ports
    {
      InfoIn(ports, port)
    }

    /**
      handlePortTable, SET.  A fully known port stays so, unless it is ready, stays
      up, and is left with neither a configured speed nor negotiation.
     */
    method SetPort(port: string, fields: seq<Field>) returns (treatment: Treatment)
      requires AllDerived()
      modifies this`ports
      ensures AllDerived() && ports.Keys == old(ports.Keys) + {port}
      ensures forall q <- old(ports.Keys) - {port} :: ports[q] == old(ports)[q]
      ensures ConfigFollows(fields, old(Info(port)), ports[port], if port in cables then cables[port] else "")
      ensures StateFollows(fields, old(Info(port)), ports[port])
      ensures treatment == TreatmentFor(fields, old(Info(port)), ports[port], port !in old(ports))
      ensures var before, after := old(Info(port)), ports[port];
              Known(before) ==>
                (Known(after) <==> !(&& before.state == Ready && UpAfter(fields, true)
                                     && !after.autoNeg && after.speed == ""))
    {
      assert IsEffective(NEW_PORT, "");
      var cable := if port in cables then cables[port] else "";
      var next;
      next, treatment := NextInfo(Info(port), fields, cable, port !in ports);
      if Known(Info(port)) { KnownAfter(fields, Info(port), next); }
      ports := ports[port := next];
    }

    /** handlePortTable, DEL: a port that still has buffer items is kept. */
    method DelPort(port: string, hasItems: bool) returns (status: Status)
      requires AllDerived()
      modifies this`ports
      ensures AllDerived() && (old(AllKnown()) ==> AllKnown())
      ensures ports == if hasItems then old(ports)[port := old(Info(port))] else old(ports) - {port}
      ensures status == if hasItems then NeedRetry else Success
    {
      ports := ports[port := Info(port)];
      if hasItems {
        return NeedRetry;
      }
      ports := ports - {port};
      status := Success;
    }

    /** handlePortStateTable: an empty report makes a port that negotiates ready without a speed. */
    method SetSupportedSpeeds(port: string, speeds: string)
      requires AllDerived()
      modifies this`ports
      ensures AllDerived() && ports.Keys == old(ports.Keys) + {port}
      ensures forall q <- old(ports.Keys) - {port} :: ports[q] == old(ports)[q]
      ensures var before, after := old(Info(port)), ports[port];
              && after == before.(supportedSpeeds := speeds, effectiveSpeed := after.effectiveSpeed,
                                   state := after.state)
              && (before.cable == "" && before.state != Ready ==> after.state == before.state)
              && (Known(before) ==>
                    (Known(after) <==> !(&& before.supportedSpeeds != speeds && !IsNonZero(speeds)
                                         && before.autoNeg && !IsNonZero(before.advSpeeds)
                                         && before.effectiveSpeed != ""
                                         && IsNonZero(before.cable) && before.state != AdminDown)))
    {
      var info := Info(port);
      if speeds != info.supportedSpeeds {
        ghost var before := info;
        info := info.(supportedSpeeds := speeds);
        if info.autoNeg {
          var changed;
          info, changed := NeedRefreshPort(info);
          if changed && IsNonZero(info.cable) && info.state != AdminDown {
            info := info.(state := Ready);
          }
        } else {
          assert Derived(before);
        }
      }
      ports := ports[port := info];
    }

    /** One field of a CABLE_LENGTH event: an empty length leaves a port ready without a cable. */
    method SetCable(port: string, cable: string, refresh: Status) returns (status: Status)
      requires AllDerived()
      modifies this`ports, this`cables
      ensures AllDerived() && ports.Keys == old(ports.Keys) + {port}
      ensures forall q <- old(ports.Keys) - {port} :: ports[q] == old(ports)[q]
      ensures var before, after := old(Info(port)), ports[port];
              && ports == old(ports)[port := WithCable(before, cable)]
              && after == before.(cable := cable, state := after.state, mtu := after.mtu)
              && status == Answer(before, cable, refresh) && cables == old(cables)[port := cable]
              && after.state == (if before.state == Initializing && cable != before.cable && before.effectiveSpeed != ""
                                 then Ready else before.state)
              && (Known(before) ==>
                    (Known(after) <==>
                       !(cable == "" != before.cable && before.effectiveSpeed != "" && before.state != AdminDown)))
    {
      var info := Info(port);
      ghost var before := info;
      cables := cables[port := cable];
      status := Success;
      if info.cable != cable {
        info := info.(cable := cable);
        if info.effectiveSpeed != "" {
          if info.mtu == "" {
            info := info.(mtu := DEFAULT_MTU);
          }
          if info.state == Initializing {
            info := info.(state := Ready);
          }
          status := if info.state == Ready then refresh else Success;
        }
      }
      SameSpeed(before, info);
      ports := ports[port := info];
    }

    /**
      handleCableLenTable; `refresh` tells how refreshing the groups of a port ends.
      The lengths are taken in their order until a refresh asks for a retry; one that
      fails does not stop them.
     */
    method SetCables(lengths: seq<(string, string)>, refresh: string -> Status)
      returns (status: Status, ghost done: nat)
      requires AllDerived()
      modifies this`ports, this`cables
      ensures AllDerived() && done <= |lengths|
      ensures old(AllKnown()) && (forall l <- lengths :: l.1 != "") ==> AllKnown()
      ensures cables == LengthsOf(lengths, done) && ports == TableAfter(old(ports), lengths, done)
      ensures status == NeedRetry ==> done > 0 && AnswerAt(old(ports), lengths, refresh, done - 1) == NeedRetry
      ensures NoRetry(old(ports), lengths, refresh, if status == NeedRetry then done - 1 else done)
      ensures status != NeedRetry ==>
        done == |lengths| && (status == Failed <==> SomeFailed(old(ports), lengths, refresh, done))
    {
      cables, done := map[], 0;
      var failed := 0;
      for i := 0 to |lengths|
        invariant AllDerived() && done == i
        invariant old(AllKnown()) && (forall l <- lengths :: l.1 != "") ==> AllKnown()
        invariant cables == LengthsOf(lengths, i) && ports == TableAfter(old(ports), lengths, i)
        invariant NoRetry(old(ports), lengths, refresh, i)
        invariant failed > 0 <==> SomeFailed(old(ports), lengths, refresh, i)
      {
        ghost var before := ports;
        var rc := SetCable(lengths[i].0, lengths[i].1, refresh(lengths[i].0));
        NextAnswer(old(ports), lengths, refresh, i);
        done := i + 1;
        if rc == NeedRetry {
          return rc, done;
        }
        if rc == Failed {
          failed := failed + 1;
        }
      }
      status := if failed > 0 then Failed else Success;
    }

    /** doRemovePgTask puts the state of a port right again. */
    method AfterRemovingPg(port: string)
      requires AllDerived() && port in ports
      modifies this`ports
      ensures AllDerived() && port in ports && Known(ports[port]) && ports == old(ports)[port := ports[port]]
    {
      var info := ports[port];
      if info.state != AdminDown {
        info := info.(state := if info.effectiveSpeed != "" && info.cable != "" then Ready else Initializing);
      }
      SameSpeed(ports[port], info);
      ports := ports[port := info];
    }
  }

  /** Only the speeds and the negotiation mode matter to the effective speed. */
  lemma SameSpeed(before: PortInfo, after: PortInfo)
    requires Derived(before)
    requires after == before.(state := after.state, cable := after.cable, mtu := after.mtu)
    ensures Derived(after)
  {
  }

  // ---------- ready ports with something missing ----------

  method ReadyPort() returns (t: PortTable)
    ensures fresh(t) && t.AllDerived() && "Ethernet0" in t.ports
    ensures var info := t.ports["Ethernet0"];
            Known(info) && info.state == Ready && !info.autoNeg
              && info.speed == info.effectiveSpeed == "100000" && info.cable == "5m"
  {
    t := new PortTable();
    var fields := [Speed("100000"), AdminStatus("up")];
    assert fields[..|fields| - 1] == [Speed("100000")];
    assert SpeedAfter([Speed("100000")], "") == "100000";
    assert UpAfter(fields, false) && !NegotiatesAfter(fields, false) && SpeedAfter(fields, "") == "100000";
    var treatment := t.SetPort("Ethernet0", fields);
    var status := t.SetCable("Ethernet0", "5m", Success);
  }

  /** Clearing the speed of a port that does not negotiate leaves it ready without one. */
  method ReadyWithoutSpeed() returns (t: PortTable)
    ensures fresh(t) && t.AllDerived() && !t.AllKnown()
  {
    t := ReadyPort();
    var treatment := t.SetPort("Ethernet0", [Speed("")]);
  }

  /** Clearing its cable length leaves a port ready without one. */
  method ReadyWithoutCable() returns (t: PortTable)
    ensures fresh(t) && t.AllDerived() && !t.AllKnown()
  {
    t := ReadyPort();
    var status := t.SetCable("Ethernet0", "", Success);
  }

  method NegotiatingPort() returns (t: PortTable)
    ensures fresh(t) && t.AllDerived() && "Ethernet0" in t.ports
    ensures var info := t.ports["Ethernet0"];
            && Known(info) && info.state != AdminDown && info.autoNeg && info.cable == "5m" && info.effectiveSpeed != ""
            && info.advSpeeds == "" && info.supportedSpeeds == "100000"
  {
    t := new PortTable();
    var fields := [AutoNeg("on"), AdminStatus("up")];
    assert fields[..|fields| - 1] == [AutoNeg("on")];
    assert UpAfter(fields, false) && NegotiatesAfter(fields, false) && AdvertisedAfter(fields, "") == "";
    var treatment := t.SetPort("Ethernet0", fields);
    t.SetSupportedSpeeds("Ethernet0", "100000");
    var status := t.SetCable("Ethernet0", "5m", Success);
  }

  /** A port that negotiates is ready without a speed once its supported speeds are reported empty. */
  method ReadyWithoutSupportedSpeeds() returns (t: PortTable)
    ensures fresh(t) && t.AllDerived() && !t.AllKnown()
  {
    t := NegotiatingPort();
    t.SetSupportedSpeeds("Ethernet0", "");
  }
}
