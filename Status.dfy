/** The four-line status text that reading the device returns, and a
    decoder showing that the text reports the mode, the rate, the three
    lights and pedestrian presence exactly. */
module Status {
  import opened Unsigned
  import opened Traffic

  /** The `snprintf` stack buffer of the read path. */
  const KBUF_SIZE: nat := 256

  function ModeLine(m: Mode): string
  {
    match m
    case Normal => "Mode: normal\n"
    case FlashingRed => "Mode: flashing-red\n"
    case FlashingYellow => "Mode: flashing-yellow\n"
  }

  function RateLine(rate: nat): string
  {
    "Cycle Rate: " + Format(rate) + " Hz\n"
  }

  function OnOff(b: bool): string
  {
    if b then "on" else "off"
  }

  function LightsLine(l: Lights): string
  {
    "Lights: red " + OnOff(l.red) + ", yellow " + OnOff(l.yellow) + ", green " + OnOff(l.green) + "\n"
  }

  function PedLine(present: bool): string
  {
    if present then "Pedestrian: present\n" else "Pedestrian: not present\n"
  }

  /** A pedestrian is reported present while waiting or crossing. */
  predicate PedestrianPresent(s: Ctrl)
  {
    s.pedRequested || s.pedCrossing
  }

  /** The text `mytraffic_read` builds in its buffer. */
  function StatusText(s: Ctrl): string
  {
    ModeLine(s.mode) + RateLine(s.rate) + LightsLine(s.lights) + PedLine(PedestrianPresent(s))
  }

  /** What a reader of the status learns. */
  datatype Report = Report(mode: Mode, rate: nat, lights: Lights, present: bool)

  function Observe(s: Ctrl): Report
  {
    Report(s.mode, s.rate, s.lights, PedestrianPresent(s))
  }

  // ---------------------------------------------------------------------
  // Reading the text back

  /** The rest of `t` after the literal `lit`, if `t` starts with it. */
  function Strip(lit: string, t: string): (r: Option<string>)
    ensures r.Some? ==> lit + r.value == t
  {
    if lit <= t then Some(t[|lit|..]) else None
  }

  function DecodeMode(t: string): Option<(Mode, string)>
  {
    if "Mode: normal\n" <= t then Some((Normal, t[13..]))
    else if "Mode: flashing-red\n" <= t then Some((FlashingRed, t[19..]))
    else if "Mode: flashing-yellow\n" <= t then Some((FlashingYellow, t[22..]))
    else None
  }

  function DecodeRate(t: string): Option<(nat, string)>
  {
    match Strip("Cycle Rate: ", t)
    case None => None
    case Some(t1) =>
      var d := DigitRun(t1);
      if d == [] then None
      else match Strip(" Hz\n", t1[|d|..])
        case None => None
        case Some(t2) => Some((Value(d), t2))
  }

  function DecodeSwitch(t: string): Option<(bool, string)>
  {
    if "on" <= t then Some((true, t[2..]))
    else if "off" <= t then Some((false, t[3..]))
    else None
  }

  /** Strips `lit` and then reads one "on"/"off". */
  function DecodeLabelled(lit: string, t: string): Option<(bool, string)>
  {
    match Strip(lit, t)
    case None => None
    case Some(t1) => DecodeSwitch(t1)
  }

  function DecodeLights(t: string): Option<(Lights, string)>
  {
    match DecodeLabelled("Lights: red ", t)
    case None => None
    case Some((r, t1)) =>
      match DecodeLabelled(", yellow ", t1)
      case None => None
      case Some((y, t2)) =>
        match DecodeLabelled(", green ", t2)
        case None => None
        case Some((g, t3)) =>
          match Strip("\n", t3)
          case None => None
          case Some(t4) => Some((Lights(r, y, g), t4))
  }

  function DecodePed(t: string): Option<bool>
  {
    if t == "Pedestrian: present\n" then Some(true)
    else if t == "Pedestrian: not present\n" then Some(false)
    else None
  }

  /** Reads a whole status text back into a report. */
  function DecodeStatus(t: string): Option<Report>
  {
    match DecodeMode(t)
    case None => None
    case Some((m, t1)) =>
      match DecodeRate(t1)
      case None => None
      case Some((rate, t2)) =>
        match DecodeLights(t2)
        case None => None
        case Some((l, t3)) =>
          match DecodePed(t3)
          case None => None
          case Some(p) => Some(Report(m, rate, l, p))
  }

  lemma StripConcat(lit: string, rest: string)
    ensures Strip(lit, lit + rest) == Some(rest)
  {
    assert (lit + rest)[..|lit|] == lit;
    assert (lit + rest)[|lit|..] == rest;
  }

  lemma DecodeModeLine(m: Mode, rest: string)
    ensures DecodeMode(ModeLine(m) + rest) == Some((m, rest))
  {
    var t := ModeLine(m) + rest;
    assert t[..|ModeLine(m)|] == ModeLine(m);
    assert t[|ModeLine(m)|..] == rest;
    if m != Normal {
      assert t[6] == 'f';
      assert !("Mode: normal\n" <= t);
      if m == FlashingYellow {
        assert t[15] == 'y';
        assert !("Mode: flashing-red\n" <= t);
      }
    }
  }

  lemma DecodeRateLine(n: nat, rest: string)
    ensures DecodeRate(RateLine(n) + rest) == Some((n, rest))
  {
    var f := Format(n);
    var t1 := f + (" Hz\n" + rest);
    assert RateLine(n) + rest == "Cycle Rate: " + t1;
    StripConcat("Cycle Rate: ", t1);
    DigitRunOfDigits(f, " Hz\n" + rest);
    assert t1[|f|..] == " Hz\n" + rest;
    StripConcat(" Hz\n", rest);
    ValueOfFormat(n);
  }

  lemma DecodeOnOff(b: bool, rest: string)
    requires rest != [] && rest[0] != 'f'
    ensures DecodeSwitch(OnOff(b) + rest) == Some((b, rest))
  {
    var t := OnOff(b) + rest;
    assert t[..|OnOff(b)|] == OnOff(b);
    assert t[|OnOff(b)|..] == rest;
    if !b {
      assert t[1] == 'f';
      assert !("on" <= t);
    } else {
      assert t[..2] == "on";
    }
  }

  lemma DecodeLabelledOk(lit: string, b: bool, rest: string)
    requires rest != [] && rest[0] != 'f'
    ensures DecodeLabelled(lit, lit + (OnOff(b) + rest)) == Some((b, rest))
  {
    StripConcat(lit, OnOff(b) + rest);
    DecodeOnOff(b, rest);
  }

  lemma DecodeLightsLine(l: Lights, rest: string)
    ensures DecodeLights(LightsLine(l) + rest) == Some((l, rest))
  {
    var t3 := "\n" + rest;
    var t2 := ", green " + (OnOff(l.green) + t3);
    var t1 := ", yellow " + (OnOff(l.yellow) + t2);
    Concat8("Lights: red ", OnOff(l.red), ", yellow ", OnOff(l.yellow), ", green ",
      OnOff(l.green), "\n", rest);
    DecodeLabelledOk("Lights: red ", l.red, t1);
    DecodeLabelledOk(", yellow ", l.yellow, t2);
    DecodeLabelledOk(", green ", l.green, t3);
    StripConcat("\n", rest);
  }

  lemma Concat8(a: string, b: string, c: string, d: string, e: string, f: string,
                g: string, r: string)
    ensures a + b + c + d + e + f + g + r == a + (b + (c + (d + (e + (f + (g + r))))))
  {
  }

  /** Round trip: decoding the status text of any state gives exactly the
      mode, the rate, the lights and whether a pedestrian is waiting or
      crossing. */
  lemma DecodeStatusText(s: Ctrl)
    ensures DecodeStatus(StatusText(s)) == Some(Observe(s))
  {
    var a, b, c, d := ModeLine(s.mode), RateLine(s.rate), LightsLine(s.lights), PedLine(PedestrianPresent(s));
    Concat4(a, b, c, d);
    DecodeLines(s.mode, s.rate, s.lights, PedestrianPresent(s));
  }

  lemma Concat4(a: string, b: string, c: string, d: string)
    ensures a + b + c + d == a + (b + (c + d))
  {
  }

  lemma DecodeLines(m: Mode, rate: nat, l: Lights, p: bool)
    ensures DecodeStatus(ModeLine(m) + (RateLine(rate) + (LightsLine(l) + PedLine(p))))
      == Some(Report(m, rate, l, p))
  {
    var t2 := LightsLine(l) + PedLine(p);
    var t1 := RateLine(rate) + t2;
    DecodeModeLine(m, t1);
    DecodeRateLine(rate, t2);
    DecodeLightsLine(l, PedLine(p));
    DecodePedLine(p);
    DecodeStages(ModeLine(m) + t1, m, t1, rate, t2, l, PedLine(p), p);
  }

  lemma DecodePedLine(p: bool)
    ensures DecodePed(PedLine(p)) == Some(p)
  {
    if !p {
      assert |PedLine(p)| != |"Pedestrian: present\n"|;
    }
  }

  /** `DecodeStatus` succeeds when each of its stages does. */
  lemma DecodeStages(t: string, m: Mode, t1: string, rate: nat, t2: string, l: Lights,
                     t3: string, p: bool)
    requires DecodeMode(t) == Some((m, t1))
    requires DecodeRate(t1) == Some((rate, t2))
    requires DecodeLights(t2) == Some((l, t3))
    requires DecodePed(t3) == Some(p)
    ensures DecodeStatus(t) == Some(Report(m, rate, l, p))
  {
  }

  /** Two states with the same status text agree on everything it reports;
      in particular "present" is shown exactly when a pedestrian is waiting
      or crossing. */
  lemma StatusTextFaithful(s1: Ctrl, s2: Ctrl)
    requires StatusText(s1) == StatusText(s2)
    ensures s1.mode == s2.mode && s1.rate == s2.rate && s1.lights == s2.lights
    ensures (s1.pedRequested || s1.pedCrossing) == (s2.pedRequested || s2.pedCrossing)
  {
    DecodeStatusText(s1);
    DecodeStatusText(s2);
  }

  /** The text ends in "Pedestrian: present" exactly when a pedestrian is
      waiting or crossing. */
  lemma PresentLine(s: Ctrl)
    ensures StatusText(s)[|StatusText(s)| - 20..] == "Pedestrian: present\n"
      <==> s.pedRequested || s.pedCrossing
  {
    EndsWithPedLine(ModeLine(s.mode) + RateLine(s.rate) + LightsLine(s.lights),
      PedestrianPresent(s));
  }

  lemma EndsWithPedLine(front: string, p: bool)
    ensures var t := front + PedLine(p);
      t[|t| - 20..] == "Pedestrian: present\n" <==> p
  {
    var ped := PedLine(p);
    var t := front + ped;
    assert t[|t| - |ped|..] == ped;
    if !p {
      assert t[|t| - 20..] == ped[4..];
      assert ped[4..][0] == 's';
    }
  }

  /** For any rate an `unsigned int` can hold the text fits the 256-byte
      buffer with room to spare, so `snprintf` never truncates. */
  lemma StatusTextFits(s: Ctrl)
    requires s.rate < UINT_MOD
    ensures |StatusText(s)| < KBUF_SIZE
  {
    FormatLengthUint(s.rate);
  }
}
