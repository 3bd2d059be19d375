/** The RTTY telemetry sentence that `send_rtty_packet` prints into `buf_rtty`
    (main.c:325-351), as pure functions over strings, together with a
    ground-station decoder that reads every field back. */
module Sentence {
  import opened CTypes
  import opened Format
  import opened Crc16

  /** Latitude and longitude are degrees scaled by 10^7. */
  const DegScale: nat := 10_000_000

  /** A coordinate the receiver can report: at most 180 degrees either way. */
  type Coord = x: int | -1_800_000_000 <= x <= 1_800_000_000

  /** The fields of the receiver's last report that the sentence uses. */
  datatype GpsFix = GpsFix(
    fix: uint8,
    latRaw: Coord,
    lonRaw: Coord,
    altRaw: int32,     // millimetres
    speedRaw: int32,
    satsRaw: uint8,
    hours: uint8,
    minutes: uint8,
    seconds: uint8)

  /** `voltage = ADC0 * 600 / 4096` of a 16-bit reading stays below 10000. */
  type Voltage = v: int | 0 <= v < 10000

  /** `char callsign[15]`: at most 14 non-NUL bytes before the terminator. */
  predicate ValidCallsign(c: string) {
    |c| <= 14 && Printable(c)
  }

  /** The globals the sentence is printed from. */
  datatype Telemetry = Telemetry(
    callsign: string,
    sendCount: uint32,
    gps: GpsFix,
    voltage: Voltage,
    temperature: int8)

  predicate ValidTelemetry(t: Telemetry) {
    ValidCallsign(t.callsign)
  }

  // ---------------------------------------------------------------------
  // Coordinates (main.c:329-332, 340-341)

  /** `lat_d`: the whole degrees, |raw / 10^7| with C's truncating division. */
  function Degrees(raw: Coord): (d: uint8)
    ensures d <= 180
  {
    var q := CDiv(raw, DegScale);
    assert -180 <= q <= 180;
    Abs(q)
  }

  /** The whole degrees are |raw| / 10^7. */
  lemma DegreesBracket(raw: Coord)
    ensures Degrees(raw) * DegScale <= Abs(raw) < (Degrees(raw) + 1) * DegScale
  {
    var q := CDiv(raw, DegScale);
    assert Abs(q) * DegScale <= Abs(raw) < (Abs(q) + 1) * DegScale;
  }

  /** `lat_fl`: the ten-thousandths of a degree left after the whole degrees. */
  function Fraction(raw: Coord): (f: nat)
    ensures f < 10000
  {
    DegreesBracket(raw);
    (Abs(raw) - Degrees(raw) * DegScale) / 1000
  }

  /** The fraction is what remains below the whole degrees, in thousandths
      of the raw unit. */
  lemma FractionBracket(raw: Coord)
    ensures Fraction(raw) * 1000 <= Abs(raw) - Degrees(raw) * DegScale < (Fraction(raw) + 1) * 1000
  {
    DegreesBracket(raw);
    var r := Abs(raw) - Degrees(raw) * DegScale;
    assert r == (r / 1000) * 1000 + r % 1000;
  }

  /** `%s%d.%04ld`: an optional minus sign, the degrees, a point and four
      fraction digits. */
  function Coordinate(raw: Coord): string {
    (if raw < 0 then "-" else "") + Magnitude(raw)
  }

  /** `%d.%04ld` of the degrees and the fraction. */
  function Magnitude(raw: Coord): string {
    Digits(Degrees(raw)) + "." + ZeroPadded(Fraction(raw), 4)
  }

  /** The rendering starts with a minus sign exactly when the raw value is
      negative, even when the whole degrees are zero. */
  lemma CoordinateSign(raw: Coord)
    ensures Coordinate(raw)[0] == '-' <==> raw < 0
  {
    var d := Digits(Degrees(raw));
    assert IsDigit(d[0]);
  }

  /** Half a degree south prints as "-0.5000". */
  lemma HalfDegreeSouth()
    ensures Coordinate(-5_000_000) == "-0.5000"
  {
    assert Degrees(-5_000_000) == 0;
    assert Fraction(-5_000_000) == 5000;
    assert Digits(5000) == "5000" by {
      assert Digits(5) == "5";
      assert Digits(50) == "50";
      assert Digits(500) == "500";
    }
    assert ZeroPadded(5000, 4) == "5000";
  }

  /** Degrees and fraction together are |raw| / 1000, the raw value
      truncated to ten-thousandths of a degree. */
  lemma DegreesFraction(raw: Coord)
    ensures Degrees(raw) * 10000 + Fraction(raw) == Abs(raw) / 1000
  {
    DegreesBracket(raw);
    FractionBracket(raw);
    var x := Degrees(raw) * 10000 + Fraction(raw);
    assert x * 1000 == Degrees(raw) * DegScale + Fraction(raw) * 1000;
    DivBetween(Abs(raw), 1000, x);
  }

  /** The ground station's reading of a coordinate, in ten-thousandths of a
      degree. */
  function ParseCoordinate(s: string): Option<int> {
    var neg := |s| > 0 && s[0] == '-';
    var u := if neg then s[1..] else s;
    var p := Split(u, '.');
    if |p| != 2 || |p[1]| != 4 then None
    else
      var d :- ParseUnsigned(p[0]);
      var f :- ParseUnsigned(p[1]);
      var m := d * 10000 + f;
      Some(if neg then -m else m)
  }

  /** Reading a printed coordinate back gives the raw value divided by 1000
      with C's truncation: the sign and the first four decimals survive. */
  lemma CoordinateRoundTrip(raw: Coord)
    ensures ParseCoordinate(Coordinate(raw)) == Some(CDiv(raw, 1000))
  {
    MagnitudeParts(raw);
    DegreesFraction(raw);
    ParseSignedMagnitude(raw < 0, Magnitude(raw), Degrees(raw), Fraction(raw));
  }

  lemma ParseSignedMagnitude(neg: bool, u: string, d: nat, f: nat)
    requires var p := Split(u, '.');
      |p| == 2 && |p[1]| == 4 && p[0] != [] && p[0][0] != '-' &&
      ParseUnsigned(p[0]) == Some(d) && ParseUnsigned(p[1]) == Some(f)
    ensures ParseCoordinate((if neg then "-" else "") + u) ==
      Some(if neg then -(d * 10000 + f) else d * 10000 + f)
  {
    var s := (if neg then "-" else "") + u;
    if neg {
      assert s[1..] == u;
    } else {
      assert s == u;
    }
  }

  /** The magnitude splits at its point into the degree digits and exactly
      four fraction digits, which read back as the two numbers. */
  lemma MagnitudeParts(raw: Coord)
    ensures var p := Split(Magnitude(raw), '.');
      |p| == 2 && |p[1]| == 4 && p[0] != [] && p[0][0] != '-' &&
      ParseUnsigned(p[0]) == Some(Degrees(raw) as nat) && ParseUnsigned(p[1]) == Some(Fraction(raw))
  {
    var d, f := Digits(Degrees(raw)), ZeroPadded(Fraction(raw), 4);
    assert |f| == 4 by {
      assert Pow10(4) == 10000;
      DigitsLength(Fraction(raw), 4);
    }
    NoSepInDigits(d, '.');
    NoSepInDigits(f, '.');
    SplitJoin([d, f], '.');
    assert Join([d, f], '.') == Magnitude(raw) by {
      assert Join([f], '.') == f;
    }
    assert IsDigit(d[0]);
    DigitsRoundTrip(Degrees(raw));
    ZeroPaddedRoundTrip(Fraction(raw), 4);
  }

  /** A coordinate takes at most nine characters. */
  lemma CoordinateLength(raw: Coord)
    ensures |Coordinate(raw)| <= 9
  {
    assert Pow10(3) == 1000;
    DigitsLength(Degrees(raw), 3);
    assert Pow10(4) == 10000;
    DigitsLength(Fraction(raw), 4);
  }

  // ---------------------------------------------------------------------
  // Splitting and joining fields

  /** The fields with the separator between them, as `sprintf` lays them out. */
  function Join(fs: seq<string>, sep: char): string
    decreases |fs|
  {
    if |fs| == 0 then "" else if |fs| == 1 then fs[0] else fs[0] + [sep] + Join(fs[1..], sep)
  }

  function IndexOf(s: string, c: char): (i: nat)
    requires c in s
    ensures i < |s| && s[i] == c && c !in s[..i]
  {
    if s[0] == c then 0 else 1 + IndexOf(s[1..], c)
  }

  /** The pieces of s between separators, as a ground station cuts a line. */
  function Split(s: string, sep: char): (r: seq<string>)
    ensures |r| >= 1
    decreases |s|
  {
    if sep in s then
      var i := IndexOf(s, sep);
      [s[..i]] + Split(s[i + 1..], sep)
    else
      [s]
  }

  lemma IndexOfFirst(a: string, c: char, b: string)
    requires c !in a
    ensures IndexOf(a + [c] + b, c) == |a|
    decreases |a|
  {
    if a != [] {
      assert (a + [c] + b)[1..] == a[1..] + [c] + b;
      IndexOfFirst(a[1..], c, b);
    }
  }

  lemma NoSepInDigits(s: string, sep: char)
    requires AllDigits(s) && !IsDigit(sep)
    ensures sep !in s
  {
  }

  /** Splitting joined fields gives the fields back when none of them holds
      the separator. */
  lemma {:induction false} SplitJoin(fs: seq<string>, sep: char)
    requires |fs| >= 1
    requires forall i :: 0 <= i < |fs| ==> sep !in fs[i]
    ensures Split(Join(fs, sep), sep) == fs
    decreases |fs|
  {
    if |fs| > 1 {
      var s := Join(fs, sep);
      var rest := Join(fs[1..], sep);
      assert s == fs[0] + [sep] + rest;
      IndexOfFirst(fs[0], sep, rest);
      assert s[..|fs[0]|] == fs[0];
      assert s[|fs[0]| + 1..] == rest;
      SplitJoin(fs[1..], sep);
      assert fs == [fs[0]] + fs[1..];
    }
  }

  lemma {:induction false} JoinBound(fs: seq<string>, sep: char, k: nat)
    requires forall i :: 0 <= i < |fs| ==> |fs[i]| <= k
    ensures |Join(fs, sep)| <= |fs| * (k + 1)
    decreases |fs|
  {
    if |fs| > 1 {
      JoinBound(fs[1..], sep, k);
    }
  }

  // ---------------------------------------------------------------------
  // The sentence (main.c:336-351)

  /** `%02u:%02u:%02u` */
  function Clock(h: uint8, m: uint8, s: uint8): string {
    ZeroPadded(h, 2) + ":" + ZeroPadded(m, 2) + ":" + ZeroPadded(s, 2)
  }

  /** The ten comma-separated fields, each rendered by its conversion:
      callsign, frame count (`%d` of an unsigned value), time, latitude,
      longitude, altitude in metres, speed, satellites, ten times the
      voltage, and the radio's temperature. */
  function Fields(t: Telemetry): seq<string> {
    [t.callsign,
     Decimal(AsSigned32(t.sendCount)),
     Clock(t.gps.hours, t.gps.minutes, t.gps.seconds),
     Coordinate(t.gps.latRaw),
     Coordinate(t.gps.lonRaw),
     Decimal(CDiv(t.gps.altRaw, 1000)),
     Decimal(t.gps.speedRaw),
     Decimal(t.gps.satsRaw),
     Decimal(t.voltage * 10),
     Decimal(t.temperature)]
  }

  /** The text after the five `$`: the part the checksum covers. */
  function Body(t: Telemetry): string {
    Join(Fields(t), ',')
  }

  predicate IsByteString(s: string) {
    forall i :: 0 <= i < |s| ==> s[i] as int < 0x100
  }

  /** A string of byte-sized characters as the bytes of a C buffer. */
  function Bytes(s: string): (b: seq<byte>)
    requires IsByteString(s)
    ensures |b| == |s| && forall i :: 0 <= i < |s| ==> b[i] == ByteOf(s[i])
  {
    seq(|s|, i requires 0 <= i < |s| => ByteOf(s[i]))
  }

  /** The byte a `char` is stored as; only NUL is stored as 0. */
  function ByteOf(c: char): (b: byte)
    requires c as int < 0x100
    ensures b == 0 <==> c == '\0'
  {
    ByteZero(c as int);
    (c as int) as byte
  }

  /** A line as the sentence is framed: five `$`, the body, `*`, the
      checksum in four upper-case hexadecimal digits and a newline. */
  function Frame(body: string, crc: bv16): string {
    "$$$$$" + body + "*" + Hex4(crc as int) + "\n"
  }

  /** The sentence `send_rtty_packet` leaves in `buf_rtty`, before its
      terminating NUL. */
  function Packet(t: Telemetry): string
    requires ValidTelemetry(t)
  {
    BodyBytes(t);
    Frame(Body(t), Checksum(Bytes(Body(t))))
  }

  /** Every character of the sentence is a non-NUL byte. */
  lemma PacketBytes(t: Telemetry)
    requires ValidTelemetry(t)
    ensures IsByteString(Packet(t))
    ensures forall i :: 0 <= i < |Packet(t)| ==> Packet(t)[i] != '\0'
  {
    BodyBytes(t);
    FramePrintable(Body(t), Checksum(Bytes(Body(t))));
  }

  lemma FramePrintable(body: string, crc: bv16)
    requires Printable(body)
    ensures Printable(Frame(body, crc))
  {
    var hex := Hex4(crc as int);
    assert Printable(hex) by {
      assert forall i :: 0 <= i < 4 ==> IsUpperHex(hex[i]);
    }
    PrintableConcat("$$$$$", body);
    PrintableConcat("$$$$$" + body, "*");
    PrintableConcat("$$$$$" + body + "*", hex);
    PrintableConcat("$$$$$" + body + "*" + hex, "\n");
  }

  lemma PrintableConcat(a: string, b: string)
    requires Printable(a) && Printable(b)
    ensures Printable(a + b)
  {
    assert forall j :: 0 <= j < |a + b| ==> (a + b)[j] == if j < |a| then a[j] else b[j - |a|];
  }

  /** Every character of the body is a non-NUL byte. */
  lemma BodyBytes(t: Telemetry)
    requires ValidTelemetry(t)
    ensures Printable(Body(t))
    ensures IsByteString(Body(t))
    ensures forall i :: 0 <= i < |Body(t)| ==> Body(t)[i] != '\0'
  {
    FieldsPrintable(t);
    JoinPrintable(Fields(t), ',');
  }

  predicate Printable(s: string) {
    forall j :: 0 <= j < |s| ==> 0 < s[j] as int < 0x100
  }

  lemma DigitsPrintable(n: nat)
    ensures Printable(Digits(n))
  {
  }

  lemma DecimalPrintable(i: int)
    ensures Printable(Decimal(i))
  {
    DigitsPrintable(Abs(i));
  }

  lemma DigitStringPrintable(s: string)
    requires AllDigits(s)
    ensures Printable(s)
  {
  }

  lemma ClockPrintable(h: uint8, m: uint8, s: uint8)
    ensures Printable(Clock(h, m, s))
  {
    DigitStringPrintable(ZeroPadded(h, 2));
    DigitStringPrintable(ZeroPadded(m, 2));
    DigitStringPrintable(ZeroPadded(s, 2));
  }

  lemma CoordinatePrintable(raw: Coord)
    ensures Printable(Coordinate(raw))
  {
    DigitStringPrintable(Digits(Degrees(raw)));
    DigitStringPrintable(ZeroPadded(Fraction(raw), 4));
  }

  lemma FieldsPrintable(t: Telemetry)
    requires ValidTelemetry(t)
    ensures forall i :: 0 <= i < 10 ==> Printable(Fields(t)[i])
  {
    CountPrintable(t);
    TimePrintable(t);
    LatitudePrintable(t);
    LongitudePrintable(t);
    NumbersPrintable(t);
  }

  lemma CountPrintable(t: Telemetry)
    ensures Printable(Fields(t)[1])
  {
    DecimalPrintable(AsSigned32(t.sendCount));
  }

  lemma TimePrintable(t: Telemetry)
    ensures Printable(Fields(t)[2])
  {
    ClockPrintable(t.gps.hours, t.gps.minutes, t.gps.seconds);
  }

  lemma LatitudePrintable(t: Telemetry)
    ensures Printable(Fields(t)[3])
  {
    CoordinatePrintable(t.gps.latRaw);
  }

  lemma LongitudePrintable(t: Telemetry)
    ensures Printable(Fields(t)[4])
  {
    CoordinatePrintable(t.gps.lonRaw);
  }

  lemma NumbersPrintable(t: Telemetry)
    ensures forall i :: 5 <= i < 10 ==> Printable(Fields(t)[i])
  {
    DecimalPrintable(CDiv(t.gps.altRaw, 1000));
    DecimalPrintable(t.gps.speedRaw);
    DecimalPrintable(t.gps.satsRaw);
    DecimalPrintable(t.voltage * 10);
    DecimalPrintable(t.temperature);
  }

  lemma {:induction false} JoinPrintable(fs: seq<string>, sep: char)
    requires 0 < sep as int < 0x100
    requires forall i :: 0 <= i < |fs| ==> Printable(fs[i])
    ensures Printable(Join(fs, sep))
    decreases |fs|
  {
    if |fs| > 1 {
      JoinPrintable(fs[1..], sep);
    }
  }

  // ---------------------------------------------------------------------
  // Reading the sentence back

  /** What a ground station recovers from one sentence. Coordinates are in
      ten-thousandths of a degree, the altitude in metres. */
  datatype Reading = Reading(
    callsign: string,
    frameCount: int,
    hours: nat,
    minutes: nat,
    seconds: nat,
    latitude: int,
    longitude: int,
    altitude: int,
    speed: int,
    satellites: nat,
    voltage10: int,
    temperature: int)

  /** The reading the printed sentence carries for given telemetry. */
  function Expected(t: Telemetry): Reading {
    Reading(t.callsign, AsSigned32(t.sendCount),
      t.gps.hours, t.gps.minutes, t.gps.seconds,
      CDiv(t.gps.latRaw, 1000), CDiv(t.gps.lonRaw, 1000),
      CDiv(t.gps.altRaw, 1000), t.gps.speedRaw, t.gps.satsRaw,
      t.voltage * 10, t.temperature)
  }

  datatype Time = Time(h: nat, m: nat, s: nat)

  function ParseClock(s: string): Option<Time> {
    var p := Split(s, ':');
    if |p| != 3 then None
    else
      var h :- ParseUnsigned(p[0]);
      var m :- ParseUnsigned(p[1]);
      var sec :- ParseUnsigned(p[2]);
      Some(Time(h, m, sec))
  }

  lemma ClockRoundTrip(h: uint8, m: uint8, s: uint8)
    ensures ParseClock(Clock(h, m, s)) == Some(Time(h, m, s))
  {
    var a, b, c := ZeroPadded(h, 2), ZeroPadded(m, 2), ZeroPadded(s, 2);
    NoSepInDigits(a, ':');
    NoSepInDigits(b, ':');
    NoSepInDigits(c, ':');
    SplitJoin([a, b, c], ':');
    JoinThree(a, b, c, ':');
    ZeroPaddedRoundTrip(h, 2);
    ZeroPaddedRoundTrip(m, 2);
    ZeroPaddedRoundTrip(s, 2);
  }

  lemma JoinThree(a: string, b: string, c: string, sep: char)
    ensures Join([a, b, c], sep) == a + [sep] + b + [sep] + c
  {
    assert [b, c][1..] == [c];
    assert Join([b, c], sep) == b + [sep] + c;
    assert [a, b, c][1..] == [b, c];
    assert a + [sep] + (b + [sep] + c) == a + [sep] + b + [sep] + c;
  }

  /** The fields between the commas of a body, read back. */
  function DecodeBody(body: string): Option<Reading> {
    var f := Split(body, ',');
    if |f| != 10 then None
    else
      var count :- ParseSigned(f[1]);
      var time :- ParseClock(f[2]);
      var lat :- ParseCoordinate(f[3]);
      var lon :- ParseCoordinate(f[4]);
      var alt :- ParseSigned(f[5]);
      var speed :- ParseSigned(f[6]);
      var sats :- ParseUnsigned(f[7]);
      var volts :- ParseSigned(f[8]);
      var temp :- ParseSigned(f[9]);
      Some(Reading(f[0], count, time.h, time.m, time.s, lat, lon, alt, speed, sats, volts, temp))
  }

  /** A ground station's reading of one line: it checks the framing,
      recomputes the checksum over the body and rejects the line when the
      two differ. */
  function Decode(line: string): Option<Reading> {
    if |line| < 11 || line[..5] != "$$$$$" || line[|line| - 6] != '*' || line[|line| - 1] != '\n' then
      None
    else
      var body := line[5..|line| - 6];
      var crc :- ParseHex4(line[|line| - 5..|line| - 1]);
      if !IsByteString(body) || crc != Checksum(Bytes(body)) as int then None
      else DecodeBody(body)
  }

  lemma FrameParts(body: string, crc: bv16)
    ensures var line := Frame(body, crc);
      |line| >= 11 && line[..5] == "$$$$$" && line[|line| - 6] == '*' &&
      line[|line| - 1] == '\n' && line[5..|line| - 6] == body &&
      line[|line| - 5..|line| - 1] == Hex4(crc as int)
  {
  }

  /** A line is accepted only with the checksum of its own body: a frame
      whose checksum field disagrees with its body is rejected. */
  lemma DecodeChecksChecksum(body: string, crc: bv16)
    requires IsByteString(body)
    ensures Decode(Frame(body, crc)).Some? ==> crc == Checksum(Bytes(body))
  {
    var line := Frame(body, crc);
    FrameParts(body, crc);
    Hex4RoundTrip(crc as int);
    assert ParseHex4(line[|line| - 5..|line| - 1]) == Some(crc as int);
    if Decode(line).Some? {
      Bv16Injective(crc, Checksum(Bytes(body)));
    }
  }

  lemma Bv16Injective(a: bv16, b: bv16)
    requires a as int == b as int
    ensures a == b
  {
    Bv16IntRoundTrip(a);
    Bv16IntRoundTrip(b);
  }

  lemma Bv16IntRoundTrip(a: bv16)
    ensures (a as int) as bv16 == a
  {
  }

  lemma DigitsNoComma(s: string)
    requires AllDigits(s)
    ensures ',' !in s
  {
  }

  lemma DecimalNoComma(i: int)
    ensures ',' !in Decimal(i)
  {
    DigitsNoComma(Digits(Abs(i)));
  }

  lemma FieldsNoComma(t: Telemetry)
    requires ',' !in t.callsign
    ensures forall i :: 0 <= i < |Fields(t)| ==> ',' !in Fields(t)[i]
  {
    DecimalNoComma(AsSigned32(t.sendCount));
    DigitsNoComma(ZeroPadded(t.gps.hours, 2));
    DigitsNoComma(ZeroPadded(t.gps.minutes, 2));
    DigitsNoComma(ZeroPadded(t.gps.seconds, 2));
    DigitsNoComma(Digits(Degrees(t.gps.latRaw)));
    DigitsNoComma(ZeroPadded(Fraction(t.gps.latRaw), 4));
    DigitsNoComma(Digits(Degrees(t.gps.lonRaw)));
    DigitsNoComma(ZeroPadded(Fraction(t.gps.lonRaw), 4));
    DecimalNoComma(CDiv(t.gps.altRaw, 1000));
    DecimalNoComma(t.gps.speedRaw);
    DecimalNoComma(t.gps.satsRaw);
    DecimalNoComma(t.voltage * 10);
    DecimalNoComma(t.temperature);
  }

  /** Every field reads back as the value it was printed from. */
  lemma DecodeBodyRoundTrip(t: Telemetry)
    requires ',' !in t.callsign
    ensures DecodeBody(Body(t)) == Some(Expected(t))
  {
    var fs := Fields(t);
    FieldsNoComma(t);
    SplitJoin(fs, ',');
    TimeFieldRoundTrip(t);
    LatitudeRoundTrip(t);
    LongitudeRoundTrip(t);
    CountAltitudeRoundTrip(t);
    NumbersRoundTrip(t);
    DecodeFields(Body(t), fs, Expected(t));
  }

  lemma TimeFieldRoundTrip(t: Telemetry)
    ensures ParseClock(Fields(t)[2]) == Some(Time(t.gps.hours, t.gps.minutes, t.gps.seconds))
  {
    ClockRoundTrip(t.gps.hours, t.gps.minutes, t.gps.seconds);
  }

  lemma LatitudeRoundTrip(t: Telemetry)
    ensures ParseCoordinate(Fields(t)[3]) == Some(Expected(t).latitude)
  {
    CoordinateField(Fields(t)[3], t.gps.latRaw);
  }

  lemma LongitudeRoundTrip(t: Telemetry)
    ensures ParseCoordinate(Fields(t)[4]) == Some(Expected(t).longitude)
  {
    CoordinateField(Fields(t)[4], t.gps.lonRaw);
  }

  lemma CountAltitudeRoundTrip(t: Telemetry)
    ensures ParseSigned(Fields(t)[1]) == Some(Expected(t).frameCount)
    ensures ParseSigned(Fields(t)[5]) == Some(Expected(t).altitude)
    ensures ParseSigned(Fields(t)[6]) == Some(Expected(t).speed)
  {
    DecimalField(Fields(t)[1], AsSigned32(t.sendCount));
    DecimalField(Fields(t)[5], CDiv(t.gps.altRaw, 1000));
    DecimalField(Fields(t)[6], t.gps.speedRaw);
  }

  lemma NumbersRoundTrip(t: Telemetry)
    ensures ParseUnsigned(Fields(t)[7]) == Some(Expected(t).satellites)
    ensures ParseSigned(Fields(t)[8]) == Some(Expected(t).voltage10)
    ensures ParseSigned(Fields(t)[9]) == Some(Expected(t).temperature)
  {
    DecimalField(Fields(t)[7], t.gps.satsRaw);
    DecimalField(Fields(t)[8], t.voltage * 10);
    DecimalField(Fields(t)[9], t.temperature);
  }

  lemma DecimalField(f: string, i: int)
    requires f == Decimal(i)
    ensures ParseSigned(f) == Some(i)
    ensures i >= 0 ==> ParseUnsigned(f) == Some(i)
  {
    DecimalRoundTrip(i);
    if i >= 0 {
      DigitsRoundTrip(i);
    }
  }

  lemma CoordinateField(f: string, raw: Coord)
    requires f == Coordinate(raw)
    ensures ParseCoordinate(f) == Some(CDiv(raw, 1000))
  {
    CoordinateRoundTrip(raw);
  }

  /** DecodeBody assembles the reading from the parsed fields. */
  lemma DecodeFields(body: string, fs: seq<string>, r: Reading)
    requires Split(body, ',') == fs && |fs| == 10 && fs[0] == r.callsign
    requires ParseSigned(fs[1]) == Some(r.frameCount)
    requires ParseClock(fs[2]) == Some(Time(r.hours, r.minutes, r.seconds))
    requires ParseCoordinate(fs[3]) == Some(r.latitude)
    requires ParseCoordinate(fs[4]) == Some(r.longitude)
    requires ParseSigned(fs[5]) == Some(r.altitude)
    requires ParseSigned(fs[6]) == Some(r.speed)
    requires ParseUnsigned(fs[7]) == Some(r.satellites)
    requires ParseSigned(fs[8]) == Some(r.voltage10)
    requires ParseSigned(fs[9]) == Some(r.temperature)
    ensures DecodeBody(body) == Some(r)
  {
  }

  /** Decoding the sentence `send_rtty_packet` prints gives back the
      callsign, the frame count, the time, both coordinates to four
      decimals, the altitude in metres, the speed, the satellite count, ten
      times the voltage and the temperature. */
  lemma DecodePacket(t: Telemetry)
    requires ValidTelemetry(t) && ',' !in t.callsign
    ensures Decode(Packet(t)) == Some(Expected(t))
  {
    BodyBytes(t);
    var body, crc := Body(t), Checksum(Bytes(Body(t)));
    FrameParts(body, crc);
    Hex4RoundTrip(crc as int);
    DecodeBodyRoundTrip(t);
  }

  /** `alt_raw / 1000` is again a 32-bit value. */
  lemma AltitudeMetres(alt: int32)
    ensures -0x8000_0000 <= CDiv(alt, 1000) < 0x8000_0000
  {
  }

  /** Every field takes at most 14 characters. */
  lemma FieldLengths(t: Telemetry)
    requires ValidTelemetry(t)
    ensures forall i :: 0 <= i < 10 ==> |Fields(t)[i]| <= 14
  {
    CountTimeLength(t);
    PositionLength(t);
    NumbersLength(t);
  }

  lemma CountTimeLength(t: Telemetry)
    ensures |Fields(t)[1]| <= 11 && |Fields(t)[2]| <= 11
  {
    DecimalLength32(AsSigned32(t.sendCount));
    DigitsLength8(t.gps.hours);
    DigitsLength8(t.gps.minutes);
    DigitsLength8(t.gps.seconds);
  }

  lemma PositionLength(t: Telemetry)
    ensures |Fields(t)[3]| <= 9 && |Fields(t)[4]| <= 9
  {
    CoordinateLength(t.gps.latRaw);
    CoordinateLength(t.gps.lonRaw);
  }

  lemma NumbersLength(t: Telemetry)
    ensures forall i :: 5 <= i < 10 ==> |Fields(t)[i]| <= 11
  {
    AltitudeMetres(t.gps.altRaw);
    DecimalLength32(CDiv(t.gps.altRaw, 1000));
    DecimalLength32(t.gps.speedRaw);
    DecimalLength32(t.gps.satsRaw);
    DecimalLength32(t.voltage * 10);
    DecimalLength32(t.temperature);
  }

  /** The sentence and its terminator fit the 200-byte `buf_rtty`. */
  lemma PacketFits(t: Telemetry)
    requires ValidTelemetry(t)
    ensures |Packet(t)| + 1 <= 200
  {
    FieldLengths(t);
    JoinBound(Fields(t), ',', 14);
    BodyBytes(t);
    FrameLength(Body(t), Checksum(Bytes(Body(t))));
  }

  lemma FrameLength(body: string, crc: bv16)
    ensures |Frame(body, crc)| == |body| + 11
  {
  }
}
