/** The pure helpers of the system's utility module: the face comparison
    threshold, visitor file names, elapsed-time formatting, the resize rule
    and the configuration merge. */
module Utils {
  import opened Common

  /** The fixed threshold used by `comparar_caras`. */
  const RecognitionTolerance: real := 0.5
  /** Lifetime of a temporary visitor, in minutes. */
  const VisitMinutes: int := 30
  /** Minimum confidence (a configuration default only). */
  const MinConfidence: real := 0.4
  /** Default maximum width of `redimensionar_imagen`. */
  const DefaultMaxWidth: int := 800

  // ---------------------------------------------------------------------
  // Face comparison (`comparar_caras`)
  // ---------------------------------------------------------------------

  /** Compares a stored encoding with a new one. It is a match iff the distance
      is within the fixed tolerance, and the distance is reported. Encodings of
      different lengths make the library raise, and the error path answers
      "no match, distance 1.0". */
  function CompareFaces(dist: DistanceFn, known: Encoding, probe: Encoding): (r: (bool, real))
    ensures r.0 <==> |known| == |probe| && dist(known, probe) <= RecognitionTolerance
    ensures r.1 == if |known| == |probe| then dist(known, probe) else 1.0
  {
    if |known| != |probe| then (false, 1.0)
    else
      var d := dist(known, probe);
      (d <= RecognitionTolerance, d)
  }

  // ---------------------------------------------------------------------
  // Decimal digits
  // ---------------------------------------------------------------------

  predicate IsDigit(c: char) {
    '0' <= c <= '9'
  }

  predicate AllDigits(s: string) {
    forall i :: 0 <= i < |s| ==> IsDigit(s[i])
  }

  function Digit(n: int): (c: char)
    requires 0 <= n < 10
    ensures IsDigit(c) && DigitValue(c) == n
  {
    ('0' as int + n) as char
  }

  function DigitValue(c: char): int {
    c as int - '0' as int
  }

  /** The number a string of decimal digits denotes (most significant first). */
  function Num(s: string): int
  {
    if s == [] then 0 else Num(s[..|s| - 1]) * 10 + DigitValue(s[|s| - 1])
  }

  lemma NumAppend(s: string, c: char)
    ensures Num(s + [c]) == Num(s) * 10 + DigitValue(c)
  {
    assert (s + [c])[..|s|] == s;
  }

  /** Decimal rendering of a natural number, as `f"{n}"` prints it: digits
      only, no leading zero, and reading the digits back gives `n`. */
  function NatToString(n: nat): (s: string)
    ensures |s| >= 1 && AllDigits(s)
    ensures Num(s) == n
    ensures s[0] == '0' <==> n == 0
    ensures |s| > 1 ==> s[0] != '0'
  {
    if n < 10 then
      NumAppend([], Digit(n));
      [Digit(n)]
    else
      var p := NatToString(n / 10);
      NumAppend(p, Digit(n % 10));
      p + [Digit(n % 10)]
  }

  /** The length of the run of digits that starts `s`. */
  function DigitRun(s: string): (i: nat)
    ensures i <= |s| && AllDigits(s[..i])
    ensures i < |s| ==> !IsDigit(s[i])
  {
    if s == [] || !IsDigit(s[0]) then 0
    else
      var i := DigitRun(s[1..]);
      assert s[..i + 1] == [s[0]] + s[1..][..i];
      i + 1
  }

  /** A run of digits followed by a non-digit is read exactly to its end. */
  lemma {:induction false} DigitRunOf(d: string, t: string)
    requires AllDigits(d) && (t == [] || !IsDigit(t[0]))
    ensures DigitRun(d + t) == |d|
  {
    if d != [] {
      assert (d + t)[1..] == d[1..] + t;
      DigitRunOf(d[1..], t);
    }
  }

  // ---------------------------------------------------------------------
  // Visitor file names (`generar_nombre_archivo_visita`)
  // ---------------------------------------------------------------------

  /** A reading of the local wall clock, as `datetime.now()` gives it. */
  datatype DateTime = DateTime(year: int, month: int, day: int, hour: int, minute: int, second: int)

  /** A clock reading whose fields are in range and whose year has four digits,
      so that `%Y` prints exactly four characters. */
  predicate ValidDateTime(t: DateTime) {
    && 1000 <= t.year <= 9999
    && 1 <= t.month <= 12
    && 1 <= t.day <= 31
    && 0 <= t.hour < 24
    && 0 <= t.minute < 60
    && 0 <= t.second < 60
  }

  /** Two zero-padded digits. */
  function Pad2(n: int): (s: string)
    requires 0 <= n < 100
    ensures |s| == 2 && AllDigits(s)
    ensures Num(s) == n
  {
    NumAppend([], Digit(n / 10));
    NumAppend([Digit(n / 10)], Digit(n % 10));
    [Digit(n / 10), Digit(n % 10)]
  }

  /** Four zero-padded digits; the first one is the thousands digit. */
  function Pad4(n: int): (s: string)
    requires 0 <= n < 10000
    ensures |s| == 4 && AllDigits(s)
    ensures Num(s) == n
    ensures s[0] == Digit(n / 1000)
  {
    var hi, lo := Pad2(n / 100), Pad2(n % 100);
    NumAppend(hi + [lo[0]], lo[1]);
    NumAppend(hi, lo[0]);
    assert hi + lo == hi + [lo[0]] + [lo[1]];
    assert (n / 100) / 10 == n / 1000;
    hi + lo
  }

  /** The `%Y%m%d_%H%M%S` rendering of a clock reading. */
  function Stamp(t: DateTime): (s: string)
    requires ValidDateTime(t)
    ensures |s| == 15 && s[8] == '_' && AllDigits(s[..8]) && AllDigits(s[9..])
  {
    Pad4(t.year) + Pad2(t.month) + Pad2(t.day) + "_" + Pad2(t.hour) + Pad2(t.minute) + Pad2(t.second)
  }

  /** Reads a `%Y%m%d_%H%M%S` stamp back; `None` for anything else. */
  function ParseStamp(s: string): Option<DateTime>
  {
    if |s| == 15 && s[8] == '_' && AllDigits(s[..8]) && AllDigits(s[9..]) then
      Some(DateTime(Num(s[..4]), Num(s[4..6]), Num(s[6..8]), Num(s[9..11]), Num(s[11..13]), Num(s[13..])))
    else
      None
  }

  /** Parsing a stamp gives back the clock reading it was made from. */
  lemma {:induction false} StampRoundTrip(t: DateTime)
    requires ValidDateTime(t)
    ensures ParseStamp(Stamp(t)) == Some(t)
  {
    var s := Stamp(t);
    assert s[..4] == Pad4(t.year);
    assert s[4..6] == Pad2(t.month);
    assert s[6..8] == Pad2(t.day);
    assert s[9..11] == Pad2(t.hour);
    assert s[11..13] == Pad2(t.minute);
    assert s[13..] == Pad2(t.second);
  }

  /** The file name of a new visitor's picture: "visita_", the stamp, ".jpg". */
  function VisitFileName(t: DateTime): (name: string)
    requires ValidDateTime(t)
    ensures |name| == 26
    ensures name[..7] == "visita_" && name[7..22] == Stamp(t) && name[22..] == ".jpg"
    ensures name[..8] == "visita_" + [Digit(t.year / 1000)]
  {
    var s := Stamp(t);
    assert s[0] == Pad4(t.year)[0];
    "visita_" + s + ".jpg"
  }

  /** Two visitor file names coincide exactly when they were generated at the
      same clock second: names are unique per second and no finer. */
  lemma {:induction false} VisitFileNameInjective(a: DateTime, b: DateTime)
    requires ValidDateTime(a) && ValidDateTime(b)
    ensures VisitFileName(a) == VisitFileName(b) <==> a == b
  {
    if VisitFileName(a) == VisitFileName(b) {
      assert Stamp(a) == VisitFileName(a)[7..22] == VisitFileName(b)[7..22] == Stamp(b);
      StampRoundTrip(a);
      StampRoundTrip(b);
    }
  }

  // ---------------------------------------------------------------------
  // Elapsed time (`formatear_tiempo_transcurrido`)
  // ---------------------------------------------------------------------

  /** Hours, minutes and seconds of an elapsed time. */
  datatype Hms = Hms(hours: int, minutes: int, seconds: int)

  /** Minutes and seconds in their ranges and recomposing to `s`. */
  ghost predicate IsSplitOf(p: Hms, s: int) {
    0 <= p.minutes < 60 && 0 <= p.seconds < 60 && p.hours * 3600 + p.minutes * 60 + p.seconds == s
  }

  /** Euclidean division by 60 has a unique quotient and remainder. */
  lemma DivMod60Unique(s: int, q: int, r: int)
    requires 0 <= r < 60 && s == q * 60 + r
    ensures q == s / 60 && r == s % 60
  {
  }

  /** Splits an elapsed number of seconds with the flooring `//` and `%` of
      the source (equal to Dafny's for a positive divisor, negative `s`
      included). */
  function SplitElapsed(s: int): (p: Hms)
    ensures IsSplitOf(p, s)
    ensures s >= 0 ==> p.hours >= 0
  {
    var p := Hms(s / 3600, (s % 3600) / 60, s % 60);
    var r := s % 3600;
    DivMod60Unique(s, (s / 3600) * 60 + r / 60, r % 60);
    p
  }

  /** The split is the only one with minutes and seconds in range. */
  lemma {:induction false} SplitElapsedUnique(s: int, p: Hms)
    requires IsSplitOf(p, s)
    ensures p == SplitElapsed(s)
  {
    var q := SplitElapsed(s);
    var x, y := p.hours * 60 + p.minutes, q.hours * 60 + q.minutes;
    assert s == x * 60 + p.seconds;
    assert s == y * 60 + q.seconds;
    DivMod60Unique(s, x, p.seconds);
    DivMod60Unique(s, y, q.seconds);
    DivMod60Unique(x, p.hours, p.minutes);
    DivMod60Unique(y, q.hours, q.minutes);
  }

  /** The text shown for the time elapsed since `start`: hours are shown iff
      there is at least one; minutes iff hours or minutes are shown. */
  function FormatElapsed(start: int, now: int): (text: string)
    ensures var p := SplitElapsed(now - start);
      && ('h' in text <==> p.hours > 0)
      && ('m' in text <==> p.hours > 0 || p.minutes > 0)
      && |text| >= 2 && text[|text| - 1] == 's'
  {
    var p := SplitElapsed(now - start);
    var sec := NatToString(p.seconds) + "s";
    assert 'h' !in sec && 'm' !in sec;
    if p.hours > 0 then
      var h, m := NatToString(p.hours), NatToString(p.minutes);
      assert 'h' !in h && 'm' !in h && 'h' !in m && 'm' !in m;
      var text := h + "h " + m + "m " + sec;
      assert text[|h|] == 'h';
      assert text[|h| + 2 + |m|] == 'm';
      text
    else if p.minutes > 0 then
      var m := NatToString(p.minutes);
      assert 'h' !in m && 'm' !in m;
      var text := m + "m " + sec;
      assert text[|m|] == 'm';
      text
    else
      sec
  }

  /** Reads a text of the form `"{h}h {m}m {s}s"`, `"{m}m {s}s"` or
      `"{s}s"` back into its parts; a part that is not shown is zero. */
  function ParseElapsed(text: string): Option<Hms>
  {
    match ReadUnit(text, "h ")
    case Some((h, r1)) =>
      (match ReadUnit(r1, "m ")
       case Some((m, r2)) =>
         (match ReadUnit(r2, "s")
          case Some((sec, r3)) => if r3 == [] then Some(Hms(h, m, sec)) else None
          case None => None)
       case None => None)
    case None =>
      match ReadUnit(text, "m ")
      case Some((m, r2)) =>
        (match ReadUnit(r2, "s")
         case Some((sec, r3)) => if r3 == [] then Some(Hms(0, m, sec)) else None
         case None => None)
      case None =>
        match ReadUnit(text, "s")
        case Some((sec, r3)) => if r3 == [] then Some(Hms(0, 0, sec)) else None
        case None => None
  }

  /** Reads a number and then the text `unit`; `None` unless `s` starts
      with at least one digit followed by `unit`. The answer is the number
      and the text after the unit. */
  function ReadUnit(s: string, unit: string): Option<(int, string)>
  {
    var i := DigitRun(s);
    var t := s[i..];
    if 0 < i && |unit| <= |t| && t[..|unit|] == unit
    then Some((Num(s[..i]), t[|unit|..]))
    else None
  }

  /** Reading back a number printed before a unit. */
  lemma ReadUnitOf(n: nat, unit: string, rest: string)
    requires unit != [] && !IsDigit(unit[0])
    ensures ReadUnit(NatToString(n) + unit + rest, unit) == Some((n, rest))
  {
    var d, t := NatToString(n), unit + rest;
    var s := d + unit + rest;
    assert s == d + t;
    DigitRunOf(d, t);
    assert s[..|d|] == d && s[|d|..] == t;
    assert t[..|unit|] == unit && t[|unit|..] == rest;
  }

  /** A number followed by another unit is not read as `unit`. */
  lemma ReadUnitOther(n: nat, unit: string, other: string, rest: string)
    requires unit != [] && other != [] && !IsDigit(other[0]) && other[0] != unit[0]
    ensures ReadUnit(NatToString(n) + other + rest, unit) == None
  {
    var d, t := NatToString(n), other + rest;
    assert d + other + rest == d + t;
    DigitRunOf(d, t);
    assert (d + t)[|d|..] == t;
  }

  /** A text that reads as hours, then minutes, then seconds, and nothing
      after them. */
  lemma ParseThreeParts(text: string, h: int, r1: string, m: int, r2: string, sec: int)
    requires ReadUnit(text, "h ") == Some((h, r1))
    requires ReadUnit(r1, "m ") == Some((m, r2))
    requires ReadUnit(r2, "s") == Some((sec, []))
    ensures ParseElapsed(text) == Some(Hms(h, m, sec))
  {
  }

  lemma ParseHours(h: nat, m: nat, sec: nat)
    ensures ParseElapsed(NatToString(h) + "h " + NatToString(m) + "m " + (NatToString(sec) + "s")) == Some(Hms(h, m, sec))
  {
    var ss := NatToString(sec) + "s";
    var ms := NatToString(m) + "m " + ss;
    var text := NatToString(h) + "h " + NatToString(m) + "m " + ss;
    assert text == NatToString(h) + "h " + ms;
    ReadUnitOf(h, "h ", ms);
    ReadUnitOf(m, "m ", ss);
    ReadUnitOf(sec, "s", []);
    assert ss + [] == ss;
    ParseThreeParts(text, h, ms, m, ss, sec);
  }

  lemma ParseMinutes(m: nat, sec: nat)
    ensures ParseElapsed(NatToString(m) + "m " + (NatToString(sec) + "s")) == Some(Hms(0, m, sec))
  {
    ReadUnitOther(m, "h ", "m ", NatToString(sec) + "s");
    ReadUnitOf(m, "m ", NatToString(sec) + "s");
    ReadUnitOf(sec, "s", []);
    assert NatToString(sec) + "s" + [] == NatToString(sec) + "s";
  }

  lemma ParseSeconds(sec: nat)
    ensures ParseElapsed(NatToString(sec) + "s") == Some(Hms(0, 0, sec))
  {
    assert NatToString(sec) + "s" + [] == NatToString(sec) + "s";
    ReadUnitOther(sec, "h ", "s", []);
    ReadUnitOther(sec, "m ", "s", []);
    ReadUnitOf(sec, "s", []);
  }

  /** The text shows exactly the hours, minutes and seconds of the elapsed
      time: reading it back gives the split, with hours that are not shown
      (none, or a negative elapsed time) read as zero. */
  lemma FormatElapsedRoundTrip(start: int, now: int)
    ensures var p := SplitElapsed(now - start);
      ParseElapsed(FormatElapsed(start, now)) == Some(p.(hours := if p.hours > 0 then p.hours else 0))
  {
    var p := SplitElapsed(now - start);
    if p.hours > 0 {
      ParseHours(p.hours, p.minutes, p.seconds);
    } else if p.minutes > 0 {
      ParseMinutes(p.minutes, p.seconds);
    } else {
      ParseSeconds(p.seconds);
    }
  }

  // ---------------------------------------------------------------------
  // Resize rule (`redimensionar_imagen`)
  // ---------------------------------------------------------------------

  /** Image dimensions in pixels. */
  datatype Size = Size(width: nat, height: nat)

  /** The size of the image `redimensionar_imagen` returns. An image no wider
      than the limit comes back unchanged; a wider one is scaled to exactly the
      limit, keeping its aspect ratio (the height is the floor of the scaled
      height). When the scaled size is empty the resize call raises and the
      original image comes back. */
  function ResizedSize(s: Size, maxWidth: int): (r: Size)
    ensures s.width <= maxWidth ==> r == s
    ensures r != s ==> 0 < maxWidth < s.width && r.width == maxWidth && r.height > 0
    ensures r != s ==> r.height * s.width <= s.height * maxWidth < (r.height + 1) * s.width
    ensures 0 < maxWidth < s.width && s.height * maxWidth >= s.width ==> r.width == maxWidth
  {
    if s.width <= maxWidth || maxWidth <= 0 then s
    else
      var h := (s.height * maxWidth) / s.width;
      if h == 0 then s else Size(maxWidth, h)
  }

  /** Resizing twice with the same limit is resizing once. */
  lemma ResizeIdempotent(s: Size, maxWidth: int)
    ensures ResizedSize(ResizedSize(s, maxWidth), maxWidth) == ResizedSize(s, maxWidth)
  {
  }

  // ---------------------------------------------------------------------
  // Configuration (`cargar_configuracion`)
  // ---------------------------------------------------------------------

  /** The JSON values the configuration holds. */
  datatype ConfigValue = Int(i: int) | Real(r: real) | Text(s: string) | IntList(items: seq<int>)

  type Config = map<string, ConfigValue>

  /** The built-in defaults. */
  const DefaultConfig: Config := map[
    "tolerancia_reconocimiento" := Real(RecognitionTolerance),
    "tiempo_visita_minutos" := Int(VisitMinutes),
    "confianza_minima" := Real(MinConfidence),
    "camara_index" := Int(0),
    "fps_objetivo" := Int(30),
    "resolucion_camara" := IntList([640, 480]),
    "procesar_cada_n_frames" := Int(3)
  ]

  /** What reading the configuration file gave: no file, a failure (unreadable
      file or invalid JSON), or the object it holds. */
  datatype ConfigFile = Missing | Unreadable | Parsed(entries: Config)

  /** Starts from the defaults and, when the file parsed, updates them in place
      with the file's entries. Every default key is present; a key of the file
      takes the file's value; any other key keeps its default. */
  method LoadConfiguration(file: ConfigFile) returns (config: Config)
    ensures config.Keys == DefaultConfig.Keys + (if file.Parsed? then file.entries.Keys else {})
    ensures forall k :: k in config ==>
      config[k] == if file.Parsed? && k in file.entries then file.entries[k] else DefaultConfig[k]
    ensures !file.Parsed? ==> config == DefaultConfig
  {
    config := DefaultConfig;
    if file.Parsed? {
      config := config + file.entries;
    }
  }
}
