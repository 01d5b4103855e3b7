/** The 'Location 1' current-voltage file decoder (`get_jv_data`,
    `get_jv_data_location_1`). A file is tab-separated text, one measurement
    repetition per line; only the last line is decoded. Its first 42 fields
    are a header (date, sweep bounds, cell area and four-pixel metrics),
    followed by four current-density blocks and four voltage blocks of
    `n` values each, where `n` is the sweep-point count.

    Python's `float` is an abstract partial map `parse` from text to exact
    reals; IEEE rounding is not modelled. `convert_datetime` is external and
    is recorded symbolically (`Converted`). */
module JvParser {
  import opened Wrappers
  import Text

  type Parse = string -> Option<real>

  const HeaderFields := 42
  const Pixels := 4
  const MinTabFields := 40
  const HysteresisMarker := "hysteresis$"
  const Location1Label := "Location 1 IV Format"
  const UnknownLabel := "Unknown format"
  const Intensity: real := 100.0

  /** The 'datetime' entry: converted with the '%Y%m%d' pattern when the date
      field is all digits, kept verbatim otherwise. */
  datatype DateValue = Converted(digits: string) | Verbatim(text: string)

  datatype Curve = Curve(name: string, dark: bool, voltage: seq<real>, currentDensity: seq<real>)

  /** The decoded dictionary. */
  datatype JvData = JvData(
    datetime: DateValue, activeArea: real, intensity: real,
    jSc: seq<real>, vOc: seq<real>, fillFactor: seq<real>, efficiency: seq<real>,
    pMpp: seq<real>, jMpp: seq<real>, uMpp: seq<real>, curves: seq<Curve>)

  // ---------------------------------------------------------------------
  // Python slicing, truncation, absolute value

  /** A slice bound as Python normalises it: negative bounds count from the
      end, then the bound is clamped to the sequence. */
  function Bound(len: nat, b: int): (r: nat)
    ensures r <= len
    ensures 0 <= b <= len ==> r == b
  {
    if b < 0 then (if b + len < 0 then 0 else b + len) else if b > len then len else b
  }

  /** `s[a:b]`. */
  function Slice<T>(s: seq<T>, a: int, b: int): (r: seq<T>)
    ensures 0 <= a <= b <= |s| ==> r == s[a..b]
    ensures |r| <= |s|
  {
    var lo, hi := Bound(|s|, a), Bound(|s|, b);
    if lo <= hi then s[lo..hi] else []
  }

  /** `s[:b]`. */
  function Take<T>(s: seq<T>, b: int): seq<T> {
    s[..Bound(|s|, b)]
  }

  /** `s[a:]`. */
  function Drop<T>(s: seq<T>, a: int): seq<T> {
    s[Bound(|s|, a)..]
  }

  /** Splitting at any bound, negative or past the end, loses and
      duplicates nothing. */
  lemma TakeDrop<T>(s: seq<T>, h: int)
    ensures Take(s, h) + Drop(s, h) == s
    ensures 0 <= h <= |s| ==> |Take(s, h)| == h
  {
  }

  /** Python's `int(x)` on a float: truncation toward zero. */
  function Trunc(x: real): (r: int)
    ensures 0.0 <= x ==> r as real <= x < r as real + 1.0
    ensures x < 0.0 ==> r as real - 1.0 < x <= r as real
  {
    if x >= 0.0 then x.Floor else -((-x).Floor)
  }

  function Abs(x: real): (r: real)
    ensures r >= 0.0 && (r == x || r == -x)
  {
    if x < 0.0 then -x else x
  }

  function AbsAll(xs: seq<real>): (r: seq<real>)
    ensures |r| == |xs|
    ensures forall k | 0 <= k < |xs| :: r[k] == Abs(xs[k])
  {
    seq(|xs|, k requires 0 <= k < |xs| => Abs(xs[k]))
  }

  // ---------------------------------------------------------------------
  // Lines and fields

  /** `filedata.strip().split('\n')`. */
  function Lines(filedata: string): seq<string> {
    Text.Split(Text.Strip(filedata), '\n')
  }

  /** `line.strip().split('\t')`: the strip also removes leading and trailing
      tabs, so empty edge fields disappear. */
  function Fields(line: string): seq<string> {
    Text.Split(Text.Strip(line), '\t')
  }

  /** `data[-1]`: the fields of the last line. */
  function LastFields(filedata: string): seq<string> {
    var lines := Lines(filedata);
    Fields(lines[|lines| - 1])
  }

  /** `float(val)` for every value, in order; the first value that does not
      parse raises. */
  function ParseAll(parse: Parse, vals: seq<string>): (r: Result<seq<real>>)
    ensures r.Success? ==> forall k | 0 <= k < |vals| :: parse(vals[k]).Some?
    ensures (forall k | 0 <= k < |vals| :: parse(vals[k]).Some?) ==> r.Success?
    ensures r.Success? ==> |r.value| == |vals|
    ensures r.Success? ==> forall k | 0 <= k < |vals| :: parse(vals[k]) == Some(r.value[k])
    decreases |vals|
  {
    if |vals| == 0 then Success([])
    else match parse(vals[0])
      case None => Failure("ValueError: could not convert string to float")
      case Some(x) =>
        var rest :- ParseAll(parse, vals[1..]);
        assert forall k | 1 <= k < |vals| :: vals[k] == vals[1..][k - 1];
        Success([x] + rest)
  }

  /** `data[-1][k]`. */
  function Field(f: seq<string>, k: nat): (r: Result<string>)
    ensures r.Success? <==> k < |f|
    ensures r.Success? ==> r.value == f[k]
  {
    if k < |f| then Success(f[k]) else Failure("IndexError: list index out of range")
  }

  /** `float(data[-1][k])`. */
  function Number(parse: Parse, f: seq<string>, k: nat): (r: Result<real>)
    ensures r.Success? <==> k < |f| && parse(f[k]).Some?
    ensures r.Success? ==> parse(f[k]) == Some(r.value)
  {
    var s :- Field(f, k);
    match parse(s)
    case None => Failure("ValueError: could not convert string to float")
    case Some(x) => Success(x)
  }

  // ---------------------------------------------------------------------
  // Header and metrics

  datatype Header = Header(date: string, vStart: real, vEnd: real, vDelta: real, area: real)

  /** Date, sweep start, end and step, and the first pixel's area, read in
      the source's order. */
  function ReadHeader(parse: Parse, f: seq<string>): (r: Result<Header>)
    ensures r.Success? ==> |f| >= 7
    ensures r.Success? <==>
      |f| >= 7 && parse(f[2]).Some? && parse(f[3]).Some? && parse(f[4]).Some? && parse(f[6]).Some?
    ensures r.Success? ==>
      && r.value.date == f[1]
      && parse(f[2]) == Some(r.value.vStart) && parse(f[3]) == Some(r.value.vEnd)
      && parse(f[4]) == Some(r.value.vDelta) && parse(f[6]) == Some(r.value.area)
  {
    var date :- Field(f, 1);
    var vStart :- Number(parse, f, 2);
    var vEnd :- Number(parse, f, 3);
    var vDelta :- Number(parse, f, 4);
    var area :- Number(parse, f, 6);
    Success(Header(date, vStart, vEnd, vDelta, area))
  }

  /** `val.replace('hysteresis$', '')` for every value. */
  function StripMarker(vals: seq<string>): (r: seq<string>)
    ensures |r| == |vals|
    ensures forall k | 0 <= k < |vals| :: r[k] == Text.ReplaceAll(vals[k], HysteresisMarker, "")
  {
    seq(|vals|, k requires 0 <= k < |vals| => Text.ReplaceAll(vals[k], HysteresisMarker, ""))
  }

  /** A value without the marker is kept as it is, and a value without '$'
      followed by the marker loses the marker. */
  lemma MarkerRemoved(v: string)
    ensures !Text.Contains(v, HysteresisMarker) ==> StripMarker([v]) == [v]
    ensures '$' !in v ==> StripMarker([v + HysteresisMarker]) == [v]
  {
    if !Text.Contains(v, HysteresisMarker) {
      Text.ReplaceAllAbsent(v, HysteresisMarker, "");
    }
    if '$' !in v {
      var w := v + HysteresisMarker[..|HysteresisMarker| - 1];
      assert '$' !in HysteresisMarker[..|HysteresisMarker| - 1];
      if Text.Contains(w, HysteresisMarker) {
        var k :| 0 <= k <= |w| && Text.OccursAt(w, HysteresisMarker, k);
        Text.OccurrenceHasLast(w, HysteresisMarker, k);
      }
      Text.ReplaceAllFinal(v, HysteresisMarker, "");
      assert v + "" == v;
    }
  }

  /** One left-to-right pass, as `str.replace` makes: removing the inner
      marker can form a new one, which stays. */
  lemma MarkerRemovedOnce()
    ensures StripMarker(["hysthysteresis$eresis$"]) == ["hysteresis$"]
  {
    var inner := "hyst";
    var outer := "eresis$";
    assert "hysthysteresis$eresis$" == inner + HysteresisMarker + outer;
    assert inner + outer == "hysteresis$";
    ReplaceAfterPrefix(inner, outer);
  }

  /** The pass over `"hyst" + marker + tail` keeps "hyst", drops the marker
      and continues after it. */
  lemma ReplaceAfterPrefix(inner: string, outer: string)
    requires inner == "hyst" && outer == "eresis$"
    ensures Text.ReplaceAll(inner + HysteresisMarker + outer, HysteresisMarker, "") == inner + outer
  {
    var m := HysteresisMarker;
    var s := inner + m + outer;
    assert s[..|m|] != m by { assert s[4] == 'h' && m[4] == 'e'; }
    assert s[1..][..|m|] != m by { assert s[1..][0] == 'y'; }
    assert s[2..][..|m|] != m by { assert s[2..][0] == 's'; }
    assert s[3..][..|m|] != m by { assert s[3..][0] == 't'; }
    assert s[4..][..|m|] == m;
    assert s[4..][|m|..] == outer;
    assert s[1..][1..] == s[2..] && s[2..][1..] == s[3..] && s[3..][1..] == s[4..];
    var tail := Text.ReplaceAll(outer, m, "");
    assert tail == outer;
    assert Text.ReplaceAll(s[4..], m, "") == tail;
    assert Text.ReplaceAll(s[3..], m, "") == [s[3]] + tail;
    assert Text.ReplaceAll(s[2..], m, "") == [s[2]] + [s[3]] + tail;
    assert Text.ReplaceAll(s[1..], m, "") == [s[1]] + [s[2]] + [s[3]] + tail;
    assert Text.ReplaceAll(s, m, "") == [s[0]] + [s[1]] + [s[2]] + [s[3]] + tail;
    assert [s[0]] + [s[1]] + [s[2]] + [s[3]] == inner;
  }

  /** Millivolts to volts. */
  function ToVolts(mv: seq<real>): (r: seq<real>)
    ensures |r| == |mv|
    ensures forall k | 0 <= k < |mv| :: r[k] == mv[k] / 1000.0
  {
    seq(|mv|, k requires 0 <= k < |mv| => mv[k] / 1000.0)
  }

  /** The per-pixel metrics of fields 10 to 41, reverse then forward sweep
      for each quantity; open voltages are converted to volts. */
  datatype Metrics = Metrics(
    jscRev: seq<real>, jscFw: seq<real>, vocRev: seq<real>, vocFw: seq<real>,
    ffRev: seq<real>, ffFw: seq<real>, mppRev: seq<real>, mppFw: seq<real>)

  /** `volts` are the millivolt readings of `fields`, in volts. */
  predicate VoltsFrom(parse: Parse, fields: seq<string>, volts: seq<real>) {
    |volts| == |fields| && forall k | 0 <= k < |fields| :: parse(fields[k]) == Some(volts[k] * 1000.0)
  }

  /** `vals` are the absolute values of the readings of `fields`. */
  predicate AbsFrom(parse: Parse, fields: seq<string>, vals: seq<real>) {
    |vals| == |fields| && forall k | 0 <= k < |fields| :: parse(fields[k]).Some? && vals[k] == Abs(parse(fields[k]).value)
  }

  predicate AllParse(parse: Parse, vals: seq<string>) {
    forall k | 0 <= k < |vals| :: parse(vals[k]).Some?
  }

  function ReadMetrics(parse: Parse, f: seq<string>): (r: Result<Metrics>)
    ensures r.Success? ==>
      && AllParse(parse, StripMarker(Slice(f, 10, 14))) && AllParse(parse, Slice(f, 14, 18))
      && AllParse(parse, Slice(f, 18, 22)) && AllParse(parse, Slice(f, 22, 26))
      && AllParse(parse, Slice(f, 26, 30)) && AllParse(parse, Slice(f, 30, 34))
      && AllParse(parse, Slice(f, 34, 38)) && AllParse(parse, Slice(f, 38, 42))
    ensures
      (&& AllParse(parse, StripMarker(Slice(f, 10, 14))) && AllParse(parse, Slice(f, 14, 18))
       && AllParse(parse, Slice(f, 18, 22)) && AllParse(parse, Slice(f, 22, 26))
       && AllParse(parse, Slice(f, 26, 30)) && AllParse(parse, Slice(f, 30, 34))
       && AllParse(parse, Slice(f, 34, 38)) && AllParse(parse, Slice(f, 38, 42))) ==> r.Success?
    ensures r.Success? ==>
      && ParseAll(parse, StripMarker(Slice(f, 10, 14))) == Success(r.value.jscRev)
      && VoltsFrom(parse, Slice(f, 18, 22), r.value.vocRev)
      && ParseAll(parse, Slice(f, 26, 30)) == Success(r.value.ffRev)
      && ParseAll(parse, Slice(f, 34, 38)) == Success(r.value.mppRev)
  {
    var jscRev :- ParseAll(parse, StripMarker(Slice(f, 10, 14)));
    var jscFw :- ParseAll(parse, Slice(f, 14, 18));
    var vocRev :- ParseAll(parse, Slice(f, 18, 22));
    var vocFw :- ParseAll(parse, Slice(f, 22, 26));
    var ffRev :- ParseAll(parse, Slice(f, 26, 30));
    var ffFw :- ParseAll(parse, Slice(f, 30, 34));
    var mppRev :- ParseAll(parse, Slice(f, 34, 38));
    var mppFw :- ParseAll(parse, Slice(f, 38, 42));
    Success(Metrics(jscRev, jscFw, ToVolts(vocRev), ToVolts(vocFw), ffRev, ffFw, mppRev, mppFw))
  }

  // ---------------------------------------------------------------------
  // Sweep layout

  /** `int(abs(v_end - v_start) / v_delta + 1) * 2`; a zero step raises
      ZeroDivisionError. The count is truncated toward zero, not rounded. */
  function SweepPointCount(vStart: real, vEnd: real, vDelta: real): (r: Result<int>)
    ensures r.Failure? <==> vDelta == 0.0
    ensures r.Success? ==> r.value % 2 == 0
    ensures r.Success? && vDelta > 0.0 ==>
      (r.value / 2) as real <= Abs(vEnd - vStart) / vDelta + 1.0 < (r.value / 2) as real + 1.0
    ensures r.Success? && vDelta > 0.0 ==> r.value >= 2
    ensures r.Success? && vDelta < 0.0 ==> r.value <= 2
  {
    if vDelta == 0.0 then Failure("ZeroDivisionError: float division by zero")
    else
      var ratio := Abs(vEnd - vStart) / vDelta;
      assert vDelta < 0.0 ==> ratio <= 0.0;
      Success(2 * Trunc(ratio + 1.0))
  }

  /** The start of the `q`-th window of `n` values after the header: pixel
      `p`'s current densities are window `p`, its voltages window `4 + p`. */
  function WindowStart(n: int, q: int): int {
    HeaderFields + n * q
  }

  /** `data[-1][start:start + n]` for window `q`. */
  function Window(f: seq<string>, n: int, q: int): seq<string> {
    Slice(f, WindowStart(n, q), WindowStart(n, q) + n)
  }

  /** The voltage offset `42 + 4n` of the source is the start of window 4. */
  lemma VoltageOffset(n: int, p: int)
    ensures HeaderFields + n * Pixels + n * p == WindowStart(n, Pixels + p)
  {
  }

  /** With a positive count the windows follow the header in order and do
      not overlap: each ends where the next begins. */
  lemma WindowsDisjoint(n: int, q: nat, q': nat)
    requires n > 0 && q < q'
    ensures WindowStart(n, q) >= HeaderFields
    ensures WindowStart(n, q) + n <= WindowStart(n, q')
  {
    MulAtLeast(n, q' - q);
    assert n * q' == n * q + n * (q' - q);
  }

  lemma {:induction false} MulAtLeast(n: int, d: int)
    requires n >= 0 && d >= 1
    ensures n * d >= n
    decreases d
  {
    if d > 1 {
      MulAtLeast(n, d - 1);
      assert n * d == n * (d - 1) + n;
    }
  }

  /** On a line long enough for all eight windows, window `q` is exactly the
      `n` fields from `42 + n * q` on. */
  lemma FullWindow(f: seq<string>, n: int, q: nat)
    requires n > 0 && q < 2 * Pixels
    requires |f| >= HeaderFields + 2 * Pixels * n
    ensures Window(f, n, q) == f[WindowStart(n, q)..WindowStart(n, q) + n]
    ensures |Window(f, n, q)| == n
  {
    assert n * q + n == n * (q + 1);
    assert n * (q + 1) <= n * (2 * Pixels);
  }

  /** Windows `q` up to `stop`, each parsed, in order. */
  function PixelBlocks(parse: Parse, f: seq<string>, n: int, q: int, stop: int): (r: Result<seq<seq<real>>>)
    requires q <= stop
    ensures r.Success? ==> |r.value| == stop - q
    ensures r.Success? ==> forall p | q <= p < stop :: ParseAll(parse, Window(f, n, p)) == Success(r.value[p - q])
    ensures r.Success? ==> forall p | q <= p < stop :: AllParse(parse, Window(f, n, p))
    ensures (forall p | q <= p < stop :: AllParse(parse, Window(f, n, p))) ==> r.Success?
    decreases stop - q
  {
    if q == stop then Success([])
    else
      var here :- ParseAll(parse, Window(f, n, q));
      var rest :- PixelBlocks(parse, f, n, q + 1, stop);
      Success([here] + rest)
  }

  // ---------------------------------------------------------------------
  // Curves

  /** `f'Pixel_{i+1}_reverse'` and `f'Pixel_{i+1}_forward'`. */
  function CurveName(pixel: nat, reverse: bool): string {
    "Pixel_" + Text.NatToString(pixel + 1) + Suffix(reverse)
  }

  const ReverseSuffix := "_reverse"
  const ForwardSuffix := "_forward"

  function Suffix(reverse: bool): (r: string)
    ensures |r| == 8
  {
    if reverse then ReverseSuffix else ForwardSuffix
  }

  /** The eight curve names are distinct. */
  lemma CurveNamesDistinct(p: nat, rev: bool, p': nat, rev': bool)
    requires (p, rev) != (p', rev')
    ensures CurveName(p, rev) != CurveName(p', rev')
  {
    var x, y := CurveName(p, rev), CurveName(p', rev');
    var a, b := Text.NatToString(p + 1), Text.NatToString(p' + 1);
    assert x == ("Pixel_" + a) + Suffix(rev) && y == ("Pixel_" + b) + Suffix(rev');
    assert x[..|x| - 8] == "Pixel_" + a && x[|x| - 8..] == Suffix(rev);
    assert y[..|y| - 8] == "Pixel_" + b && y[|y| - 8..] == Suffix(rev');
    if p == p' {
      assert Suffix(rev)[1] != Suffix(rev')[1];
    } else {
      if a == b {
        Text.NatToStringInjective(p + 1, p' + 1);
      }
      assert ("Pixel_" + a)[6..] == a && ("Pixel_" + b)[6..] == b;
    }
  }

  /** Per pixel a reverse curve (the first `half` points) and a forward curve
      (the rest), for voltage and current density alike. */
  function Curves(voltage: seq<seq<real>>, current: seq<seq<real>>, half: int): (r: seq<Curve>)
    requires |voltage| == |current| == Pixels
    ensures |r| == 2 * Pixels
    ensures forall t | 0 <= t < |r| :: !r[t].dark
    ensures forall p | 0 <= p < Pixels :: r[2 * p].name == CurveName(p, true) && r[2 * p + 1].name == CurveName(p, false)
    ensures forall p | 0 <= p < Pixels ::
      && r[2 * p].voltage + r[2 * p + 1].voltage == voltage[p]
      && r[2 * p].currentDensity + r[2 * p + 1].currentDensity == current[p]
    ensures forall p | 0 <= p < Pixels :: 0 <= half <= |voltage[p]| ==> |r[2 * p].voltage| == half
    ensures forall p | 0 <= p < Pixels :: 0 <= half <= |current[p]| ==> |r[2 * p].currentDensity| == half
  {
    var r := [Reverse(voltage, current, half, 0), Forward(voltage, current, half, 0),
              Reverse(voltage, current, half, 1), Forward(voltage, current, half, 1),
              Reverse(voltage, current, half, 2), Forward(voltage, current, half, 2),
              Reverse(voltage, current, half, 3), Forward(voltage, current, half, 3)];
    forall p | 0 <= p < Pixels
      ensures r[2 * p] == Reverse(voltage, current, half, p) && r[2 * p + 1] == Forward(voltage, current, half, p)
    {
      assert p == 0 || p == 1 || p == 2 || p == 3;
    }
    forall p | 0 <= p < Pixels
      ensures r[2 * p].voltage + r[2 * p + 1].voltage == voltage[p]
      ensures r[2 * p].currentDensity + r[2 * p + 1].currentDensity == current[p]
    {
      TakeDrop(voltage[p], half);
      TakeDrop(current[p], half);
    }
    r
  }

  /** The reverse sweep of pixel `p`: the first `half` points. */
  function Reverse(voltage: seq<seq<real>>, current: seq<seq<real>>, half: int, p: nat): Curve
    requires |voltage| == |current| == Pixels && p < Pixels
  {
    Curve(CurveName(p, true), false, Take(voltage[p], half), Take(current[p], half))
  }

  /** The forward sweep of pixel `p`: the points from `half` on. */
  function Forward(voltage: seq<seq<real>>, current: seq<seq<real>>, half: int, p: nat): Curve
    requires |voltage| == |current| == Pixels && p < Pixels
  {
    Curve(CurveName(p, false), false, Drop(voltage[p], half), Drop(current[p], half))
  }

  // ---------------------------------------------------------------------
  // Decoding

  /** `voc * jsc * ff / intensity` over the three lists zipped (the shortest
      one decides the length). */
  function Efficiency(voc: seq<real>, jsc: seq<real>, ff: seq<real>): (r: seq<real>)
    ensures EfficiencyRule(voc, jsc, ff, r)
  {
    var len := if |voc| <= |jsc| && |voc| <= |ff| then |voc| else if |jsc| <= |ff| then |jsc| else |ff|;
    seq(len, k requires 0 <= k < len => voc[k] * jsc[k] * ff[k] / Intensity)
  }

  function DateOf(date: string): DateValue {
    if Text.IsDigits(date) then Converted(date) else Verbatim(date)
  }

  function Build(h: Header, m: Metrics, n: int, current: seq<seq<real>>, voltage: seq<seq<real>>): JvData
    requires |current| == |voltage| == Pixels
  {
    var jsc := AbsAll(m.jscRev);
    JvData(DateOf(h.date), h.area, Intensity, jsc, m.vocRev, m.ffRev,
           Efficiency(m.vocRev, jsc, m.ffRev), AbsAll(m.mppRev), jsc, m.vocRev,
           Curves(voltage, current, n / 2))
  }

  /** `get_jv_data_location_1` on the fields of the last line. */
  function DecodeFields(parse: Parse, f: seq<string>): Result<JvData> {
    var h :- ReadHeader(parse, f);
    var m :- ReadMetrics(parse, f);
    var n :- SweepPointCount(h.vStart, h.vEnd, h.vDelta);
    var current :- PixelBlocks(parse, f, n, 0, Pixels);
    var voltage :- PixelBlocks(parse, f, n, Pixels, 2 * Pixels);
    Success(Build(h, m, n, current, voltage))
  }

  /** `get_jv_data_location_1(filedata)`. */
  function Decode(parse: Parse, filedata: string): Result<JvData> {
    DecodeFields(parse, LastFields(filedata))
  }

  /** A line with more than 40 tab-separated fields (the line itself is not
      stripped for this test). */
  predicate WideLine(line: string) {
    |Text.Split(line, '\t')| > MinTabFields
  }

  /** The test `get_jv_data` applies before decoding: the raw text holds a
      tab and some line of the stripped text is wide. */
  predicate Recognised(filedata: string) {
    var lines := Lines(filedata);
    |lines| > 0 && '\t' in filedata && exists k | 0 <= k < |lines| :: WideLine(lines[k])
  }

  /** `get_jv_data(filedata)`: the decoded data labelled 'Location 1 IV
      Format', or `(None, 'Unknown format')`. */
  function GetJvData(parse: Parse, filedata: string): Result<(Option<JvData>, string)> {
    if Recognised(filedata) then
      var d :- Decode(parse, filedata);
      Success((Some(d), Location1Label))
    else Success((None, UnknownLabel))
  }

  // ---------------------------------------------------------------------
  // Properties

  /** The format is recognised exactly when some line of the stripped text
      holds at least 40 tabs; the tab test on the raw text adds nothing.
      A recognised file fails exactly when its decoding fails. */
  lemma DetectionByTabCount(parse: Parse, filedata: string)
    ensures (exists k | 0 <= k < |Lines(filedata)| :: Text.Count(Lines(filedata)[k], '\t') >= MinTabFields) ==>
      && (GetJvData(parse, filedata).Failure? <==> Decode(parse, filedata).Failure?)
      && (GetJvData(parse, filedata).Success? ==>
            GetJvData(parse, filedata).value == (Some(Decode(parse, filedata).value), Location1Label))
    ensures !(exists k | 0 <= k < |Lines(filedata)| :: Text.Count(Lines(filedata)[k], '\t') >= MinTabFields) ==>
      GetJvData(parse, filedata) == Success((None, UnknownLabel))
  {
    RecognisedByTabCount(filedata);
  }

  /** The recognition test reduces to a line with at least 40 tabs. */
  lemma RecognisedByTabCount(filedata: string)
    ensures Recognised(filedata) <==>
      exists k | 0 <= k < |Lines(filedata)| :: Text.Count(Lines(filedata)[k], '\t') >= MinTabFields
  {
    var lines := Lines(filedata);
    forall k | 0 <= k < |lines|
      ensures WideLine(lines[k]) <==> Text.Count(lines[k], '\t') >= MinTabFields
    {
      Text.SplitCount(lines[k], '\t');
    }
    if exists k | 0 <= k < |lines| :: Text.Count(lines[k], '\t') >= MinTabFields {
      var k :| 0 <= k < |lines| && Text.Count(lines[k], '\t') >= MinTabFields;
      if '\t' !in lines[k] {
        Text.CountZero(lines[k], '\t');
      }
      Text.SplitPieceChar(Text.Strip(filedata), '\n', k, '\t');
      Text.StripChar(filedata, '\t');
    }
  }

  /** Only the last line is read: anything before it, including lines wide
      enough to select the format, leaves the decoded fields unchanged. */
  lemma LastLineOnly(earlier: string, last: string)
    requires '\n' !in last && |last| > 0
    requires !Text.IsSpace(last[0]) && !Text.IsSpace(last[|last| - 1])
    ensures LastFields(earlier + "\n" + last) == LastFields(last)
  {
    LastLineOfText(earlier, last);
    LastLineFields(earlier + "\n" + last, last);
    Text.StripOfClean(last);
    Text.SplitClean(last, '\n');
    assert Lines(last) == [last];
    LastLineFields(last, last);
  }

  /** The last line of `earlier + '\n' + last` is `last`. */
  lemma LastLineOfText(earlier: string, last: string)
    requires '\n' !in last && |last| > 0
    requires !Text.IsSpace(last[0]) && !Text.IsSpace(last[|last| - 1])
    ensures Lines(earlier + "\n" + last)[|Lines(earlier + "\n" + last)| - 1] == last
  {
    var front := earlier + "\n";
    StripBeforeLast(front, last);
    StripLeftKeepsEnd(front);
    LastPieceAfter(Text.StripLeft(front), last);
  }

  /** Stripping the left of a text that ends with a line break leaves
      nothing or a text that still ends with it. */
  lemma StripLeftKeepsEnd(front: string)
    requires |front| > 0 && front[|front| - 1] == '\n'
    ensures var sf := Text.StripLeft(front); |sf| > 0 ==> sf[|sf| - 1] == '\n'
  {
    var sf := Text.StripLeft(front);
    if |sf| > 0 {
      assert sf[|sf| - 1] == front[|front| - 1];
    }
  }

  lemma StripBeforeLast(front: string, last: string)
    requires |last| > 0 && !Text.IsSpace(last[0]) && !Text.IsSpace(last[|last| - 1])
    ensures Text.Strip(front + last) == Text.StripLeft(front) + last
  {
    Text.StripLeftAppend(front, last);
    var l := Text.StripLeft(front) + last;
    assert Text.StripRight(l) == l;
  }

  /** `sf` is empty or ends with a line break. */
  lemma LastPieceAfter(sf: string, last: string)
    requires '\n' !in last
    requires |sf| > 0 ==> sf[|sf| - 1] == '\n'
    ensures var p := Text.Split(sf + last, '\n'); p[|p| - 1] == last
  {
    if |sf| > 0 {
      assert sf + last == sf[..|sf| - 1] + ['\n'] + last;
      Text.SplitLastPiece(sf[..|sf| - 1], '\n', last);
    } else {
      assert sf + last == last;
      Text.SplitClean(last, '\n');
    }
  }

  lemma LastLineFields(text: string, last: string)
    requires Lines(text)[|Lines(text)| - 1] == last
    ensures LastFields(text) == Fields(last)
  {
  }

  /** Hence the decoded data depend on the last line alone. */
  lemma EarlierLinesIgnored(parse: Parse, earlier: string, last: string)
    requires '\n' !in last && |last| > 0
    requires !Text.IsSpace(last[0]) && !Text.IsSpace(last[|last| - 1])
    ensures Decode(parse, earlier + "\n" + last) == Decode(parse, last)
  {
    LastLineOnly(earlier, last);
  }

  /** The sweep-point count truncates: a step of 0.4 V over 1 V gives
      2 * int(3.5) = 6 points, where rounding would give 8; a step of 1 V
      gives 2 * 2 = 4. */
  lemma SweepPointCountExamples()
    ensures SweepPointCount(0.0, 1.0, 0.4) == Success(6)
    ensures SweepPointCount(0.0, 1.0, 1.0) == Success(4)
    ensures SweepPointCount(1.0, 0.0, 0.25) == Success(10)
  {
    assert Abs(1.0 - 0.0) / 0.4 + 1.0 == 3.5;
    assert Trunc(3.5) == 3;
    assert Trunc(2.0) == 2;
    assert Abs(0.0 - 1.0) / 0.25 + 1.0 == 5.0;
    assert Trunc(5.0) == 5;
  }

  /** The sweep-point count of a line whose header reads. */
  function SweepOf(parse: Parse, f: seq<string>): Result<int> {
    var h :- ReadHeader(parse, f);
    SweepPointCount(h.vStart, h.vEnd, h.vDelta)
  }

  /** A decoded file is built from its header, its metrics, the sweep-point
      count and the two groups of four windows. */
  lemma DecodedParts(parse: Parse, f: seq<string>)
    requires DecodeFields(parse, f).Success?
    ensures ReadHeader(parse, f).Success? && ReadMetrics(parse, f).Success? && SweepOf(parse, f).Success?
    ensures PixelBlocks(parse, f, SweepOf(parse, f).value, 0, Pixels).Success?
    ensures PixelBlocks(parse, f, SweepOf(parse, f).value, Pixels, 2 * Pixels).Success?
    ensures DecodeFields(parse, f).value ==
      Build(ReadHeader(parse, f).value, ReadMetrics(parse, f).value, SweepOf(parse, f).value,
            PixelBlocks(parse, f, SweepOf(parse, f).value, 0, Pixels).value,
            PixelBlocks(parse, f, SweepOf(parse, f).value, Pixels, 2 * Pixels).value)
  {
  }

  /** The eight curves of a decoded file: reverse and forward per pixel in
      pixel order, none dark, and each pair together is exactly the pixel's
      parsed current-density window `p` and voltage window `4 + p`. */
  lemma DecodedCurves(parse: Parse, f: seq<string>, p: nat)
    requires DecodeFields(parse, f).Success? && p < Pixels
    ensures SweepOf(parse, f).Success?
    ensures |DecodeFields(parse, f).value.curves| == 2 * Pixels
    ensures forall t | 0 <= t < 2 * Pixels :: !DecodeFields(parse, f).value.curves[t].dark
    ensures DecodeFields(parse, f).value.curves[2 * p].name == CurveName(p, true)
    ensures DecodeFields(parse, f).value.curves[2 * p + 1].name == CurveName(p, false)
    ensures ParseAll(parse, Window(f, SweepOf(parse, f).value, p)) ==
      Success(DecodeFields(parse, f).value.curves[2 * p].currentDensity + DecodeFields(parse, f).value.curves[2 * p + 1].currentDensity)
    ensures ParseAll(parse, Window(f, SweepOf(parse, f).value, Pixels + p)) ==
      Success(DecodeFields(parse, f).value.curves[2 * p].voltage + DecodeFields(parse, f).value.curves[2 * p + 1].voltage)
  {
    DecodedParts(parse, f);
    var n := SweepOf(parse, f).value;
    var current := PixelBlocks(parse, f, n, 0, Pixels).value;
    var voltage := PixelBlocks(parse, f, n, Pixels, 2 * Pixels).value;
    assert ParseAll(parse, Window(f, n, Pixels + p)) == Success(voltage[Pixels + p - Pixels]);
  }

  /** With a positive count on a line long enough for all eight windows, the
      reverse curve of each pixel holds the first half of its window. */
  lemma DecodedReverseHalf(parse: Parse, f: seq<string>, p: nat)
    requires DecodeFields(parse, f).Success? && p < Pixels
    requires SweepOf(parse, f).Success? && SweepOf(parse, f).value > 0
    requires |f| >= HeaderFields + 2 * Pixels * SweepOf(parse, f).value
    ensures |DecodeFields(parse, f).value.curves| == 2 * Pixels
    ensures HalvesAt(DecodeFields(parse, f).value.curves, p, SweepOf(parse, f).value / 2)
  {
    var n := SweepOf(parse, f).value;
    DecodedParts(parse, f);
    BlockLength(parse, f, n, 0, Pixels, p);
    BlockLength(parse, f, n, Pixels, 2 * Pixels, p);
    var current := PixelBlocks(parse, f, n, 0, Pixels).value;
    var voltage := PixelBlocks(parse, f, n, Pixels, 2 * Pixels).value;
    assert n == 2 * (n / 2);
    CurvesHalves(voltage, current, n / 2, p);
  }

  /** A window of `2 * half` points splits into two curves of `half` points. */
  lemma CurvesHalves(voltage: seq<seq<real>>, current: seq<seq<real>>, half: nat, p: nat)
    requires |voltage| == |current| == Pixels && p < Pixels
    requires |voltage[p]| == |current[p]| == 2 * half
    ensures HalvesAt(Curves(voltage, current, half), p, half)
  {
    var c := Curves(voltage, current, half);
    assert |c[2 * p].voltage| + |c[2 * p + 1].voltage| == 2 * half;
    assert |c[2 * p].currentDensity| + |c[2 * p + 1].currentDensity| == 2 * half;
  }

  /** On a line long enough for all eight windows, every parsed window holds
      `n` values. */
  lemma BlockLength(parse: Parse, f: seq<string>, n: int, q: nat, stop: nat, i: nat)
    requires q + i < stop <= 2 * Pixels && n > 0
    requires |f| >= HeaderFields + 2 * Pixels * n
    requires PixelBlocks(parse, f, n, q, stop).Success?
    ensures |PixelBlocks(parse, f, n, q, stop).value[i]| == n
  {
    FullWindow(f, n, q + i);
  }

  /** The reverse and the forward curve of pixel `p` both hold `half` points. */
  predicate HalvesAt(c: seq<Curve>, p: nat, half: int)
    requires |c| == 2 * Pixels && p < Pixels
  {
    && |c[2 * p].voltage| == half && |c[2 * p + 1].voltage| == half
    && |c[2 * p].currentDensity| == half && |c[2 * p + 1].currentDensity| == half
  }

  /** The header entries: the first pixel's area, the date converted only
      when it is all digits, and an intensity of 100. */
  lemma DecodedHeader(parse: Parse, f: seq<string>)
    requires DecodeFields(parse, f).Success?
    ensures |f| >= 7
    ensures parse(f[6]) == Some(DecodeFields(parse, f).value.activeArea)
    ensures Text.IsDigits(f[1]) ==> DecodeFields(parse, f).value.datetime == Converted(f[1])
    ensures !Text.IsDigits(f[1]) ==> DecodeFields(parse, f).value.datetime == Verbatim(f[1])
    ensures DecodeFields(parse, f).value.intensity == 100.0
  {
    DecodedParts(parse, f);
  }

  /** The pixel-wise products V_oc * |J_sc| * FF / 100, over the shortest
      of the three lists. */
  predicate EfficiencyRule(voc: seq<real>, jsc: seq<real>, ff: seq<real>, eff: seq<real>) {
    && |eff| <= |voc| && |eff| <= |jsc| && |eff| <= |ff|
    && (|eff| == |voc| || |eff| == |jsc| || |eff| == |ff|)
    && forall k | 0 <= k < |eff| :: eff[k] == voc[k] * jsc[k] * ff[k] / 100.0
  }

  /** J_sc and J_MPP are the absolute reverse short-circuit currents, read
      after removing 'hysteresis$'. */
  lemma DecodedCurrents(parse: Parse, f: seq<string>)
    requires DecodeFields(parse, f).Success?
    ensures AbsFrom(parse, StripMarker(Slice(f, 10, 14)), DecodeFields(parse, f).value.jSc)
    ensures DecodeFields(parse, f).value.jMpp == DecodeFields(parse, f).value.jSc
  {
    assert ReadMetrics(parse, f).Success?;
    var m := ReadMetrics(parse, f).value;
    assert AbsFrom(parse, StripMarker(Slice(f, 10, 14)), AbsAll(m.jscRev));
    assert DecodeFields(parse, f).value.jSc == AbsAll(m.jscRev) == DecodeFields(parse, f).value.jMpp by { DecodedParts(parse, f); }
  }

  /** V_oc is read in millivolts and U_MPP repeats it. */
  lemma DecodedVoltages(parse: Parse, f: seq<string>)
    requires DecodeFields(parse, f).Success?
    ensures VoltsFrom(parse, Slice(f, 18, 22), DecodeFields(parse, f).value.vOc)
    ensures DecodeFields(parse, f).value.uMpp == DecodeFields(parse, f).value.vOc
  {
    assert ReadMetrics(parse, f).Success?;
    var m := ReadMetrics(parse, f).value;
    assert VoltsFrom(parse, Slice(f, 18, 22), m.vocRev);
    assert DecodeFields(parse, f).value.vOc == m.vocRev == DecodeFields(parse, f).value.uMpp by { DecodedParts(parse, f); }
  }

  /** Fill factors are read as they are, maximum powers as absolute values,
      and each efficiency is V_oc * |J_sc| * FF / 100. */
  lemma DecodedEfficiency(parse: Parse, f: seq<string>)
    requires DecodeFields(parse, f).Success?
    ensures ParseAll(parse, Slice(f, 26, 30)) == Success(DecodeFields(parse, f).value.fillFactor)
    ensures AbsFrom(parse, Slice(f, 34, 38), DecodeFields(parse, f).value.pMpp)
    ensures var d := DecodeFields(parse, f).value; EfficiencyRule(d.vOc, d.jSc, d.fillFactor, d.efficiency)
  {
    assert ReadMetrics(parse, f).Success?;
    var m := ReadMetrics(parse, f).value;
    var jsc := AbsAll(m.jscRev);
    assert AbsFrom(parse, Slice(f, 34, 38), AbsAll(m.mppRev));
    assert EfficiencyRule(m.vocRev, jsc, m.ffRev, Efficiency(m.vocRev, jsc, m.ffRev));
    var d := DecodeFields(parse, f).value;
    assert d.fillFactor == m.ffRev && d.pMpp == AbsAll(m.mppRev) && d.jSc == jsc
      && d.efficiency == Efficiency(m.vocRev, jsc, m.ffRev) && d.vOc == m.vocRev
    by { DecodedParts(parse, f); }
  }

  /** A file whose header is too short or has an unreadable sweep field, or
      whose step is zero, fails to decode. */
  lemma DecodeFailures(parse: Parse, f: seq<string>)
    ensures |f| < 7 ==> DecodeFields(parse, f).Failure?
    ensures |f| >= 7 && parse(f[4]) == Some(0.0) ==> DecodeFields(parse, f).Failure?
    ensures |f| >= 7 && parse(f[2]).None? ==> DecodeFields(parse, f).Failure?
  {
  }

  /** A wide first line does not rescue a short last line: the format is
      recognised, but only the last line is decoded, and it fails. */
  lemma ShortLastLineFails(parse: Parse, wide: string, last: string)
    requires '\n' !in wide && '\n' !in last && '\t' !in last
    requires |wide| > 0 && !Text.IsSpace(wide[0])
    requires |last| > 0 && !Text.IsSpace(last[0]) && !Text.IsSpace(last[|last| - 1])
    requires WideLine(wide)
    ensures GetJvData(parse, wide + "\n" + last).Failure?
  {
    var text := wide + "\n" + last;
    assert text == wide + ['\n'] + last;
    Text.StripLeftAppend(wide + "\n", last);
    assert Text.StripLeft(wide + "\n") == wide + "\n";
    assert Text.Strip(text) == text;
    Text.SplitHead(wide, '\n', last);
    Text.SplitClean(last, '\n');
    assert Lines(text) == [wide, last];
    assert WideLine(Lines(text)[0]);
    Text.SplitCount(wide, '\t');
    if '\t' !in wide {
      Text.CountZero(wide, '\t');
    }
    assert '\t' in text;
    Text.StripOfClean(last);
    Text.SplitClean(last, '\t');
    assert LastFields(text) == [last];
  }
}
