/**
 Parsing the text that `ipmitool sensor list` prints (get_ipmi_sensors in
 lab5/test_redfish.py): one sensor per line, fields separated by `|`, the
 reading field holding a decimal number somewhere in free text.
 */
module Ipmi {
  import opened Wrappers
  import opened Text
  import opened Dicts

  /** What get_ipmi_sensors stores under a sensor's name. */
  datatype IpmiSensor = IpmiSensor(value: real, status: string, rawLine: string)

  // ---------------------------------------------------------------------------
  // re.search(r'(\d+\.?\d*)', reading)

  predicate AllDigits(t: string) {
    forall k :: 0 <= k < |t| ==> IsDigit(t[k])
  }

  /** `t` is a word of the regular expression `\d+\.?\d*`. */
  ghost predicate DecimalShape(t: string) {
    && |t| >= 1
    && IsDigit(t[0])
    && (|| AllDigits(t)
        || exists d :: 0 < d < |t| && t[d] == '.' && AllDigits(t[..d]) && AllDigits(t[d + 1..]))
  }

  /** The first index at or after `from` holding a digit (or |s|). */
  function FirstDigit(s: string, from: nat): (i: nat)
    requires from <= |s|
    ensures from <= i <= |s|
    ensures forall k :: from <= k < i ==> !IsDigit(s[k])
    ensures i < |s| ==> IsDigit(s[i])
    decreases |s| - from
  {
    if from == |s| || IsDigit(s[from]) then from else FirstDigit(s, from + 1)
  }

  /** The end of the longest run of digits starting at `from`. */
  function DigitRunEnd(s: string, from: nat): (j: nat)
    requires from <= |s|
    ensures from <= j <= |s|
    ensures forall k :: from <= k < j ==> IsDigit(s[k])
    ensures j < |s| ==> !IsDigit(s[j])
    decreases |s| - from
  {
    if from == |s| || !IsDigit(s[from]) then from else DigitRunEnd(s, from + 1)
  }

  /**
   Where a match lies: integer digits at s[start..point]; when stop > point, a
   '.' at `point` and fraction digits at s[point + 1..stop].
   */
  datatype Span = Span(start: nat, point: nat, stop: nat)

  predicate IsSpanOf(s: string, m: Span) {
    && m.start < m.point <= m.stop <= |s|
    && AllDigits(s[m.start..m.point])
    && (m.stop > m.point ==> s[m.point] == '.' && AllDigits(s[m.point + 1..m.stop]))
  }

  /** The scanner standing in for the regular expression search. */
  function SearchDecimal(s: string): (m: Option<Span>)
    ensures m.Some? ==> IsSpanOf(s, m.value)
  {
    var i := FirstDigit(s, 0);
    if i == |s| then None
    else
      var k := DigitRunEnd(s, i);
      if k < |s| && s[k] == '.' then Some(Span(i, k, DigitRunEnd(s, k + 1)))
      else Some(Span(i, k, k))
  }

  /** The integer a run of digits denotes, most significant first. */
  function DigitsValue(t: string): nat
    requires AllDigits(t)
    decreases |t|
  {
    if t == [] then 0 else 10 * DigitsValue(t[..|t| - 1]) + DigitValue(t[|t| - 1])
  }

  /** The value of `0.t` for a run of fraction digits `t`. */
  function FractionValue(t: string): real
    requires AllDigits(t)
    decreases |t|
  {
    if t == [] then 0.0 else (DigitValue(t[0]) as real + FractionValue(t[1..])) / 10.0
  }

  /** `float(match.group(1))`, exactly. */
  function SpanValue(s: string, m: Span): real
    requires IsSpanOf(s, m)
  {
    DigitsValue(s[m.start..m.point]) as real
      + (if m.stop > m.point then FractionValue(s[m.point + 1..m.stop]) else 0.0)
  }

  /** The number get_ipmi_sensors reads from a reading field, if the field holds one. */
  function ReadingValue(reading: string): (v: Option<real>)
    ensures v.Some? <==> exists k :: 0 <= k < |reading| && IsDigit(reading[k])
  {
    match SearchDecimal(reading)
    case None => None
    case Some(m) => Some(SpanValue(reading, m))
  }

  /** A fraction `0.ddd` lies in [0, 1). */
  lemma {:induction false} FractionBounds(t: string)
    requires AllDigits(t)
    ensures 0.0 <= FractionValue(t) < 1.0
    decreases |t|
  {
    if t != [] {
      FractionBounds(t[1..]);
    }
  }

  function Pow10(n: nat): (p: nat)
    ensures p >= 1
  {
    if n == 0 then 1 else 10 * Pow10(n - 1)
  }

  /** A digit put in front of a run is worth its value times 10 to the run's length. */
  lemma {:induction false} DigitsPrepend(c: char, t: string)
    requires IsDigit(c) && AllDigits(t)
    ensures AllDigits([c] + t)
    ensures DigitsValue([c] + t) == DigitValue(c) * Pow10(|t|) + DigitsValue(t)
    decreases |t|
  {
    assert AllDigits([c] + t) by {
      forall k | 0 <= k < |[c] + t| ensures IsDigit(([c] + t)[k]) {
        if k > 0 { assert ([c] + t)[k] == t[k - 1]; }
      }
    }
    if t != [] {
      var front := t[..|t| - 1];
      var last := t[|t| - 1];
      assert ([c] + t)[..|t|] == [c] + front;
      assert ([c] + t)[|t|] == last;
      assert AllDigits(front) by {
        forall k | 0 <= k < |front| ensures IsDigit(front[k]) { assert front[k] == t[k]; }
      }
      DigitsPrepend(c, front);
      assert DigitsValue([c] + t) == 10 * DigitsValue([c] + front) + DigitValue(last);
      assert DigitsValue(t) == 10 * DigitsValue(front) + DigitValue(last);
      Shift(DigitValue(c), Pow10(|front|), DigitsValue(front), DigitValue(last));
    }
  }

  lemma Shift(a: int, p: int, b: int, l: int)
    ensures 10 * (a * p + b) + l == a * (10 * p) + (10 * b + l)
  {
  }

  /** The fraction digits t denote exactly the decimal fraction t / 10^|t|. */
  lemma {:induction false} FractionIsRatio(t: string)
    requires AllDigits(t)
    ensures FractionValue(t) == DigitsValue(t) as real / Pow10(|t|) as real
    decreases |t|
  {
    if t != [] {
      var u := t[1..];
      assert AllDigits(u) by {
        forall k | 0 <= k < |u| ensures IsDigit(u[k]) { assert u[k] == t[k + 1]; }
      }
      FractionIsRatio(u);
      assert [t[0]] + u == t;
      DigitsPrepend(t[0], u);
      assert FractionValue(t) == (DigitValue(t[0]) as real + FractionValue(u)) / 10.0;
      RatioStep(DigitValue(t[0]), Pow10(|u|), DigitsValue(u));
    }
  }

  /** (d + v/p) / 10 == (d*p + v) / (10*p), with the cast from the integers. */
  lemma RatioStep(d: nat, p: nat, v: nat)
    requires p >= 1
    ensures (d as real + v as real / p as real) / 10.0 == (d * p + v) as real / (10 * p) as real
  {
    var pr := p as real;
    assert (d * p + v) as real == d as real * pr + v as real;
    assert (10 * p) as real == 10.0 * pr;
    assert (d as real + v as real / pr) * (10.0 * pr) == (d as real * pr + v as real) * 10.0;
  }

  /**
   The value read is never negative, and its integer part is the leading run of
   digits: it lies in [n, n + 1) for the integer n those digits denote.
   */
  lemma ReadingValueBounds(reading: string)
    requires ReadingValue(reading).Some?
    ensures var m := SearchDecimal(reading).value;
      && DigitsValue(reading[m.start..m.point]) as real <= ReadingValue(reading).value
      && ReadingValue(reading).value < DigitsValue(reading[m.start..m.point]) as real + 1.0
    ensures ReadingValue(reading).value >= 0.0
  {
    var m := SearchDecimal(reading).value;
    if m.stop > m.point {
      FractionBounds(reading[m.point + 1..m.stop]);
    }
  }

  /**
   The scanner agrees with the regular expression search: it finds a match iff
   the text holds a digit, the match is a word of `\d+\.?\d*`, no match starts
   further left, and the match cannot be extended (the engine is greedy and
   nothing in the pattern forces it to give characters back).
   */
  lemma SearchDecimalIsLeftmostLongest(s: string)
    ensures SearchDecimal(s).None? <==> forall k :: 0 <= k < |s| ==> !IsDigit(s[k])
    ensures SearchDecimal(s).Some? ==>
      var m := SearchDecimal(s).value;
      && DecimalShape(s[m.start..m.stop])
      && (forall p, q :: 0 <= p < m.start && p < q <= |s| ==> !DecimalShape(s[p..q]))
      && (forall q :: m.stop < q <= |s| ==> !DecimalShape(s[m.start..q]))
  {
    var i := FirstDigit(s, 0);
    if i < |s| {
      var m := SearchDecimal(s).value;
      SpanHasShape(s, m);
      forall p, q | 0 <= p < m.start && p < q <= |s| ensures !DecimalShape(s[p..q]) {
        assert s[p..q][0] == s[p];
      }
      forall q | m.stop < q <= |s| ensures !DecimalShape(s[m.start..q]) {
        assert !IsDigit(s[m.stop]);
        NotExtensible(s, m, q);
      }
    }
  }

  /** Helper of SearchDecimalIsLeftmostLongest: a span's text is a word of `\d+\.?\d*`. */
  lemma SpanHasShape(s: string, m: Span)
    requires IsSpanOf(s, m)
    ensures DecimalShape(s[m.start..m.stop])
  {
    var t := s[m.start..m.stop];
    var d := m.point - m.start;
    SliceOfSlice(s, m.start, m.stop, 0, d);
    assert t[..d] == t[0..d];
    assert t[0] == s[m.start]  by {
      assert s[m.start..m.point][0] == s[m.start];
    }
    if m.stop > m.point {
      SliceOfSlice(s, m.start, m.stop, d + 1, |t|);
      assert t[d + 1..] == t[d + 1..|t|];
      assert t[d] == s[m.point];
    } else {
      assert t == t[0..d];
    }
  }

  /** Helper of SearchDecimalIsLeftmostLongest: the character after the match spoils every longer slice. */
  lemma NotExtensible(s: string, m: Span, q: int)
    requires IsSpanOf(s, m) && m.stop < q <= |s|
    requires !IsDigit(s[m.stop])
    requires m.stop == m.point ==> s[m.stop] != '.'
    ensures !DecimalShape(s[m.start..q])
  {
    var u := s[m.start..q];
    var d, e := m.point - m.start, m.stop - m.start;
    assert u[e] == s[m.stop];
    SliceOfSlice(s, m.start, q, 0, d);
    assert u[..d] == u[0..d];
    if m.stop > m.point {
      assert u[d] == s[m.point];
      SliceOfSlice(s, m.start, q, d + 1, e);
      SpoiledAfterFraction(u, d, e);
    } else {
      SpoiledAfterDigits(u, e);
    }
  }

  /** A slice of a slice is a slice of the whole. */
  lemma SliceOfSlice(s: string, lo: int, hi: int, i: int, j: int)
    requires 0 <= lo <= hi <= |s| && 0 <= i <= j <= hi - lo
    ensures s[lo..hi][i..j] == s[lo + i..lo + j]
  {
    assert forall k :: 0 <= k < j - i ==> s[lo..hi][i..j][k] == s[lo + i..lo + j][k];
  }

  /** Digits, a '.', digits and then a non-digit: not a word of `\d+\.?\d*`. */
  lemma SpoiledAfterFraction(u: string, d: int, e: int)
    requires 0 < d < e < |u|
    requires AllDigits(u[..d]) && u[d] == '.' && AllDigits(u[d + 1..e]) && !IsDigit(u[e])
    ensures !DecimalShape(u)
  {
    assert !AllDigits(u) by {
      assert !IsDigit(u[d]);
    }
    forall d' | 0 < d' < |u| && u[d'] == '.'
      ensures !(AllDigits(u[..d']) && AllDigits(u[d' + 1..]))
    {
      if d' < d {
        assert u[d' + 1..][d - d' - 1] == u[d];
      } else if d' > d {
        assert u[..d'][d] == u[d];
      } else {
        assert u[d + 1..][e - d - 1] == u[e];
      }
    }
  }

  /** Digits followed by a character that is neither a digit nor '.': not a word of `\d+\.?\d*`. */
  lemma SpoiledAfterDigits(u: string, e: int)
    requires 0 < e < |u|
    requires AllDigits(u[..e]) && !IsDigit(u[e]) && u[e] != '.'
    ensures !DecimalShape(u)
  {
    assert !AllDigits(u);
    forall d' | 0 < d' < |u| && u[d'] == '.'
      ensures !(AllDigits(u[..d']) && AllDigits(u[d' + 1..]))
    {
      assert d' > e by {
        assert forall k :: 0 <= k < e ==> u[k] == u[..e][k];
      }
      assert u[..d'][e] == u[e];
    }
  }

  /** A temperature reading: the leading decimal is taken. */
  lemma ReadingValueTemperature()
    ensures ReadingValue("46.2 degrees C") == Some(46.2)
  {
    var s := "46.2 degrees C";
    assert FirstDigit(s, 0) == 0 by {
      assert IsDigit(s[0]);
    }
    assert DigitRunEnd(s, 0) == 2 by {
      assert IsDigit(s[0]) && IsDigit(s[1]) && !IsDigit(s[2]);
      assert DigitRunEnd(s, 2) == 2;
      assert DigitRunEnd(s, 1) == 2;
    }
    assert DigitRunEnd(s, 3) == 4 by {
      assert IsDigit(s[3]) && !IsDigit(s[4]);
      assert DigitRunEnd(s, 4) == 4;
    }
    assert SearchDecimal(s) == Some(Span(0, 2, 4));
    assert s[0..2] == "46" && s[3..4] == "2";
    assert DigitsValue("46") == 46 by {
      assert DigitsValue("4") == 4;
    }
    assert FractionValue("2") == 0.2;
  }

  /** A second '.' ends the match: only one fraction is read. */
  lemma ReadingValueSecondPoint()
    ensures ReadingValue("12.5.3") == Some(12.5)
  {
    var t := "12.5.3";
    assert FirstDigit(t, 0) == 0 by {
      assert IsDigit(t[0]);
    }
    assert DigitRunEnd(t, 0) == 2 by {
      assert IsDigit(t[0]) && IsDigit(t[1]) && !IsDigit(t[2]);
      assert DigitRunEnd(t, 2) == 2;
      assert DigitRunEnd(t, 1) == 2;
    }
    assert DigitRunEnd(t, 3) == 4 by {
      assert IsDigit(t[3]) && !IsDigit(t[4]);
      assert DigitRunEnd(t, 4) == 4;
    }
    assert SearchDecimal(t) == Some(Span(0, 2, 4));
    assert t[0..2] == "12" && t[3..4] == "5";
    assert DigitsValue("12") == 12 by {
      assert DigitsValue("1") == 1;
    }
    assert FractionValue("5") == 0.5;
  }

  /** A reading without digits has no value, so a line whose reading field is "na" adds no sensor. */
  lemma ReadingValueAbsent()
    ensures ReadingValue("na") == None
    ensures forall line :: '|' in line && |Fields(line)| >= 6 && Fields(line)[1] == "na" ==> ParseLine(line).None?
  {
    assert !IsDigit("na"[0]) && !IsDigit("na"[1]);
  }

  // ---------------------------------------------------------------------------
  // One line of `ipmitool sensor list`

  /** `[part.strip() for part in line.split('|')]`. */
  function Fields(line: string): (fields: seq<string>)
    ensures |fields| == Count(line, '|') + 1
  {
    var parts := Split(line, '|');
    SplitLength(line, '|');
    seq(|parts|, k requires 0 <= k < |parts| => Strip(parts[k]))
  }

  /** The dict assignment one line causes, if any: key field 0, then value, status field 3 and the raw line. */
  function ParseLine(line: string): Option<(string, IpmiSensor)> {
    if '|' !in line then None
    else
      var parts := Fields(line);
      if |parts| < 6 then None
      else
        match ReadingValue(parts[1])
        case None => None
        case Some(v) => Some((parts[0], IpmiSensor(v, parts[3], line)))
  }

  /**
   A line adds an entry exactly when it contains '|', has at least six fields
   (at least five separators) and its second field holds a digit; the entry is
   keyed by the first field and carries the first decimal number of the second
   field, the fourth field as status and the line itself, unmodified.
   */
  lemma LineFilter(line: string)
    ensures ParseLine(line).Some? <==>
      && '|' in line
      && |Fields(line)| >= 6
      && exists k :: 0 <= k < |Fields(line)[1]| && IsDigit(Fields(line)[1][k])
    ensures ParseLine(line).Some? <==>
      Count(line, '|') >= 5 && exists k :: 0 <= k < |Fields(line)[1]| && IsDigit(Fields(line)[1][k])
    ensures ParseLine(line).Some? ==>
      var f := Fields(line);
      ParseLine(line).value == (f[0], IpmiSensor(ReadingValue(f[1]).value, f[3], line))
  {
    if Count(line, '|') >= 5 && '|' !in line {
      CountAbsent(line, '|');
    }
  }

  // ---------------------------------------------------------------------------
  // The whole listing

  /** The dict get_ipmi_sensors builds from the command's standard output. */
  function IpmiSensors(stdout: string): map<string, IpmiSensor> {
    AssignAll(map[], Split(stdout, '\n'), ParseLine)
  }

  /** The parsing loop of get_ipmi_sensors. */
  method GetIpmiSensors(stdout: string) returns (sensors: map<string, IpmiSensor>)
    ensures sensors == IpmiSensors(stdout)
  {
    sensors := map[];
    var lines := Split(stdout, '\n');
    for i := 0 to |lines|
      invariant sensors == AssignAll(map[], lines[..i], ParseLine)
    {
      var line := lines[i];
      AssignAllPrefix(map[], lines, ParseLine, i);
      if '|' in line {
        var parts := Fields(line);
        if |parts| >= 6 {
          var sensorName := parts[0];
          var reading := parts[1];
          var status := parts[3];
          var readingMatch := SearchDecimal(reading);
          if readingMatch.Some? {
            sensors := sensors[sensorName := IpmiSensor(SpanValue(reading, readingMatch.value), status, line)];
          }
        }
      }
    }
    assert lines[..|lines|] == lines;
  }

  /** A name is a key iff some line of the output qualifies and has that name as its first field. */
  lemma IpmiSensorsKeys(stdout: string, name: string)
    ensures name in IpmiSensors(stdout) <==>
      exists i :: AssignsTo(Split(stdout, '\n'), ParseLine, i, name)
  {
    assert IpmiSensors(stdout) == AssignAll(map[], Split(stdout, '\n'), ParseLine);
    AssignAllKeys(map[], Split(stdout, '\n'), ParseLine, name);
  }

  /** For a repeated name the last qualifying line wins. */
  lemma IpmiSensorsLastWins(stdout: string, i: int, name: string)
    requires AssignsTo(Split(stdout, '\n'), ParseLine, i, name)
    requires forall j :: i < j < |Split(stdout, '\n')| ==> !AssignsTo(Split(stdout, '\n'), ParseLine, j, name)
    ensures name in IpmiSensors(stdout)
    ensures IpmiSensors(stdout)[name] == ParseLine(Split(stdout, '\n')[i]).value.1
  {
    AssignAllLastWins(map[], Split(stdout, '\n'), ParseLine, i, name);
  }

  /** There are never more sensors than lines (newlines plus one). */
  lemma IpmiSensorsSize(stdout: string)
    ensures |IpmiSensors(stdout)| <= |Split(stdout, '\n')| == Count(stdout, '\n') + 1
  {
    AssignAllSize(map[], Split(stdout, '\n'), ParseLine);
    SplitLength(stdout, '\n');
  }
}
