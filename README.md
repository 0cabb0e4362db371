# Redfish against IPMI: a verified model of the sensor comparison

`lab5/test_redfish.py` checks a BMC by reading its sensors two ways and
comparing the readings:

- **Redfish.** `get_redfish_sensors` fetches the thermal document and the power
  document. It builds one dict, name → sensor, from the `Temperatures` entries
  (`ReadingCelsius`) and then the `Voltages` entries (`ReadingVolts`).
- **IPMI.** `get_ipmi_sensors` reads the text that `ipmitool sensor list`
  prints. Each line is a `|`-separated row. The value is the first decimal
  number in the second field.
- **Comparison.** `compare_sensors_redfish_ipmi` pairs every Redfish name
  with every IPMI name whose lower-cased forms share one of the keywords
  `cpu`, `temp`, `core`, `processor`, `system`, `ambient`. It compares each
  pair's values with an absolute tolerance of 5.0, and passes when at least
  half of the pairs agree.
- **CPU check.** `cpu_temperature` checks every thermal entry whose name
  mentions `CPU`, `Processor` or `Core` against its upper critical threshold.

The model is written in Dafny.

- **`text.dfy` (module `Text`).** The Python string operations the code relies
  on:
  - `str.split` with its inverse `Join`;
  - `str.strip` over Python's whitespace set;
  - `str.lower`;
  - the substring test `in`;
  - `any(...)` over a keyword list.
- **`dicts.dfy` (module `Dicts`).** A dict filled by a loop, modelled as a left
  fold of optional assignments. A later assignment overwrites an earlier one.
- **`ipmi.dfy` (module `Ipmi`).** The `ipmitool` text parser:
  - the scanner that stands in for `re.search(r'(\d+\.?\d*)', reading)`,
    proved to find the leftmost, longest word of that pattern;
  - the number it denotes, computed exactly;
  - the line filter;
  - the parsing loop, as a method proved equal to the fold.
- **`redfish.dfy` (module `Redfish`).** Two methods, each proved against a
  specification function:
  - the two collecting loops of `get_redfish_sensors`;
  - the two loops of `cpu_temperature`.
- **`reconcile.dfy` (module `Reconcile`).** The three parts of
  `compare_sensors_redfish_ipmi`:
  - the nested matching loops, with the sets they mutate;
  - the comparison loop;
  - the verdict.

  Every loop is a method proved against a set-valued or sequence-valued
  specification.
- **`wrappers.dfy`.** The `Option` type.

The fetches, the subprocess and the logging are not modelled. The methods
start from what those calls return:
- a status code and the list the code reads from each JSON document;
- the command's standard output as a string.

Matching is **many-to-many**. For every
(Redfish, IPMI) name pair sharing a keyword, the pair goes into `common_sensors`,
and nothing removes either name from further pairing. A name can therefore sit
in several pairs (`Reconcile.ManyToMany`). The `redfish_only` and `ipmi_only`
sets only record which names found no partner at all. Because every pair is taken,
the verdict does not depend on iteration order. The model iterates sets in an
arbitrary order, and every contract holds for every order.

The readings in both dicts are always present:
- `get_redfish_sensors` skips `None` readings;
- `get_ipmi_sensors` skips lines without a number.

So every pair `compare_sensors_redfish_ipmi` compares has two readings, and the
model's sensor records hold a number, not an optional one.

In `cpu_temperature` both `warning` and `critical` are read from
`Thresholds.UpperCritical.ReadingCelsius`. The high-temperature warning branch
therefore follows a failed critical test on the same number and never fires
(`Redfish.WarningNeverFires`). The method keeps the branch as the source has it.

## Model

| member | source | states |
|---|---|---|
| Text.Split | lab5/test_redfish.py:184 | `s.split(sep)` yields at least one piece, no piece contains the separator, and joining the pieces with the separator gives back `s` |
| Text.SplitJoin | lab5/test_redfish.py:180 | splitting inverts joining: a non-empty list of separator-free pieces is recovered from its join |
| Text.SplitLength | lab5/test_redfish.py:184-185 | a line splits into exactly one more field than it has `\|` characters |
| Text.Strip | lab5/test_redfish.py:184 | `part.strip()` is a slice of `part` with only whitespace before and after it, and it neither begins nor ends with whitespace |
| Text.IsSpace | lab5/test_redfish.py:184 | the characters Python's `str.isspace()` accepts, which `str.strip()` removes (Text.Strip) |
| Text.StripIdempotent | lab5/test_redfish.py:184 | stripping a stripped field changes nothing |
| Text.Lower | lab5/test_redfish.py:277-278 | `name.lower()` has the same length and lower-cases each ASCII capital in place |
| Text.Contains | lab5/test_redfish.py:282 | the substring test `sub in s`, trying each start position; it holds iff `sub` occurs in `s` (Text.ContainsIff) |
| Text.ContainsIff | lab5/test_redfish.py:282 | the substring test `keyword in s` holds iff the keyword occurs at some index of `s` |
| Text.ContainsAny | lab5/test_redfish.py:124 | `any(keyword in name for keyword in keywords)`, keywords tried left to right; it holds iff some keyword occurs (Text.ContainsAnyIff) |
| Text.ContainsAnyIff | lab5/test_redfish.py:124 | `any(k in name for k in keywords)` holds iff one of the keywords occurs in the name |
| Dicts.AssignAll | lab5/test_redfish.py:182-196 | a dict-filling loop as the left fold of its optional assignments, first element first (Dicts.AssignAllKeys, Dicts.AssignAllLastWins, Dicts.AssignAllUntouched, Dicts.AssignAllSize) |
| Dicts.AssignAllKeys | lab5/test_redfish.py:192-196 | after the filling loop a key is in the dict iff it was there before or some element assigned it |
| Dicts.AssignAllLastWins | lab5/test_redfish.py:238-242 | the value under a key is the one its last assigning element wrote |
| Dicts.AssignAllUntouched | lab5/test_redfish.py:234-242 | a key no element assigns keeps its earlier value |
| Dicts.AssignAllSize | lab5/test_redfish.py:182-196 | each element adds at most one key |
| Text.IsDigit | lab5/test_redfish.py:190 | what `\d` matches in the model: the ASCII digits `0`-`9` (Ipmi.SearchDecimalIsLeftmostLongest) |
| Ipmi.SearchDecimal | lab5/test_redfish.py:190 | `re.search(r'(\d+\.?\d*)', reading)`: a match it returns is a run of digits, optionally a `.` and more digits; it is leftmost and longest (Ipmi.SearchDecimalIsLeftmostLongest) |
| Ipmi.SearchDecimalIsLeftmostLongest | lab5/test_redfish.py:190 | the scanner finds a match iff the reading holds a digit; the match is a word of `\d+\.?\d*`; no word starts further left; and none starting at the same place is longer |
| Ipmi.ReadingValue | lab5/test_redfish.py:190-193 | `float(re.search(...).group(1))` is defined iff the reading holds a digit |
| Ipmi.DigitsValue | lab5/test_redfish.py:193 | the integer part of `float(...)`: the number a run of digits denotes, most significant digit first; the leading digits of a match give the integer part of the reading (Ipmi.ReadingValueBounds) |
| Ipmi.FractionValue | lab5/test_redfish.py:193 | the fraction part of `float(...)`: the value 0.ddd of the digits after the point (Ipmi.FractionIsRatio, Ipmi.FractionBounds) |
| Ipmi.FractionBounds | lab5/test_redfish.py:193 | the digits after the point add a value in [0, 1) |
| Ipmi.FractionIsRatio | lab5/test_redfish.py:193 | the digits `ddd` after the point add exactly `ddd / 10^n`, where n is the number of digits: the decimal value of the literal |
| Ipmi.SpanValue | lab5/test_redfish.py:193 | `float(match.group(1))`, exactly: the integer digits plus the fraction digits of the match (Ipmi.FractionIsRatio, Ipmi.ReadingValueBounds and the example lemmas) |
| Ipmi.ReadingValueBounds | lab5/test_redfish.py:190-193 | the value read is non-negative and lies in [n, n + 1) for the integer n its leading digits denote |
| Ipmi.ReadingValueTemperature | lab5/test_redfish.py:190-193 | `"46.2 degrees C"` reads as 46.2 |
| Ipmi.ReadingValueSecondPoint | lab5/test_redfish.py:190-193 | `"12.5.3"` reads as 12.5: a second `.` ends the match |
| Ipmi.ReadingValueAbsent | lab5/test_redfish.py:190-191 | `"na"` has no value, so a line of six or more fields whose reading field is `na` adds no sensor |
| Ipmi.Fields | lab5/test_redfish.py:184 | the stripped parts of a line number one more than its `\|` characters |
| Ipmi.ParseLine | lab5/test_redfish.py:183-196 | the dict assignment one line causes, if any: the body of the parsing loop and the step of the fold (Ipmi.LineFilter) |
| Ipmi.LineFilter | lab5/test_redfish.py:183-196 | a line adds an entry iff it contains `\|`, has at least six fields (at least five `\|`), and its second field holds a digit; the entry is keyed by field 0 and holds the number, field 3 as status, and the raw line |
| Ipmi.GetIpmiSensors | lab5/test_redfish.py:179-199 | the parsing loop returns exactly the fold of the lines' assignments over the lines of the output |
| Ipmi.IpmiSensors | lab5/test_redfish.py:179-199 | the dict `get_ipmi_sensors` returns, as the left fold of Ipmi.ParseLine over the lines (its keys, values and size in Ipmi.IpmiSensorsKeys, Ipmi.IpmiSensorsLastWins and Ipmi.IpmiSensorsSize) |
| Ipmi.IpmiSensorsKeys | lab5/test_redfish.py:182-196 | a name is a key iff some qualifying line has it as its first field |
| Ipmi.IpmiSensorsLastWins | lab5/test_redfish.py:192-196 | for a repeated name the last qualifying line's entry is kept |
| Ipmi.IpmiSensorsSize | lab5/test_redfish.py:180-196 | there are never more sensors than lines, which number the newlines plus one |
| Redfish.Fetched | lab5/test_redfish.py:214-232 | the status tests of lines 216 and 232: the list a response contributes is its entries after a success code and nothing otherwise (Redfish.RedfishSensorsKeys) |
| Redfish.TemperatureAssignment | lab5/test_redfish.py:219-227 | the assignment one temperature entry causes: none for a null reading, else its name to a Celsius temperature (Redfish.TemperatureAssignsTo, Redfish.TemperatureKept) |
| Redfish.VoltageAssignment | lab5/test_redfish.py:235-242 | the assignment one voltage entry causes: none for a null reading, else its name to a voltage in Volts (Redfish.VoltageAssignsTo, Redfish.VoltageWins) |
| Redfish.TemperatureAssignsTo | lab5/test_redfish.py:216-227 | a fetched temperature entry assigns a name iff the fetch succeeded, it carries that name and its reading is not null |
| Redfish.VoltageAssignsTo | lab5/test_redfish.py:232-242 | a fetched voltage entry assigns a name iff the fetch succeeded, it carries that name and its reading is not null |
| Redfish.GetRedfishSensors | lab5/test_redfish.py:211-245 | the collecting loops return the temperatures of a successful thermal fetch, then the voltages of a successful power fetch written over them; null readings and failed fetches add nothing |
| Redfish.RedfishSensors | lab5/test_redfish.py:211-245 | the dict `get_redfish_sensors` returns: the temperature fold, then the voltage fold over it (its keys and values in Redfish.RedfishSensorsKeys, Redfish.VoltageWins and Redfish.TemperatureKept) |
| Redfish.RedfishSensorsKeys | lab5/test_redfish.py:216-242 | a name is a key iff a successfully fetched temperature or voltage entry of that name has a non-null reading |
| Redfish.VoltageWins | lab5/test_redfish.py:232-242 | the last voltage reading of a name overwrites any temperature of that name, typed as a voltage in Volts |
| Redfish.TemperatureKept | lab5/test_redfish.py:216-228 | a name no voltage carries keeps its last temperature reading, typed as a temperature in Celsius |
| Redfish.RedfishSensorsUnits | lab5/test_redfish.py:223-242 | every stored sensor is a temperature in Celsius or a voltage in Volts |
| Redfish.CpuTemperature | lab5/test_redfish.py:104-156 | passes iff: the fetch succeeded; some entry name contains `CPU`, `Processor` or `Core`; and every such entry has a reading that is below its critical threshold whenever that threshold is truthy |
| Redfish.IsCpuSensor | lab5/test_redfish.py:124 | the name contains `CPU`, `Processor` or `Core`, case-sensitively (Text.ContainsAnyIff, Redfish.CpuTemperature) |
| Redfish.CpuReadingOf | lab5/test_redfish.py:125-130 | the record kept for a processor entry: its name, its reading, and the UpperCritical reading as both warning and critical (Redfish.WarningNeverFires) |
| Redfish.CpuReadings | lab5/test_redfish.py:119-130 | the list `cpu_temperatures` the first loop builds: one record per processor entry, in order (Redfish.CpuReadingsFaithful) |
| Redfish.Truthy | lab5/test_redfish.py:148-151 | Python truthiness of an optional threshold: present and not zero |
| Redfish.WithinLimits | lab5/test_redfish.py:145-150 | a record leaves `all_within_limits` set: it has a reading, and no truthy critical threshold at or below it (Redfish.CpuReadingsFaithful, Redfish.CpuTemperature) |
| Redfish.CpuReadingsFaithful | lab5/test_redfish.py:119-134 | the collected list is empty iff no entry is a processor sensor, and all its records are within limits iff every processor entry is |
| Redfish.WarningNeverFires | lab5/test_redfish.py:126-152 | since the warning threshold is the critical one, a reading that passed the critical test never triggers the warning |
| Reconcile.MatchSensors | lab5/test_redfish.py:271-287 | the nested loops collect exactly the name pairs that share a keyword; the only-sets keep exactly the names without a partner |
| Reconcile.MatchOne | lab5/test_redfish.py:276-287 | the inner loop adds exactly the pairs that one Redfish name forms and removes exactly their names from the only-sets |
| Reconcile.AnyKeywordInBoth | lab5/test_redfish.py:282 | `any(keyword in a and keyword in b for keyword in keywords)`, tried left to right (Reconcile.AnyKeywordInBothIff) |
| Reconcile.SharesKeyword | lab5/test_redfish.py:277-282 | the test of line 282 on the lower-cased names with the six keywords (Reconcile.CommonPairsIff) |
| Reconcile.AnyKeywordInBothIff | lab5/test_redfish.py:282 | `any(k in a and k in b for k in keywords)` holds iff one keyword occurs in both strings |
| Reconcile.CommonPairs | lab5/test_redfish.py:271-287 | the set `common_sensors` ends as: every name pair sharing a keyword (Reconcile.MatchSensors, Reconcile.CommonPairsIff) |
| Reconcile.PairedRedfish | lab5/test_redfish.py:272-286 | the Redfish names with at least one partner, which leave `redfish_only` (Reconcile.MatchSensors, Reconcile.MatchPartition) |
| Reconcile.PairedIpmi | lab5/test_redfish.py:273-287 | the IPMI names with at least one partner, which leave `ipmi_only` (Reconcile.MatchSensors, Reconcile.MatchPartition) |
| Reconcile.CommonPairsIff | lab5/test_redfish.py:277-283 | a pair is common iff both names are keys and one of the six keywords occurs in both lower-cased names |
| Reconcile.MatchPartition | lab5/test_redfish.py:271-287 | the partnered names are exactly the names that occur in common pairs, and each key set splits into two disjoint parts: its only-set and the names it contributes to the common pairs |
| Reconcile.OnlyMeansUnpaired | lab5/test_redfish.py:272-287 | a name ends in its only-set iff it is a key that occurs in no common pair |
| Reconcile.ManyToMany | lab5/test_redfish.py:275-283 | a Redfish name sharing a keyword with two IPMI names sits in two pairs, so one name can be compared against several |
| Reconcile.CpuPrefixShares | lab5/test_redfish.py:277-282 | two names that both start with `CPU` or `cpu` share a keyword |
| Reconcile.Agrees | lab5/test_redfish.py:297-302 | `abs(rf_value - ipmi_value) <= tolerance` with tolerance 5.0 (Reconcile.CompareValues) |
| Reconcile.Verdicts | lab5/test_redfish.py:294-302 | the list `comparison_results` for pairs in a given order: one boolean per pair, in that order, true iff the pair's readings agree |
| Reconcile.CompareValues | lab5/test_redfish.py:291-302 | the loop yields one boolean per common pair, each naming a distinct pair, true iff that pair's readings differ by at most 5.0, and as many true values as there are agreeing pairs |
| Reconcile.VerdictsCount | lab5/test_redfish.py:294-311 | over distinct pairs, `sum(comparison_results)` is the number of pairs whose readings agree |
| Reconcile.CountTrue | lab5/test_redfish.py:311 | `sum(comparison_results)`: never more than the number of results, and equal to it iff every result is true; over the loop's results it counts the agreeing pairs (Reconcile.VerdictsCount) |
| Reconcile.PercentageThreshold | lab5/test_redfish.py:311-315 | `matching / total * 100 >= 50.0` iff twice the matches reach the total |
| Reconcile.Reconciled | lab5/test_redfish.py:261-318 | the verdict of the comparison for two sensor dicts (Reconcile.CompareSensors, Reconcile.PercentageThreshold) |
| Reconcile.CompareSensors | lab5/test_redfish.py:261-318 | fails when either dict is empty or no pair shares a keyword; otherwise passes iff at least half of the common pairs agree within the tolerance |
| Reconcile.CompareSensorsRedfishIpmi | lab5/test_redfish.py:254-318 | the verdict, from the fetched documents and the `ipmitool` output, is the Reconciled verdict of the two dicts the extractors build |
| Reconcile.SingleSensorVerdict | lab5/test_redfish.py:261-318 | with one sensor on each side, the comparison passes iff the names share a keyword and the readings agree |
| Reconcile.AgreeingExample | lab5/test_redfish.py:254-318 | `CPU Temp` at 45.0 against `CPU1` at 46.2 is one pair within tolerance, so the comparison passes |
| Reconcile.NoCommonSensorExample | lab5/test_redfish.py:254-318 | `Ambient` against `FAN1` shares no keyword, so the comparison fails |

## Left out

- The HTTP requests, with `requests` exceptions and the status codes they return. Each fetch is a `Response` value: a status code and the list read from the JSON body. The model starts from that value.
- A JSON body that does not parse, which raises `ValueError` from `response.json()`. It is not modelled.
- Absent `Name`, `ReadingCelsius`, `ReadingVolts`, `Thresholds` and `UpperCritical` keys. These become the defaults the code supplies: the empty name, or `None`. The model receives the defaults directly.
- JSON `null` where the code expects an object or a string is outside the model's types. A `null` `Thresholds` or `UpperCritical` on a processor entry makes the `.get` on line 128 raise `AttributeError`, and a `null` `Name` makes `'CPU' in name` raise `TypeError` (line 124); `cpu_temperature` catches only `RequestException` and `ValueError` (lines 158-163), so these errors leave the function. The model has a threshold only as a number or absent, and a name only as a string. In `get_redfish_sensors` a `null` `Name` would become the key `None`; the model's keys are strings.
- `subprocess.run` of `ipmitool`, its 30-second timeout and its return code. A command that fails or times out yields `{}`, which is what empty output gives as well. The model takes the standard output as a string.
- The catch-all `except Exception` handlers, which turn any failure into `False` or `{}`. Non-numeric JSON readings, which would raise in `abs(rf_value - ipmi_value)`, are excluded by the types.
- Logging, including the `[:3]` previews of the only-sets, and the per-pair status strings. They do not affect a result.
- The thermal fetch of `cpu_temperature` on line 108 is a parameter. The model starts at the status check on line 110.
- Ipmi.ReadingValue: readings are exact real numbers, not IEEE doubles. `float()` rounds every decimal that has no exact binary form (`46.2` among them), and the subtraction on line 297 and the division on line 313 round too; the model computes all three exactly. The model and the source can therefore give different verdicts only where that rounding carries a difference across the 5.0 tolerance or a percentage across 50%. The same applies to Ipmi.SpanValue and Redfish readings.
- Ipmi.SearchDecimalIsLeftmostLongest, Ipmi.SearchDecimal and Ipmi.ReadingValue: `\d` is the ASCII digits in the model (Text.IsDigit). Python's `\d` also accepts other Unicode decimal digits.
- Text.Lower: lower-cases ASCII capitals only. Python's `str.lower()` also maps non-ASCII capitals.
- Dict and set iteration order. Python iterates dicts in insertion order and sets in hash order. The model iterates the key sets in an arbitrary order, and the verdict is proved the same for all orders. The order of `comparison_results` is left unspecified. Only the pair each entry belongs to is recorded.
- The other tests in `lab5/test_redfish.py`: authentication, system information, power control and the pytest wrappers. They are outside the comparison core.
- `lab4/tests.py` and `lab8/locustfile.py` are not part of this model.
