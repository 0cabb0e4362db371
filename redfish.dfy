/**
 What lab5/test_redfish.py does with the Redfish documents once they have been
 fetched: get_redfish_sensors collects temperatures and voltages into one dict,
 and cpu_temperature checks the processor temperatures against their critical
 thresholds.
 */
module Redfish {
  import opened Wrappers
  import opened Text
  import opened Dicts

  /** The status codes both functions accept as a successful fetch. */
  const SuccessCodes: set<int> := {200, 202, 203, 204}

  /** A fetched document: the response's status code and the list the code reads from its JSON body. */
  datatype Response<T> = Response(statusCode: int, entries: seq<T>)

  /**
   An element of the thermal document's `Temperatures` list: `Name` (the empty
   string when missing), `ReadingCelsius`, and the `ReadingCelsius` of
   `Thresholds.UpperCritical` (None when any level is missing).
   */
  datatype TemperatureEntry = TemperatureEntry(name: string, readingCelsius: Option<real>, upperCritical: Option<real>)

  /** An element of the power document's `Voltages` list: `Name` and `ReadingVolts`. */
  datatype VoltageEntry = VoltageEntry(name: string, readingVolts: Option<real>)

  datatype SensorType = Temperature | Voltage

  /** What get_redfish_sensors stores under a sensor's name. */
  datatype RedfishSensor = RedfishSensor(value: real, sensorType: SensorType, unit: string)

  /** The list a response contributes: its entries on success, nothing otherwise. */
  function Fetched<T>(r: Response<T>): seq<T> {
    if r.statusCode in SuccessCodes then r.entries else []
  }

  // ---------------------------------------------------------------------------
  // get_redfish_sensors

  /** The dict assignment a temperature entry causes: none when its reading is null. */
  function TemperatureAssignment(t: TemperatureEntry): Option<(string, RedfishSensor)> {
    match t.readingCelsius
    case None => None
    case Some(v) => Some((t.name, RedfishSensor(v, Temperature, "Celsius")))
  }

  /** The dict assignment a voltage entry causes: none when its reading is null. */
  function VoltageAssignment(v: VoltageEntry): Option<(string, RedfishSensor)> {
    match v.readingVolts
    case None => None
    case Some(x) => Some((v.name, RedfishSensor(x, Voltage, "Volts")))
  }

  /** The dict get_redfish_sensors returns: temperatures first, then voltages over them. */
  function RedfishSensors(thermal: Response<TemperatureEntry>, power: Response<VoltageEntry>): map<string, RedfishSensor> {
    AssignAll(AssignAll(map[], Fetched(thermal), TemperatureAssignment), Fetched(power), VoltageAssignment)
  }

  /** The two collecting loops of get_redfish_sensors. */
  method GetRedfishSensors(thermal: Response<TemperatureEntry>, power: Response<VoltageEntry>)
    returns (sensors: map<string, RedfishSensor>)
    ensures sensors == RedfishSensors(thermal, power)
  {
    sensors := map[];
    if thermal.statusCode in SuccessCodes {
      var temperatures := thermal.entries;
      for i := 0 to |temperatures|
        invariant sensors == AssignAll(map[], temperatures[..i], TemperatureAssignment)
      {
        var temp := temperatures[i];
        AssignAllPrefix(map[], temperatures, TemperatureAssignment, i);
        if temp.readingCelsius.Some? {
          sensors := sensors[temp.name := RedfishSensor(temp.readingCelsius.value, Temperature, "Celsius")];
        }
      }
      assert temperatures[..|temperatures|] == temperatures;
    }
    ghost var afterThermal := sensors;
    if power.statusCode in SuccessCodes {
      var voltages := power.entries;
      for i := 0 to |voltages|
        invariant sensors == AssignAll(afterThermal, voltages[..i], VoltageAssignment)
      {
        var voltage := voltages[i];
        AssignAllPrefix(afterThermal, voltages, VoltageAssignment, i);
        if voltage.readingVolts.Some? {
          sensors := sensors[voltage.name := RedfishSensor(voltage.readingVolts.value, Voltage, "Volts")];
        }
      }
      assert voltages[..|voltages|] == voltages;
    }
  }

  /** Entry `i` of a successfully fetched thermal document is named `name` and has a reading. */
  predicate HasTemperature(thermal: Response<TemperatureEntry>, i: int, name: string) {
    && thermal.statusCode in SuccessCodes
    && 0 <= i < |thermal.entries|
    && thermal.entries[i].name == name
    && thermal.entries[i].readingCelsius.Some?
  }

  /** Entry `j` of a successfully fetched power document is named `name` and has a reading. */
  predicate HasVoltage(power: Response<VoltageEntry>, j: int, name: string) {
    && power.statusCode in SuccessCodes
    && 0 <= j < |power.entries|
    && power.entries[j].name == name
    && power.entries[j].readingVolts.Some?
  }

  lemma TemperatureAssignsTo(thermal: Response<TemperatureEntry>, i: int, name: string)
    ensures AssignsTo(Fetched(thermal), TemperatureAssignment, i, name) <==> HasTemperature(thermal, i, name)
  {
  }

  lemma VoltageAssignsTo(power: Response<VoltageEntry>, j: int, name: string)
    ensures AssignsTo(Fetched(power), VoltageAssignment, j, name) <==> HasVoltage(power, j, name)
  {
  }

  /**
   The dict holds exactly the names of the non-null readings of the documents
   that were fetched successfully; a failed fetch contributes no name.
   */
  lemma RedfishSensorsKeys(thermal: Response<TemperatureEntry>, power: Response<VoltageEntry>, name: string)
    ensures name in RedfishSensors(thermal, power) <==>
      (exists i :: HasTemperature(thermal, i, name)) || (exists j :: HasVoltage(power, j, name))
  {
    var temps := AssignAll(map[], Fetched(thermal), TemperatureAssignment);
    AssignAllKeys(map[], Fetched(thermal), TemperatureAssignment, name);
    AssignAllKeys(temps, Fetched(power), VoltageAssignment, name);
    forall i ensures AssignsTo(Fetched(thermal), TemperatureAssignment, i, name) <==> HasTemperature(thermal, i, name) {
      TemperatureAssignsTo(thermal, i, name);
    }
    forall j ensures AssignsTo(Fetched(power), VoltageAssignment, j, name) <==> HasVoltage(power, j, name) {
      VoltageAssignsTo(power, j, name);
    }
  }

  /** A voltage overwrites a same-named temperature: the last voltage reading of a name is what is stored. */
  lemma VoltageWins(thermal: Response<TemperatureEntry>, power: Response<VoltageEntry>, j: int, name: string)
    requires HasVoltage(power, j, name)
    requires forall j' :: j < j' < |power.entries| ==> !HasVoltage(power, j', name)
    ensures name in RedfishSensors(thermal, power)
    ensures RedfishSensors(thermal, power)[name] == RedfishSensor(power.entries[j].readingVolts.value, Voltage, "Volts")
  {
    var temps := AssignAll(map[], Fetched(thermal), TemperatureAssignment);
    forall j' | j < j' < |Fetched(power)| ensures !AssignsTo(Fetched(power), VoltageAssignment, j', name) {
      VoltageAssignsTo(power, j', name);
    }
    AssignAllLastWins(temps, Fetched(power), VoltageAssignment, j, name);
  }

  /**
   A name no fetched voltage carries keeps its last temperature reading, typed
   as a temperature in Celsius.
   */
  lemma TemperatureKept(thermal: Response<TemperatureEntry>, power: Response<VoltageEntry>, i: int, name: string)
    requires HasTemperature(thermal, i, name)
    requires forall i' :: i < i' < |thermal.entries| ==> !HasTemperature(thermal, i', name)
    requires forall j :: !HasVoltage(power, j, name)
    ensures name in RedfishSensors(thermal, power)
    ensures RedfishSensors(thermal, power)[name] == RedfishSensor(thermal.entries[i].readingCelsius.value, Temperature, "Celsius")
  {
    var temps := AssignAll(map[], Fetched(thermal), TemperatureAssignment);
    forall i' | i < i' < |Fetched(thermal)| ensures !AssignsTo(Fetched(thermal), TemperatureAssignment, i', name) {
      TemperatureAssignsTo(thermal, i', name);
    }
    AssignAllLastWins(map[], Fetched(thermal), TemperatureAssignment, i, name);
    forall j ensures !AssignsTo(Fetched(power), VoltageAssignment, j, name) {
      VoltageAssignsTo(power, j, name);
    }
    AssignAllUntouched(temps, Fetched(power), VoltageAssignment, name);
  }

  /** Every stored sensor is a temperature in Celsius or a voltage in Volts. */
  lemma RedfishSensorsUnits(thermal: Response<TemperatureEntry>, power: Response<VoltageEntry>, name: string)
    requires name in RedfishSensors(thermal, power)
    ensures var s := RedfishSensors(thermal, power)[name];
      (s.sensorType == Temperature && s.unit == "Celsius") || (s.sensorType == Voltage && s.unit == "Volts")
  {
    RedfishSensorsKeys(thermal, power, name);
    if exists j :: HasVoltage(power, j, name) {
      var j := LastVoltage(power, name);
      VoltageWins(thermal, power, j, name);
    } else {
      var i := LastTemperature(thermal, name);
      TemperatureKept(thermal, power, i, name);
    }
  }

  /** The last entry of a fetched power document carrying `name`. */
  lemma LastVoltage(power: Response<VoltageEntry>, name: string) returns (j: int)
    requires exists j :: HasVoltage(power, j, name)
    ensures HasVoltage(power, j, name)
    ensures forall j' :: j < j' < |power.entries| ==> !HasVoltage(power, j', name)
  {
    var j0 :| HasVoltage(power, j0, name);
    j := j0;
    while exists j' :: j < j' < |power.entries| && HasVoltage(power, j', name)
      invariant HasVoltage(power, j, name)
      decreases |power.entries| - j
    {
      var next :| j < next < |power.entries| && HasVoltage(power, next, name);
      j := next;
    }
  }

  /** The last entry of a fetched thermal document carrying `name`. */
  lemma LastTemperature(thermal: Response<TemperatureEntry>, name: string) returns (i: int)
    requires exists i :: HasTemperature(thermal, i, name)
    ensures HasTemperature(thermal, i, name)
    ensures forall i' :: i < i' < |thermal.entries| ==> !HasTemperature(thermal, i', name)
  {
    var i0 :| HasTemperature(thermal, i0, name);
    i := i0;
    while exists i' :: i < i' < |thermal.entries| && HasTemperature(thermal, i', name)
      invariant HasTemperature(thermal, i, name)
      decreases |thermal.entries| - i
    {
      var next :| i < next < |thermal.entries| && HasTemperature(thermal, next, name);
      i := next;
    }
  }

  // ---------------------------------------------------------------------------
  // cpu_temperature

  const CpuKeywords: seq<string> := ["CPU", "Processor", "Core"]

  /** The name contains 'CPU', 'Processor' or 'Core', case-sensitively. */
  predicate IsCpuSensor(name: string) {
    ContainsAny(name, CpuKeywords)
  }

  /** The record cpu_temperature keeps per processor sensor; both thresholds come from UpperCritical. */
  datatype CpuReading = CpuReading(name: string, temperature: Option<real>, warning: Option<real>, critical: Option<real>)

  function CpuReadingOf(t: TemperatureEntry): CpuReading {
    CpuReading(t.name, t.readingCelsius, t.upperCritical, t.upperCritical)
  }

  /** The processor sensors of a list of temperatures, in order. */
  function CpuReadings(ts: seq<TemperatureEntry>): seq<CpuReading>
    decreases |ts|
  {
    if ts == [] then []
    else
      var front := CpuReadings(ts[..|ts| - 1]);
      var t := ts[|ts| - 1];
      if IsCpuSensor(t.name) then front + [CpuReadingOf(t)] else front
  }

  /** Python truthiness of an optional number: present and not zero. */
  predicate Truthy(x: Option<real>) {
    x.Some? && x.value != 0.0
  }

  /** The sensor leaves `all_within_limits` set: it has a reading, and no truthy critical threshold at or below it. */
  predicate WithinLimits(c: CpuReading) {
    c.temperature.Some? && !(Truthy(c.critical) && c.temperature.value >= c.critical.value)
  }

  /**
   The warning threshold is read from the same UpperCritical field as the
   critical one, so once the critical test has failed the warning test fails
   too: the high-temperature warning is never reached.
   */
  lemma WarningNeverFires(t: TemperatureEntry)
    requires t.readingCelsius.Some?
    requires !(Truthy(CpuReadingOf(t).critical) && t.readingCelsius.value >= CpuReadingOf(t).critical.value)
    ensures !(Truthy(CpuReadingOf(t).warning) && t.readingCelsius.value >= CpuReadingOf(t).warning.value)
  {
  }

  /**
   cpu_temperature, from the thermal response on: it fails on an unsuccessful
   fetch, when no name mentions 'CPU', 'Processor' or 'Core', when such a sensor
   has no reading, or when such a sensor's reading has reached a truthy critical
   threshold; otherwise it passes.
   */
  method CpuTemperature(thermal: Response<TemperatureEntry>) returns (ok: bool)
    ensures ok <==>
      && thermal.statusCode in SuccessCodes
      && (exists i :: 0 <= i < |thermal.entries| && IsCpuSensor(thermal.entries[i].name))
      && (forall i :: 0 <= i < |thermal.entries| && IsCpuSensor(thermal.entries[i].name) ==>
            && thermal.entries[i].readingCelsius.Some?
            && !(Truthy(thermal.entries[i].upperCritical)
                 && thermal.entries[i].readingCelsius.value >= thermal.entries[i].upperCritical.value))
  {
    if thermal.statusCode !in SuccessCodes {
      return false;
    }
    var temperatures := thermal.entries;
    var cpuTemperatures: seq<CpuReading> := [];
    for i := 0 to |temperatures|
      invariant cpuTemperatures == CpuReadings(temperatures[..i])
    {
      var tempSensor := temperatures[i];
      assert temperatures[..i + 1][..i] == temperatures[..i];
      if IsCpuSensor(tempSensor.name) {
        cpuTemperatures := cpuTemperatures + [CpuReadingOf(tempSensor)];
      }
    }
    assert temperatures[..|temperatures|] == temperatures;
    CpuReadingsFaithful(temperatures);
    if cpuTemperatures == [] {
      return false;
    }
    var allWithinLimits := true;
    for k := 0 to |cpuTemperatures|
      invariant allWithinLimits <==> forall k' :: 0 <= k' < k ==> WithinLimits(cpuTemperatures[k'])
    {
      var cpuTemp := cpuTemperatures[k];
      var temp, warning, critical := cpuTemp.temperature, cpuTemp.warning, cpuTemp.critical;
      if temp.None? {
        allWithinLimits := false;
      } else if Truthy(critical) && temp.value >= critical.value {
        allWithinLimits := false;
      } else if Truthy(warning) && temp.value >= warning.value {
        // the source only logs a warning here
      }
    }
    ok := allWithinLimits;
  }

  /**
   The filtered list is empty iff no name is a processor name, and all its
   records are within limits iff every processor entry has a reading below any
   truthy critical threshold.
   */
  lemma {:induction false} CpuReadingsFaithful(ts: seq<TemperatureEntry>)
    ensures CpuReadings(ts) == [] <==> forall i :: 0 <= i < |ts| ==> !IsCpuSensor(ts[i].name)
    ensures (forall k :: 0 <= k < |CpuReadings(ts)| ==> WithinLimits(CpuReadings(ts)[k])) <==>
            (forall i :: 0 <= i < |ts| && IsCpuSensor(ts[i].name) ==> WithinLimits(CpuReadingOf(ts[i])))
    decreases |ts|
  {
    if ts != [] {
      var n := |ts| - 1;
      var front := ts[..n];
      CpuReadingsFaithful(front);
      assert forall i :: 0 <= i < n ==> front[i] == ts[i];
      var rs := CpuReadings(ts);
      if IsCpuSensor(ts[n].name) {
        assert rs == CpuReadings(front) + [CpuReadingOf(ts[n])];
        assert rs[|rs| - 1] == CpuReadingOf(ts[n]);
        assert forall k :: 0 <= k < |rs| - 1 ==> rs[k] == CpuReadings(front)[k];
      }
    }
  }
}
