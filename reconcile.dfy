/**
 compare_sensors_redfish_ipmi in lab5/test_redfish.py: pairs Redfish sensors
 with IPMI sensors by shared keywords, compares each pair's readings within an
 absolute tolerance, and passes when at least half of the pairs agree.
 */
module Reconcile {
  import opened Text
  import opened Ipmi
  import opened Redfish

  /** The keywords whose common occurrence in both lower-cased names makes a pair. */
  const MatchKeywords: seq<string> := ["cpu", "temp", "core", "processor", "system", "ambient"]

  /** The absolute tolerance within which two readings agree. */
  const Tolerance: real := 5.0

  /** A Redfish name and an IPMI name. */
  type Pair = (string, string)

  /** `any(keyword in a and keyword in b for keyword in keywords)`, tried left to right. */
  predicate AnyKeywordInBoth(keywords: seq<string>, a: string, b: string)
    decreases |keywords|
  {
    keywords != [] && ((Contains(a, keywords[0]) && Contains(b, keywords[0])) || AnyKeywordInBoth(keywords[1..], a, b))
  }

  /** Some keyword occurs in both lower-cased names. */
  predicate SharesKeyword(rfName: string, ipmiName: string) {
    AnyKeywordInBoth(MatchKeywords, Lower(rfName), Lower(ipmiName))
  }

  /** Every pair of names, one from each side, that shares a keyword. */
  ghost function CommonPairs(rfNames: set<string>, ipmiNames: set<string>): set<Pair> {
    set r, i | r in rfNames && i in ipmiNames && SharesKeyword(r, i) :: (r, i)
  }

  /** The Redfish names with at least one IPMI partner. */
  ghost function PairedRedfish(rfNames: set<string>, ipmiNames: set<string>): set<string> {
    set r | r in rfNames && exists i :: i in ipmiNames && SharesKeyword(r, i)
  }

  /** The IPMI names with at least one Redfish partner. */
  ghost function PairedIpmi(rfNames: set<string>, ipmiNames: set<string>): set<string> {
    set i | i in ipmiNames && exists r :: r in rfNames && SharesKeyword(r, i)
  }

  // ---------------------------------------------------------------------------
  // Matching

  /**
   The nested matching loops: every (Redfish, IPMI) pair sharing a keyword is
   collected, and a name leaves its "only" set as soon as it has a partner.
   Matching is many-to-many: a name may sit in several pairs.
   */
  method MatchSensors(rfNames: set<string>, ipmiNames: set<string>)
    returns (common: set<Pair>, redfishOnly: set<string>, ipmiOnly: set<string>)
    ensures common == CommonPairs(rfNames, ipmiNames)
    ensures redfishOnly == rfNames - PairedRedfish(rfNames, ipmiNames)
    ensures ipmiOnly == ipmiNames - PairedIpmi(rfNames, ipmiNames)
  {
    common := {};
    redfishOnly := rfNames;
    ipmiOnly := ipmiNames;
    var rfTodo := rfNames;
    while rfTodo != {}
      invariant rfTodo <= rfNames
      invariant common == CommonPairs(rfNames - rfTodo, ipmiNames)
      invariant redfishOnly == rfNames - PairedRedfish(rfNames - rfTodo, ipmiNames)
      invariant ipmiOnly == ipmiNames - PairedIpmi(rfNames - rfTodo, ipmiNames)
      decreases rfTodo
    {
      var rfName :| rfName in rfTodo;
      ghost var done := rfNames - rfTodo;
      common, redfishOnly, ipmiOnly := MatchOne(rfName, ipmiNames, common, redfishOnly, ipmiOnly);
      MatchUnion(done, {rfName}, ipmiNames);
      assert rfNames - (rfTodo - {rfName}) == done + {rfName};
      rfTodo := rfTodo - {rfName};
    }
    assert rfNames - rfTodo == rfNames;
  }

  /** The inner matching loop, for one Redfish name against every IPMI name. */
  method MatchOne(rfName: string, ipmiNames: set<string>,
                  common0: set<Pair>, redfishOnly0: set<string>, ipmiOnly0: set<string>)
    returns (common: set<Pair>, redfishOnly: set<string>, ipmiOnly: set<string>)
    ensures common == common0 + CommonPairs({rfName}, ipmiNames)
    ensures redfishOnly == redfishOnly0 - PairedRedfish({rfName}, ipmiNames)
    ensures ipmiOnly == ipmiOnly0 - PairedIpmi({rfName}, ipmiNames)
  {
    common, redfishOnly, ipmiOnly := common0, redfishOnly0, ipmiOnly0;
    ghost var seen: set<string> := {};
    var ipmiTodo := ipmiNames;
    while ipmiTodo != {}
      invariant seen + ipmiTodo == ipmiNames
      invariant MatchedAgainst(rfName, seen, common0, redfishOnly0, ipmiOnly0, common, redfishOnly, ipmiOnly)
      decreases ipmiTodo
    {
      var ipmiName :| ipmiName in ipmiTodo;
      var rfLower := Lower(rfName);
      var ipmiLower := Lower(ipmiName);
      MatchOneStep(rfName, seen, ipmiName, common0, redfishOnly0, ipmiOnly0, common, redfishOnly, ipmiOnly);
      assert AnyKeywordInBoth(MatchKeywords, rfLower, ipmiLower) == SharesKeyword(rfName, ipmiName);
      if AnyKeywordInBoth(MatchKeywords, rfLower, ipmiLower) {
        common := common + {(rfName, ipmiName)};
        if rfName in redfishOnly {
          redfishOnly := redfishOnly - {rfName};
        }
        if ipmiName in ipmiOnly {
          ipmiOnly := ipmiOnly - {ipmiName};
        }
      }
      seen := seen + {ipmiName};
      ipmiTodo := ipmiTodo - {ipmiName};
    }
    assert seen == ipmiNames;
  }

  /** The inner loop's invariant: the sets hold what matching `rfName` against `seen` adds to the starting sets. */
  ghost predicate MatchedAgainst(rfName: string, seen: set<string>,
                                 common0: set<Pair>, redfishOnly0: set<string>, ipmiOnly0: set<string>,
                                 common: set<Pair>, redfishOnly: set<string>, ipmiOnly: set<string>) {
    && common == common0 + CommonPairs({rfName}, seen)
    && redfishOnly == redfishOnly0 - PairedRedfish({rfName}, seen)
    && ipmiOnly == ipmiOnly0 - PairedIpmi({rfName}, seen)
  }

  /** One turn of the inner loop keeps its invariant. */
  lemma MatchOneStep(rfName: string, seen: set<string>, ipmiName: string,
                     common0: set<Pair>, redfishOnly0: set<string>, ipmiOnly0: set<string>,
                     common: set<Pair>, redfishOnly: set<string>, ipmiOnly: set<string>)
    requires MatchedAgainst(rfName, seen, common0, redfishOnly0, ipmiOnly0, common, redfishOnly, ipmiOnly)
    ensures var shares := SharesKeyword(rfName, ipmiName);
      MatchedAgainst(rfName, seen + {ipmiName}, common0, redfishOnly0, ipmiOnly0,
                     if shares then common + {(rfName, ipmiName)} else common,
                     if shares && rfName in redfishOnly then redfishOnly - {rfName} else redfishOnly,
                     if shares && ipmiName in ipmiOnly then ipmiOnly - {ipmiName} else ipmiOnly)
  {
    StepCommon(rfName, seen, ipmiName, common0, common);
    StepRedfishOnly(rfName, seen, ipmiName, redfishOnly0, redfishOnly);
    StepIpmiOnly(rfName, seen, ipmiName, ipmiOnly0, ipmiOnly);
  }

  lemma StepCommon(rfName: string, seen: set<string>, ipmiName: string, common0: set<Pair>, common: set<Pair>)
    requires common == common0 + CommonPairs({rfName}, seen)
    ensures (if SharesKeyword(rfName, ipmiName) then common + {(rfName, ipmiName)} else common)
      == common0 + CommonPairs({rfName}, seen + {ipmiName})
  {
    MatchStepCommon(rfName, seen, ipmiName);
  }

  lemma StepRedfishOnly(rfName: string, seen: set<string>, ipmiName: string, redfishOnly0: set<string>, redfishOnly: set<string>)
    requires redfishOnly == redfishOnly0 - PairedRedfish({rfName}, seen)
    ensures (if SharesKeyword(rfName, ipmiName) && rfName in redfishOnly then redfishOnly - {rfName} else redfishOnly)
      == redfishOnly0 - PairedRedfish({rfName}, seen + {ipmiName})
  {
    MatchStepRedfish(rfName, seen, ipmiName);
  }

  lemma StepIpmiOnly(rfName: string, seen: set<string>, ipmiName: string, ipmiOnly0: set<string>, ipmiOnly: set<string>)
    requires ipmiOnly == ipmiOnly0 - PairedIpmi({rfName}, seen)
    ensures (if SharesKeyword(rfName, ipmiName) && ipmiName in ipmiOnly then ipmiOnly - {ipmiName} else ipmiOnly)
      == ipmiOnly0 - PairedIpmi({rfName}, seen + {ipmiName})
  {
    MatchStepIpmi(rfName, seen, ipmiName);
  }

  /** Matching a set of Redfish names is matching its parts. */
  lemma MatchUnion(a: set<string>, b: set<string>, ipmiNames: set<string>)
    ensures CommonPairs(a + b, ipmiNames) == CommonPairs(a, ipmiNames) + CommonPairs(b, ipmiNames)
    ensures PairedRedfish(a + b, ipmiNames) == PairedRedfish(a, ipmiNames) + PairedRedfish(b, ipmiNames)
    ensures PairedIpmi(a + b, ipmiNames) == PairedIpmi(a, ipmiNames) + PairedIpmi(b, ipmiNames)
  {
  }

  /** What one more IPMI name adds for a single Redfish name: one pair, or nothing. */
  lemma MatchStepCommon(rfName: string, seen: set<string>, ipmiName: string)
    ensures CommonPairs({rfName}, seen + {ipmiName}) ==
      CommonPairs({rfName}, seen) + (if SharesKeyword(rfName, ipmiName) then {(rfName, ipmiName)} else {})
  {
  }

  lemma MatchStepRedfish(rfName: string, seen: set<string>, ipmiName: string)
    ensures PairedRedfish({rfName}, seen + {ipmiName}) ==
      PairedRedfish({rfName}, seen) + (if SharesKeyword(rfName, ipmiName) then {rfName} else {})
  {
  }

  lemma MatchStepIpmi(rfName: string, seen: set<string>, ipmiName: string)
    ensures PairedIpmi({rfName}, seen + {ipmiName}) ==
      PairedIpmi({rfName}, seen) + (if SharesKeyword(rfName, ipmiName) then {ipmiName} else {})
  {
  }

  /** The scan succeeds iff some keyword occurs in both strings. */
  lemma {:induction false} AnyKeywordInBothIff(keywords: seq<string>, a: string, b: string)
    ensures AnyKeywordInBoth(keywords, a, b) <==>
      exists k :: 0 <= k < |keywords| && Contains(a, keywords[k]) && Contains(b, keywords[k])
    decreases |keywords|
  {
    if keywords != [] {
      AnyKeywordInBothIff(keywords[1..], a, b);
      assert forall k :: 0 < k < |keywords| ==> keywords[1..][k - 1] == keywords[k];
      if AnyKeywordInBoth(keywords[1..], a, b) {
        var k :| 0 <= k < |keywords[1..]| && Contains(a, keywords[1..][k]) && Contains(b, keywords[1..][k]);
        assert Contains(a, keywords[k + 1]) && Contains(b, keywords[k + 1]);
      }
    }
  }

  /**
   A pair is common iff both names are keys and one of cpu, temp, core,
   processor, system and ambient occurs in both lower-cased names.
   */
  lemma CommonPairsIff(rfNames: set<string>, ipmiNames: set<string>, r: string, i: string)
    ensures (r, i) in CommonPairs(rfNames, ipmiNames) <==>
      && r in rfNames && i in ipmiNames
      && exists k :: 0 <= k < |MatchKeywords| && Contains(Lower(r), MatchKeywords[k]) && Contains(Lower(i), MatchKeywords[k])
  {
    AnyKeywordInBothIff(MatchKeywords, Lower(r), Lower(i));
  }

  /**
   The paired names are exactly the names that occur in some common pair, and
   each key set splits into two disjoint parts: its "only" set and the names
   its side contributes to the common pairs.
   */
  lemma MatchPartition(rfNames: set<string>, ipmiNames: set<string>)
    ensures PairedRedfish(rfNames, ipmiNames) == set p | p in CommonPairs(rfNames, ipmiNames) :: p.0
    ensures PairedIpmi(rfNames, ipmiNames) == set p | p in CommonPairs(rfNames, ipmiNames) :: p.1
    ensures (rfNames - PairedRedfish(rfNames, ipmiNames)) !! (set p | p in CommonPairs(rfNames, ipmiNames) :: p.0)
    ensures (rfNames - PairedRedfish(rfNames, ipmiNames)) + (set p | p in CommonPairs(rfNames, ipmiNames) :: p.0) == rfNames
    ensures (ipmiNames - PairedIpmi(rfNames, ipmiNames)) !! (set p | p in CommonPairs(rfNames, ipmiNames) :: p.1)
    ensures (ipmiNames - PairedIpmi(rfNames, ipmiNames)) + (set p | p in CommonPairs(rfNames, ipmiNames) :: p.1) == ipmiNames
  {
    var common := CommonPairs(rfNames, ipmiNames);
    forall r | r in PairedRedfish(rfNames, ipmiNames) ensures r in set p | p in common :: p.0 {
      var i :| i in ipmiNames && SharesKeyword(r, i);
      assert (r, i) in common;
    }
    forall i | i in PairedIpmi(rfNames, ipmiNames) ensures i in set p | p in common :: p.1 {
      var r :| r in rfNames && SharesKeyword(r, i);
      assert (r, i) in common;
    }
  }

  /** A name is in its "only" set iff it occurs in no common pair. */
  lemma OnlyMeansUnpaired(rfNames: set<string>, ipmiNames: set<string>, name: string)
    ensures name in rfNames - PairedRedfish(rfNames, ipmiNames) <==>
      name in rfNames && forall i :: (name, i) !in CommonPairs(rfNames, ipmiNames)
    ensures name in ipmiNames - PairedIpmi(rfNames, ipmiNames) <==>
      name in ipmiNames && forall r :: (r, name) !in CommonPairs(rfNames, ipmiNames)
  {
    if name in rfNames && name in PairedRedfish(rfNames, ipmiNames) {
      var i :| i in ipmiNames && SharesKeyword(name, i);
      assert (name, i) in CommonPairs(rfNames, ipmiNames);
    }
    if name in ipmiNames && name in PairedIpmi(rfNames, ipmiNames) {
      var r :| r in rfNames && SharesKeyword(r, name);
      assert (r, name) in CommonPairs(rfNames, ipmiNames);
    }
  }

  /**
   Matching is not one-to-one: a Redfish name that shares a keyword with two
   IPMI names sits in two pairs ("CPU Temp" with "CPU1" and "CPU2", say; see
   CpuPrefixShares).
   */
  lemma ManyToMany(rfName: string, ipmiA: string, ipmiB: string)
    requires SharesKeyword(rfName, ipmiA) && SharesKeyword(rfName, ipmiB)
    ensures CommonPairs({rfName}, {ipmiA, ipmiB}) == {(rfName, ipmiA), (rfName, ipmiB)}
    ensures ipmiA != ipmiB ==> |CommonPairs({rfName}, {ipmiA, ipmiB})| == 2
  {
  }

  // ---------------------------------------------------------------------------
  // Comparison

  function Abs(x: real): real {
    if x < 0.0 then -x else x
  }

  /** `abs(rf_value - ipmi_value) <= tolerance`. */
  predicate Agrees(rfValue: real, ipmiValue: real) {
    Abs(rfValue - ipmiValue) <= Tolerance
  }

  /** The pairs whose readings agree. */
  ghost function AgreeingPairs(pairs: set<Pair>, rf: map<string, RedfishSensor>, ipmi: map<string, IpmiSensor>): set<Pair> {
    set p | p in pairs && p.0 in rf && p.1 in ipmi && Agrees(rf[p.0].value, ipmi[p.1].value)
  }

  /** `sum(results)`: how many are true. */
  function CountTrue(results: seq<bool>): (n: nat)
    ensures n <= |results|
    ensures n == |results| <==> forall j :: 0 <= j < |results| ==> results[j]
    decreases |results|
  {
    if results == [] then 0
    else CountTrue(results[..|results| - 1]) + (if results[|results| - 1] then 1 else 0)
  }

  /** Every pair in `pairs` has both its names as keys. */
  predicate Keyed(pairs: seq<Pair>, rf: map<string, RedfishSensor>, ipmi: map<string, IpmiSensor>) {
    forall j :: 0 <= j < |pairs| ==> pairs[j].0 in rf && pairs[j].1 in ipmi
  }

  /** No pair occurs twice. */
  predicate Distinct(pairs: seq<Pair>) {
    forall j, k :: 0 <= j < k < |pairs| ==> pairs[j] != pairs[k]
  }

  /** The comparison result of each pair, in order. */
  function Verdicts(pairs: seq<Pair>, rf: map<string, RedfishSensor>, ipmi: map<string, IpmiSensor>): (results: seq<bool>)
    requires Keyed(pairs, rf, ipmi)
    ensures |results| == |pairs|
    ensures forall j :: 0 <= j < |pairs| ==> results[j] == Agrees(rf[pairs[j].0].value, ipmi[pairs[j].1].value)
    decreases |pairs|
  {
    if pairs == [] then []
    else
      var last := pairs[|pairs| - 1];
      Verdicts(pairs[..|pairs| - 1], rf, ipmi) + [Agrees(rf[last.0].value, ipmi[last.1].value)]
  }

  /** One more pair appends its own verdict. */
  lemma VerdictsAppend(pairs: seq<Pair>, pair: Pair, rf: map<string, RedfishSensor>, ipmi: map<string, IpmiSensor>)
    requires Keyed(pairs, rf, ipmi) && pair.0 in rf && pair.1 in ipmi
    ensures Keyed(pairs + [pair], rf, ipmi)
    ensures Verdicts(pairs + [pair], rf, ipmi) == Verdicts(pairs, rf, ipmi) + [Agrees(rf[pair.0].value, ipmi[pair.1].value)]
  {
    var pairs' := pairs + [pair];
    assert forall j :: 0 <= j < |pairs| ==> pairs'[j] == pairs[j];
    assert pairs'[..|pairs|] == pairs;
  }

  /** Over distinct pairs, the number of true verdicts is the number of agreeing pairs. */
  lemma {:induction false} VerdictsCount(pairs: seq<Pair>, rf: map<string, RedfishSensor>, ipmi: map<string, IpmiSensor>)
    requires Keyed(pairs, rf, ipmi) && Distinct(pairs)
    ensures CountTrue(Verdicts(pairs, rf, ipmi)) == |AgreeingPairs(Members(pairs), rf, ipmi)|
    decreases |pairs|
  {
    if pairs != [] {
      var n := |pairs| - 1;
      var front, last := pairs[..n], pairs[n];
      assert pairs == front + [last];
      MembersAppend(front, last);
      FrontKeyedDistinct(front, last, rf, ipmi);
      VerdictsCount(front, rf, ipmi);
      VerdictsAppend(front, last, rf, ipmi);
      CountTrueAppend(Verdicts(front, rf, ipmi), Agrees(rf[last.0].value, ipmi[last.1].value));
      AgreeingStep(Members(front), last, rf, ipmi);
    }
  }

  /** The pairs a sequence lists. */
  ghost function Members(pairs: seq<Pair>): set<Pair> {
    set p | p in pairs
  }

  lemma MembersAppend(front: seq<Pair>, last: Pair)
    ensures Members(front + [last]) == Members(front) + {last}
  {
  }

  /** Dropping the last pair keeps Keyed and Distinct, and the last pair is not among the rest. */
  lemma FrontKeyedDistinct(front: seq<Pair>, last: Pair, rf: map<string, RedfishSensor>, ipmi: map<string, IpmiSensor>)
    requires Keyed(front + [last], rf, ipmi) && Distinct(front + [last])
    ensures Keyed(front, rf, ipmi) && Distinct(front) && last !in front
  {
    var pairs := front + [last];
    assert forall j :: 0 <= j < |front| ==> front[j] == pairs[j];
    assert pairs[|front|] == last;
  }

  /** `sum(results + [b])`. */
  lemma CountTrueAppend(results: seq<bool>, b: bool)
    ensures CountTrue(results + [b]) == CountTrue(results) + (if b then 1 else 0)
  {
    assert (results + [b])[..|results|] == results;
  }

  /**
   The comparison loop: one boolean per common pair, taken in the set's own
   (unspecified) order, true iff the pair's readings agree; `order` records
   which pair each boolean is about.
   */
  method CompareValues(common: set<Pair>, rf: map<string, RedfishSensor>, ipmi: map<string, IpmiSensor>)
    returns (results: seq<bool>, ghost order: seq<Pair>)
    requires forall p :: p in common ==> p.0 in rf && p.1 in ipmi
    ensures |results| == |order| == |common|
    ensures forall p :: p in common <==> p in order
    ensures Distinct(order)
    ensures Keyed(order, rf, ipmi) && results == Verdicts(order, rf, ipmi)
    ensures CountTrue(results) == |AgreeingPairs(common, rf, ipmi)|
  {
    results, order := [], [];
    var todo := common;
    while todo != {}
      invariant Visited(common, todo, order)
      invariant Keyed(order, rf, ipmi) && results == Verdicts(order, rf, ipmi)
      decreases todo
    {
      var pair :| pair in todo;
      var rfValue := rf[pair.0].value;
      var ipmiValue := ipmi[pair.1].value;
      var difference := Abs(rfValue - ipmiValue);
      VisitStep(common, todo, order, pair, rf, ipmi);
      VerdictsAppend(order, pair, rf, ipmi);
      results := results + [difference <= Tolerance];
      order := order + [pair];
      todo := todo - {pair};
    }
    VisitedAll(common, order);
    VerdictsCount(order, rf, ipmi);
  }

  /** `order` lists, without repeats, exactly the pairs of `common` that are no longer in `todo`. */
  ghost predicate Visited(common: set<Pair>, todo: set<Pair>, order: seq<Pair>) {
    && todo <= common
    && |order| + |todo| == |common|
    && (forall j :: 0 <= j < |order| ==> order[j] in common && order[j] !in todo)
    && (forall p :: p in common && p !in todo ==> p in order)
    && Distinct(order)
  }

  /** Once `todo` is empty, `order` lists all of `common`. */
  lemma VisitedAll(common: set<Pair>, order: seq<Pair>)
    requires Visited(common, {}, order)
    ensures Members(order) == common
    ensures forall p :: p in common <==> p in order
  {
  }

  /** Moving one pair from `todo` to the end of `order` keeps Visited. */
  lemma VisitStep(common: set<Pair>, todo: set<Pair>, order: seq<Pair>, pair: Pair,
                  rf: map<string, RedfishSensor>, ipmi: map<string, IpmiSensor>)
    requires Visited(common, todo, order) && pair in todo
    requires Keyed(order, rf, ipmi) && pair.0 in rf && pair.1 in ipmi
    ensures Visited(common, todo - {pair}, order + [pair])
    ensures Keyed(order + [pair], rf, ipmi)
  {
    var order' := order + [pair];
    assert forall j :: 0 <= j < |order| ==> order'[j] == order[j];
  }

  /** One more pair adds itself to the agreeing pairs iff its readings agree. */
  lemma AgreeingStep(done: set<Pair>, pair: Pair, rf: map<string, RedfishSensor>, ipmi: map<string, IpmiSensor>)
    requires pair !in done && pair.0 in rf && pair.1 in ipmi
    ensures |AgreeingPairs(done + {pair}, rf, ipmi)| ==
      |AgreeingPairs(done, rf, ipmi)| + (if Agrees(rf[pair.0].value, ipmi[pair.1].value) then 1 else 0)
  {
    if Agrees(rf[pair.0].value, ipmi[pair.1].value) {
      assert AgreeingPairs(done + {pair}, rf, ipmi) == AgreeingPairs(done, rf, ipmi) + {pair};
    } else {
      assert AgreeingPairs(done + {pair}, rf, ipmi) == AgreeingPairs(done, rf, ipmi);
    }
  }

  // ---------------------------------------------------------------------------
  // Verdict

  /** The verdict compare_sensors_redfish_ipmi returns for two sensor dicts. */
  ghost function Reconciled(rf: map<string, RedfishSensor>, ipmi: map<string, IpmiSensor>): bool {
    if |rf| == 0 || |ipmi| == 0 then false
    else
      var common := CommonPairs(rf.Keys, ipmi.Keys);
      common != {} && 2 * |AgreeingPairs(common, rf, ipmi)| >= |common|
  }

  /** Multiplying both sides by a positive number keeps a comparison. */
  lemma ScaleComparison(a: real, b: real, t: real)
    requires t > 0.0
    ensures a >= b <==> a * t >= b * t
  {
    assert a * t - b * t == (a - b) * t;
    if a >= b {
      assert (a - b) * t >= 0.0;
    } else {
      assert (b - a) * t > 0.0;
    }
  }

  /** `matching / total * 100 >= 50.0` holds, in exact arithmetic, iff twice the matches reach the total. */
  lemma PercentageThreshold(matching: nat, total: nat)
    requires total > 0
    ensures (matching as real / total as real * 100.0 >= 50.0) <==> 2 * matching >= total
  {
    var m := matching as real;
    var t := total as real;
    var q := m / t;
    assert q * 100.0 >= 50.0 <==> q >= 0.5;
    assert q * t == m;
    ScaleComparison(q, 0.5, t);
  }

  /**
   The reconciliation part of compare_sensors_redfish_ipmi: it fails when the
   Redfish dict is empty, or else when the IPMI dict is empty, or else when no
   pair of names shares a keyword; otherwise it passes iff at least half of the
   common pairs agree within the tolerance.
   */
  method CompareSensors(rf: map<string, RedfishSensor>, ipmi: map<string, IpmiSensor>) returns (ok: bool)
    ensures ok == Reconciled(rf, ipmi)
    ensures rf == map[] ==> !ok
    ensures ipmi == map[] ==> !ok
    ensures CommonPairs(rf.Keys, ipmi.Keys) == {} ==> !ok
    ensures rf != map[] && ipmi != map[] && CommonPairs(rf.Keys, ipmi.Keys) != {} ==>
      (ok <==> |AgreeingPairs(CommonPairs(rf.Keys, ipmi.Keys), rf, ipmi)| * 100 >= |CommonPairs(rf.Keys, ipmi.Keys)| * 50)
  {
    if |rf| == 0 {
      return false;
    }
    if |ipmi| == 0 {
      return false;
    }
    var common, redfishOnly, ipmiOnly := MatchSensors(rf.Keys, ipmi.Keys);
    var comparisonResults, order := CompareValues(common, rf, ipmi);
    if common != {} && comparisonResults != [] {
      var matchingCount := CountTrue(comparisonResults);
      var totalCount := |comparisonResults|;
      var matchPercentage := matchingCount as real / totalCount as real * 100.0;
      PercentageThreshold(matchingCount, totalCount);
      ok := matchPercentage >= 50.0;
    } else {
      ok := false;
    }
  }

  /** compare_sensors_redfish_ipmi from the fetched documents and the ipmitool output on. */
  method CompareSensorsRedfishIpmi(thermal: Response<TemperatureEntry>, power: Response<VoltageEntry>, ipmiOutput: string)
    returns (ok: bool)
    ensures ok == Reconciled(RedfishSensors(thermal, power), IpmiSensors(ipmiOutput))
  {
    var redfishSensors := GetRedfishSensors(thermal, power);
    var ipmiSensors := GetIpmiSensors(ipmiOutput);
    ok := CompareSensors(redfishSensors, ipmiSensors);
  }

  /** One sensor on each side: the verdict passes iff the names share a keyword and the readings agree. */
  lemma SingleSensorVerdict(rfName: string, rfSensor: RedfishSensor, ipmiName: string, ipmiSensor: IpmiSensor)
    ensures Reconciled(map[rfName := rfSensor], map[ipmiName := ipmiSensor]) <==>
      SharesKeyword(rfName, ipmiName) && Agrees(rfSensor.value, ipmiSensor.value)
  {
    var rf, ipmi := map[rfName := rfSensor], map[ipmiName := ipmiSensor];
    var pair := (rfName, ipmiName);
    var common := CommonPairs(rf.Keys, ipmi.Keys);
    assert rf.Keys == {rfName} && ipmi.Keys == {ipmiName};
    assert |rf| == 1 && |ipmi| == 1 by {
      assert |rf.Keys| == 1 && |ipmi.Keys| == 1;
    }
    if SharesKeyword(rfName, ipmiName) {
      assert common == {pair};
      if Agrees(rfSensor.value, ipmiSensor.value) {
        assert AgreeingPairs(common, rf, ipmi) == {pair};
      } else {
        assert AgreeingPairs(common, rf, ipmi) == {};
      }
    } else {
      assert common == {};
    }
  }

  /** A CPU temperature seen as 45.0 by Redfish and 46.2 by IPMI under another name: one pair, within tolerance, a pass. */
  lemma AgreeingExample()
    ensures Reconciled(map["CPU Temp" := RedfishSensor(45.0, Temperature, "Celsius")],
                       map["CPU1" := IpmiSensor(46.2, "ok", "CPU1 | 46.2")])
  {
    CpuPrefixShares("CPU Temp", "CPU1");
    SingleSensorVerdict("CPU Temp", RedfishSensor(45.0, Temperature, "Celsius"), "CPU1", IpmiSensor(46.2, "ok", "CPU1 | 46.2"));
  }

  /** Two names that both start with "CPU" or "cpu" share a keyword. */
  lemma CpuPrefixShares(rfName: string, ipmiName: string)
    requires StartsWith(rfName, "CPU") || StartsWith(rfName, "cpu")
    requires StartsWith(ipmiName, "CPU") || StartsWith(ipmiName, "cpu")
    ensures SharesKeyword(rfName, ipmiName)
  {
    var a, b := Lower(rfName), Lower(ipmiName);
    assert rfName[0] == rfName[..3][0] && rfName[1] == rfName[..3][1] && rfName[2] == rfName[..3][2];
    assert ipmiName[0] == ipmiName[..3][0] && ipmiName[1] == ipmiName[..3][1] && ipmiName[2] == ipmiName[..3][2];
    assert a[..3] == MatchKeywords[0] && b[..3] == MatchKeywords[0];
    assert Contains(a, MatchKeywords[0]) && Contains(b, MatchKeywords[0]);
  }

  /** An ambient temperature against a fan: no shared keyword, so no pair, a failure. */
  lemma NoCommonSensorExample()
    ensures !Reconciled(map["Ambient" := RedfishSensor(22.0, Temperature, "Celsius")],
                        map["FAN1" := IpmiSensor(3000.0, "ok", "FAN1 | 3000")])
  {
    assert !SharesKeyword("Ambient", "FAN1") by {
      assert Lower("FAN1") == "fan1";
      forall k | 0 <= k < |MatchKeywords| ensures !Contains("fan1", MatchKeywords[k]) {
        NoKeywordInFanName(MatchKeywords[k]);
      }
      AnyKeywordInBothIff(MatchKeywords, Lower("Ambient"), "fan1");
    }
    SingleSensorVerdict("Ambient", RedfishSensor(22.0, Temperature, "Celsius"), "FAN1", IpmiSensor(3000.0, "ok", "FAN1 | 3000"));
  }

  /** Helper of NoCommonSensorExample: every keyword is longer than "fan1" or starts with a letter it lacks. */
  lemma NoKeywordInFanName(keyword: string)
    requires keyword in MatchKeywords
    ensures !Contains("fan1", keyword)
  {
    var s := "fan1";
    forall a ensures !OccursAt(s, keyword, a) {
      if 0 <= a <= |s| - |keyword| {
        assert s[a..a + |keyword|][0] == s[a];
      }
    }
    ContainsIff(s, keyword);
  }
}
