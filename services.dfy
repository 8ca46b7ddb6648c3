// The alert evaluator (dispositivos/services.py): unit normalization, the
// rule-matching policy, the get-or-create of one event per (rule,
// measurement) and the loop that evaluates one measurement against the rules
// of its product.
module Services {
  import opened CoreModels
  import opened Models

  // ---------------------------------------------------------------------
  // Unit normalizer
  // ---------------------------------------------------------------------

  /** ASCII stand-in for `str.isspace`: space, tab, line feed, vertical
      tab, form feed, carriage return, and the four separators 0x1C-0x1F. */
  predicate IsSpace(c: char)
  {
    c == ' ' || 9 <= c as int <= 13 || 28 <= c as int <= 31
  }

  /** `str.strip()` at the front. */
  function StripLeft(s: string): (r: string)
    ensures |r| <= |s|
    ensures forall c :: c in r ==> c in s
  {
    if |s| > 0 && IsSpace(s[0]) then StripLeft(s[1..]) else s
  }

  /** `str.strip()` at the back. */
  function StripRight(s: string): (r: string)
    ensures |r| <= |s|
    ensures forall c :: c in r ==> c in s
  {
    if |s| > 0 && IsSpace(s[|s| - 1]) then StripRight(s[..|s| - 1]) else s
  }

  function Strip(s: string): (r: string)
    ensures |r| <= |s|
    ensures forall c :: c in r ==> c in s
  {
    StripRight(StripLeft(s))
  }

  /** The characters of `s` that are alphanumeric, in order. */
  function KeepAlnum(s: string): (r: string)
    ensures |r| <= |s|
    ensures forall i :: 0 <= i < |r| ==> IsAlnum(r[i])
    ensures forall c :: c in r ==> c in s
  {
    if s == [] then [] else (if IsAlnum(s[0]) then [s[0]] else []) + KeepAlnum(s[1..])
  }

  /** `_norm_unit`: a missing or empty label gives the empty key; otherwise
      the label is lower-cased and stripped and only its alphanumeric
      characters are kept. The key is made of lower-case alphanumerics only. */
  function NormUnit(u: Option<string>): (key: string)
    ensures u == None || u == Some("") ==> key == ""
    ensures u.Some? ==> |key| <= |u.value|
    ensures forall i :: 0 <= i < |key| ==> IsAlnum(key[i]) && !IsUpper(key[i])
  {
    if u.None? || u.value == "" then ""
    else
      var lowered := LowerStr(u.value);
      var key := KeepAlnum(Strip(lowered));
      assert forall i :: 0 <= i < |key| ==> key[i] in key;
      key
  }

  lemma {:induction false} KeepAlnumConcat(a: string, b: string)
    ensures KeepAlnum(a + b) == KeepAlnum(a) + KeepAlnum(b)
  {
    if a == [] {
      assert a + b == b;
    } else {
      assert (a + b)[1..] == a[1..] + b;
      KeepAlnumConcat(a[1..], b);
    }
  }

  lemma {:induction false} KeepAlnumStripLeft(s: string)
    ensures KeepAlnum(StripLeft(s)) == KeepAlnum(s)
  {
    if |s| > 0 && IsSpace(s[0]) {
      KeepAlnumStripLeft(s[1..]);
    }
  }

  lemma {:induction false} KeepAlnumStripRight(s: string)
    ensures KeepAlnum(StripRight(s)) == KeepAlnum(s)
  {
    if |s| > 0 && IsSpace(s[|s| - 1]) {
      var init := s[..|s| - 1];
      assert s == init + [s[|s| - 1]];
      KeepAlnumConcat(init, [s[|s| - 1]]);
      assert KeepAlnum([s[|s| - 1]]) == [];
      KeepAlnumStripRight(init);
    }
  }

  lemma {:induction false} KeepAlnumOfAlnum(s: string)
    requires forall i :: 0 <= i < |s| ==> IsAlnum(s[i])
    ensures KeepAlnum(s) == s
  {
    if s != [] {
      KeepAlnumOfAlnum(s[1..]);
    }
  }

  /** Stripping changes nothing: whitespace is dropped wherever it stands,
      so the key is the alphanumeric characters of the lower-cased label. */
  lemma NormUnitIsFilter(s: string)
    ensures NormUnit(Some(s)) == KeepAlnum(LowerStr(s))
  {
    if s != "" {
      var l := LowerStr(s);
      KeepAlnumStripRight(StripLeft(l));
      KeepAlnumStripLeft(l);
    }
  }

  lemma LowerStrConcat(a: string, b: string)
    ensures LowerStr(a + b) == LowerStr(a) + LowerStr(b)
  {
  }

  /** A symbol (such as a degree sign) or a blank anywhere in the label does
      not change its key. */
  lemma NormUnitIgnoresNonAlnum(before: string, c: char, after: string)
    requires !IsAlnum(c)
    ensures NormUnit(Some(before + [c] + after)) == NormUnit(Some(before + after))
  {
    NormUnitIsFilter(before + [c] + after);
    NormUnitIsFilter(before + after);
    LowerStrConcat(before + [c], after);
    LowerStrConcat(before, [c]);
    LowerStrConcat(before, after);
    assert LowerStr([c]) == [Lower(c)];
    KeepAlnumConcat(LowerStr(before) + [Lower(c)], LowerStr(after));
    KeepAlnumConcat(LowerStr(before), [Lower(c)]);
    KeepAlnumConcat(LowerStr(before), LowerStr(after));
    assert KeepAlnum([Lower(c)]) == [];
  }

  /** A key is its own key. */
  lemma NormUnitIdempotent(u: Option<string>)
    ensures NormUnit(Some(NormUnit(u))) == NormUnit(u)
  {
    var key := NormUnit(u);
    NormUnitIsFilter(key);
    assert LowerStr(key) == key;
    KeepAlnumOfAlnum(key);
  }

  /** The key of a one-letter label is that letter, lower-cased. */
  lemma NormUnitOfLetter(c: char)
    requires IsAlnum(c)
    ensures NormUnit(Some([c])) == [Lower(c)]
  {
    NormUnitIsFilter([c]);
    assert LowerStr([c]) == [Lower(c)];
    assert [Lower(c)][1..] == [];
  }

  /** The spellings of degrees Celsius the source names all give the key "c". */
  lemma CelsiusSpellings()
    ensures NormUnit(Some("°C")) == "c"
    ensures NormUnit(Some("C")) == "c"
    ensures NormUnit(Some("c")) == "c"
    ensures NormUnit(Some(" C ")) == "c"
  {
    NormUnitOfLetter('C');
    NormUnitOfLetter('c');
    DegreeSpelling();
    PaddedSpelling();
  }

  lemma DegreeSpelling()
    ensures NormUnit(Some("°C")) == NormUnit(Some("C"))
  {
    NormUnitIgnoresNonAlnum("", '°', "C");
    assert "" + ['°'] + "C" == "°C";
    assert "" + "C" == "C";
  }

  lemma LeadingBlank()
    ensures NormUnit(Some(" C ")) == NormUnit(Some("C "))
  {
    NormUnitIgnoresNonAlnum("", ' ', "C ");
    assert "" + [' '] + "C " == " C ";
    assert "" + "C " == "C ";
  }

  lemma TrailingBlank()
    ensures NormUnit(Some("C ")) == NormUnit(Some("C"))
  {
    NormUnitIgnoresNonAlnum("C", ' ', "");
    assert "C" + [' '] + "" == "C ";
    assert "C" + "" == "C";
  }

  lemma PaddedSpelling()
    ensures NormUnit(Some(" C ")) == NormUnit(Some("C"))
  {
    LeadingBlank();
    TrailingBlank();
  }

  // ---------------------------------------------------------------------
  // Matching policy
  // ---------------------------------------------------------------------

  /** The unit check: a rule whose key is empty accepts any unit, otherwise
      the two keys must be equal. */
  predicate UnitMatches(ruleUnit: string, measuredUnit: string)
  {
    var ru := NormUnit(Some(ruleUnit));
    ru == "" || ru == NormUnit(Some(measuredUnit))
  }

  /** The range check, inclusive at both ends. */
  predicate InRange(rule: ProductAlert, value: real)
  {
    rule.rangeMin <= value <= rule.rangeMax
  }

  predicate Fires(rule: ProductAlert, m: Measurement)
  {
    UnitMatches(rule.unit, m.unit) && InRange(rule, m.value)
  }

  /** The policy in one place: wildcard units, inclusive bounds, inert inverted ranges. */
  lemma FiringPolicy(rule: ProductAlert, m: Measurement)
    ensures NormUnit(Some(rule.unit)) == "" ==> (Fires(rule, m) <==> InRange(rule, m.value))
    ensures NormUnit(Some(rule.unit)) != "" && NormUnit(Some(rule.unit)) != NormUnit(Some(m.unit)) ==> !Fires(rule, m)
    ensures (UnitMatches(rule.unit, m.unit) && (m.value == rule.rangeMin || m.value == rule.rangeMax))
              ==> (Fires(rule, m) <==> rule.rangeMin <= rule.rangeMax)
    ensures rule.rangeMin > rule.rangeMax ==> !Fires(rule, m)
  {
  }

  // ---------------------------------------------------------------------
  // Rule store and event store
  // ---------------------------------------------------------------------

  /** `ProductAlert.objects.filter(product=product)`: the default manager
      yields the live rules of the product; no `estado` filter is applied. */
  function RulesOf(rules: map<nat, Record<ProductAlert>>, product: nat): (rs: set<nat>)
    ensures forall k :: k in rs <==> k in rules && IsAlive(rules[k]) && rules[k].data.product == product
  {
    set k | k in rules && IsAlive(rules[k]) && rules[k].data.product == product
  }

  /** The rules a measurement satisfies: none without a product. */
  function FiringRules(rules: map<nat, Record<ProductAlert>>, m: Measurement): (fs: set<nat>)
    ensures m.product.None? ==> fs == {}
    ensures forall k :: k in fs <==> m.product.Some? && k in RulesOf(rules, m.product.value) && Fires(rules[k].data, m)
  {
    if m.product.None? then {}
    else set k | k in RulesOf(rules, m.product.value) && Fires(rules[k].data, m)
  }

  /** The live events of one (rule, measurement) pair: what get_or_create looks up. */
  function AliveEventsFor(events: map<nat, Record<ProductAlertEvent>>, rule: nat, measurement: nat): set<nat>
  {
    set k | k in events && IsAlive(events[k]) && events[k].data.productAlert == rule && events[k].data.measurement == measurement
  }

  /** The firing rules that have no live event for the measurement yet. */
  ghost function Missing(events: map<nat, Record<ProductAlertEvent>>, rules: map<nat, Record<ProductAlert>>,
                         mPk: nat, m: Measurement): set<nat>
  {
    set r | r in FiringRules(rules, m) && AliveEventsFor(events, r, mPk) == {}
  }

  /** Rows that existed are still there, unchanged. */
  ghost predicate Preserved(before: map<nat, Record<ProductAlertEvent>>, after: map<nat, Record<ProductAlertEvent>>)
  {
    forall k :: k in before ==> k in after && after[k] == before[k]
  }

  /** `created` lists the new rows, each once. */
  ghost predicate ListsNewRows(before: map<nat, Record<ProductAlertEvent>>, after: map<nat, Record<ProductAlertEvent>>,
                               created: seq<nat>)
  {
    && (forall k :: k in after && k !in before ==> k in created)
    && (forall i :: 0 <= i < |created| ==> created[i] in after && created[i] !in before)
    && (forall i, j :: 0 <= i < |created| && 0 <= j < |created| && i != j ==> created[i] != created[j])
  }

  /** Each new row is a fresh unresolved event of `mPk` for a firing rule
      that had no live event before. */
  ghost predicate NewRowsAreMissingEvents(before: map<nat, Record<ProductAlertEvent>>, after: map<nat, Record<ProductAlertEvent>>,
                                          rules: map<nat, Record<ProductAlert>>, mPk: nat, m: Measurement, now: Time)
  {
    forall k :: k in after && k !in before ==>
      after[k].meta == NewMeta(now) && after[k].data == NewEvent(after[k].data.productAlert, mPk)
      && after[k].data.productAlert in Missing(before, rules, mPk, m)
  }

  /** Every firing rule among `done` has a live event for `mPk`. */
  ghost predicate Covered(after: map<nat, Record<ProductAlertEvent>>, rules: map<nat, Record<ProductAlert>>,
                          mPk: nat, m: Measurement, done: set<nat>)
  {
    forall r :: r in FiringRules(rules, m) && r in done ==> AliveEventsFor(after, r, mPk) != {}
  }

  /** The state of an evaluation after the rules in `done` were examined. */
  ghost predicate IsPartialEvaluation(before: map<nat, Record<ProductAlertEvent>>, after: map<nat, Record<ProductAlertEvent>>,
                                      rules: map<nat, Record<ProductAlert>>, mPk: nat, m: Measurement, now: Time,
                                      created: seq<nat>, done: set<nat>)
  {
    && Preserved(before, after)
    && ListsNewRows(before, after, created)
    && NewRowsAreMissingEvents(before, after, rules, mPk, m, now)
    && Covered(after, rules, mPk, m, done)
    && EventsUnique(after)
  }

  /** What one evaluation of measurement `mPk` does to the event table, from
      `before` to `after`, when it returns `created`: all the rules of the
      product have been examined. */
  ghost predicate IsEvaluation(before: map<nat, Record<ProductAlertEvent>>, after: map<nat, Record<ProductAlertEvent>>,
                               rules: map<nat, Record<ProductAlert>>, mPk: nat, m: Measurement, now: Time,
                               created: seq<nat>)
  {
    IsPartialEvaluation(before, after, rules, mPk, m, now, created, FiringRules(rules, m))
  }

  lemma PartialStart(before: map<nat, Record<ProductAlertEvent>>, rules: map<nat, Record<ProductAlert>>,
                     mPk: nat, m: Measurement, now: Time)
    requires EventsUnique(before)
    ensures IsPartialEvaluation(before, before, rules, mPk, m, now, [], {})
  {
  }

  /** Examining a rule that does not fire changes nothing. */
  lemma PartialSkip(before: map<nat, Record<ProductAlertEvent>>, after: map<nat, Record<ProductAlertEvent>>,
                    rules: map<nat, Record<ProductAlert>>, mPk: nat, m: Measurement, now: Time,
                    created: seq<nat>, done: set<nat>, r: nat)
    requires IsPartialEvaluation(before, after, rules, mPk, m, now, created, done)
    requires r !in FiringRules(rules, m)
    ensures IsPartialEvaluation(before, after, rules, mPk, m, now, created, done + {r})
  {
  }

  /** Examining a firing rule that already has a live event changes nothing. */
  lemma PartialFound(before: map<nat, Record<ProductAlertEvent>>, after: map<nat, Record<ProductAlertEvent>>,
                     rules: map<nat, Record<ProductAlert>>, mPk: nat, m: Measurement, now: Time,
                     created: seq<nat>, done: set<nat>, r: nat)
    requires IsPartialEvaluation(before, after, rules, mPk, m, now, created, done)
    requires AliveEventsFor(after, r, mPk) != {}
    ensures IsPartialEvaluation(before, after, rules, mPk, m, now, created, done + {r})
  {
  }

  /** Examining a firing rule without a live event adds its one new event. */
  lemma PartialCreate(before: map<nat, Record<ProductAlertEvent>>, after: map<nat, Record<ProductAlertEvent>>,
                      rules: map<nat, Record<ProductAlert>>, mPk: nat, m: Measurement, now: Time,
                      created: seq<nat>, done: set<nat>, r: nat, pk: nat)
    requires IsPartialEvaluation(before, after, rules, mPk, m, now, created, done)
    requires r in FiringRules(rules, m) && r !in done
    requires AliveEventsFor(after, r, mPk) == {} && pk !in after
    ensures IsPartialEvaluation(before, after[pk := Record(NewMeta(now), NewEvent(r, mPk))], rules, mPk, m, now,
                                created + [pk], done + {r})
  {
    var next := after[pk := Record(NewMeta(now), NewEvent(r, mPk))];
    assert Preserved(before, next);
    assert ListsNewRows(before, next, created + [pk]);
    assert AliveEventsFor(before, r, mPk) == {} by {
      assert forall k :: k in before && IsAlive(before[k]) && before[k].data.productAlert == r && before[k].data.measurement == mPk
               ==> k in AliveEventsFor(after, r, mPk);
    }
    assert NewRowsAreMissingEvents(before, next, rules, mPk, m, now);
    assert pk in AliveEventsFor(next, r, mPk);
    assert Covered(next, rules, mPk, m, done + {r});
    assert EventsUnique(next) by {
      assert forall k :: k in after && IsAlive(after[k]) && after[k].data.productAlert == r && after[k].data.measurement == mPk
               ==> k in AliveEventsFor(after, r, mPk);
    }
  }

  lemma FirstListed(before: map<nat, Record<ProductAlertEvent>>, after: map<nat, Record<ProductAlertEvent>>, created: seq<nat>)
    requires ListsNewRows(before, after, created) && |created| > 0
    ensures created[0] in after && created[0] !in before
  {
  }

  /** A list of new rows is empty when no row is new. */
  lemma NoRowsListed(before: map<nat, Record<ProductAlertEvent>>, after: map<nat, Record<ProductAlertEvent>>, created: seq<nat>)
    requires ListsNewRows(before, after, created)
    requires after.Keys <= before.Keys
    ensures created == []
  {
    if created != [] {
      FirstListed(before, after, created);
      assert false;
    }
  }

  /** Evaluating a measurement a second time creates nothing, returns the
      empty list and leaves the event table as the first evaluation left it. */
  lemma EvaluationIdempotent(before: map<nat, Record<ProductAlertEvent>>, mid: map<nat, Record<ProductAlertEvent>>,
                             after: map<nat, Record<ProductAlertEvent>>, rules: map<nat, Record<ProductAlert>>,
                             mPk: nat, m: Measurement, now1: Time, now2: Time, first: seq<nat>, second: seq<nat>)
    requires IsEvaluation(before, mid, rules, mPk, m, now1, first)
    requires IsEvaluation(mid, after, rules, mPk, m, now2, second)
    ensures second == [] && after == mid
  {
    assert Missing(mid, rules, mPk, m) == {};
    assert forall k :: k in after ==> k in mid;
    assert after.Keys == mid.Keys;
    NoRowsListed(mid, after, second);
  }

  /** A measurement without a product is evaluated against nothing: no
      event is created and the table is left as it was. */
  lemma NoProductNoEvents(before: map<nat, Record<ProductAlertEvent>>, after: map<nat, Record<ProductAlertEvent>>,
                          rules: map<nat, Record<ProductAlert>>, mPk: nat, m: Measurement, now: Time, created: seq<nat>)
    requires m.product.None?
    requires IsEvaluation(before, after, rules, mPk, m, now, created)
    ensures created == [] && after == before
  {
    assert forall k :: k in after ==> k in before;
    NoRowsListed(before, after, created);
  }

  /** Every firing rule that had no live event gets exactly one new event. */
  lemma EachMissingRuleGetsOneEvent(before: map<nat, Record<ProductAlertEvent>>, after: map<nat, Record<ProductAlertEvent>>,
                                    rules: map<nat, Record<ProductAlert>>, mPk: nat, m: Measurement, now: Time,
                                    created: seq<nat>, r: nat)
    requires IsEvaluation(before, after, rules, mPk, m, now, created)
    requires r in Missing(before, rules, mPk, m)
    ensures exists i :: 0 <= i < |created| && after[created[i]].data.productAlert == r
    ensures forall i, j ::
              (0 <= i < |created| && 0 <= j < |created| && after[created[i]].data.productAlert == r && after[created[j]].data.productAlert == r)
              ==> i == j
  {
    var k :| k in AliveEventsFor(after, r, mPk);
    assert forall j :: j in before && IsAlive(before[j]) && before[j].data.productAlert == r && before[j].data.measurement == mPk
             ==> j in AliveEventsFor(before, r, mPk);
    assert k !in before;
    var i :| 0 <= i < |created| && created[i] == k;
    assert after[created[i]].data.productAlert == r;
  }

  // ---------------------------------------------------------------------
  // The evaluator
  // ---------------------------------------------------------------------

  /** `ProductAlertEvent.objects.get_or_create(product_alert=rule,
      measurement=measurement, defaults={"is_resolved": False})`: returns
      the live event of the pair, or creates one and says so. */
  method GetOrCreateEvent(events: Table<ProductAlertEvent>, rule: nat, measurement: nat, now: Time)
    returns (pk: nat, created: bool)
    requires events.Valid() && EventsUnique(events.rows)
    modifies events
    ensures events.Valid() && EventsUnique(events.rows)
    ensures created <==> AliveEventsFor(old(events.rows), rule, measurement) == {}
    ensures !created ==> events.rows == old(events.rows) && pk in AliveEventsFor(old(events.rows), rule, measurement)
    ensures created ==> pk !in old(events.rows)
                        && events.rows == old(events.rows)[pk := Record(NewMeta(now), NewEvent(rule, measurement))]
  {
    var found := AliveEventsFor(events.rows, rule, measurement);
    if found != {} {
      pk :| pk in found;
      created := false;
      return;
    }
    pk := events.Create(NewEvent(rule, measurement), now);
    created := true;
    ghost var prev := old(events.rows);
    assert forall k :: k in prev && IsAlive(prev[k]) && prev[k].data.productAlert == rule && prev[k].data.measurement == measurement ==> k in found;
  }

  /** `generate_alert_events_for_measurement`: evaluates one measurement
      against the live rules of its product, in whatever order the query
      yields them, creates one event per firing rule that has none and
      returns the events created by this call. */
  method GenerateAlertEvents(events: Table<ProductAlertEvent>, rules: Table<ProductAlert>, mPk: nat, m: Measurement, now: Time)
    returns (created: seq<nat>)
    requires events.Valid() && EventsUnique(events.rows)
    modifies events
    ensures events.Valid()
    ensures IsEvaluation(old(events.rows), events.rows, rules.rows, mPk, m, now, created)
  {
    created := [];
    if m.product.None? {
      return;
    }
    var product := m.product.value;
    var mu := NormUnit(Some(m.unit));
    var remaining := RulesOf(rules.rows, product);
    ghost var before := events.rows;
    ghost var candidates := remaining;
    PartialStart(before, rules.rows, mPk, m, now);
    while remaining != {}
      invariant remaining <= candidates && candidates == RulesOf(rules.rows, product)
      invariant events.Valid()
      invariant IsPartialEvaluation(before, events.rows, rules.rows, mPk, m, now, created, candidates - remaining)
      decreases remaining
    {
      var r :| r in remaining;
      ghost var done := candidates - remaining;
      remaining := remaining - {r};
      assert candidates - remaining == done + {r};
      var rule := rules.rows[r].data;
      var ru := NormUnit(Some(rule.unit));
      if ru != "" && ru != mu {
        PartialSkip(before, events.rows, rules.rows, mPk, m, now, created, done, r);
        continue;
      }
      if rule.rangeMin <= m.value <= rule.rangeMax {
        ghost var current := events.rows;
        var evt, wasCreated := GetOrCreateEvent(events, r, mPk, now);
        if wasCreated {
          PartialCreate(before, current, rules.rows, mPk, m, now, created, done, r, evt);
          created := created + [evt];
        } else {
          PartialFound(before, current, rules.rows, mPk, m, now, created, done, r);
        }
      } else {
        PartialSkip(before, events.rows, rules.rows, mPk, m, now, created, done, r);
      }
    }
    assert candidates - remaining == candidates;
    assert FiringRules(rules.rows, m) <= candidates;
  }

  // ---------------------------------------------------------------------
  // The pipeline scenario of the test suite
  // ---------------------------------------------------------------------

  /** Three bands of one product in "°C": MEDIANO [70, 80], ALTO [81, 90],
      GRAVE [91, 9999999]. */
  function ThreeBands(p: nat, aM: nat, aH: nat, aG: nat, t: Time): map<nat, Record<ProductAlert>>
  {
    map[0 := Record(NewMeta(t), ProductAlert(p, aM, 70.0, 80.0, "°C")),
        1 := Record(NewMeta(t), ProductAlert(p, aH, 81.0, 90.0, "°C")),
        2 := Record(NewMeta(t), ProductAlert(p, aG, 91.0, 9999999.0, "°C"))]
  }

  lemma SecondListed(after: map<nat, Record<ProductAlertEvent>>, created: seq<nat>, r: nat)
    requires |created| >= 2
    requires forall i :: 0 <= i < |created| ==> created[i] in after && after[created[i]].data.productAlert == r
    ensures after[created[0]].data.productAlert == r && after[created[1]].data.productAlert == r
  {
  }

  /** A reading of 85 °C of a product without events yet gives exactly one
      event, for the ALTO band. */
  lemma HighReadingScenario(before: map<nat, Record<ProductAlertEvent>>, after: map<nat, Record<ProductAlertEvent>>,
                            alerts: map<nat, Record<Alert>>, p: nat, aM: nat, aH: nat, aG: nat, t: Time,
                            mPk: nat, now: Time, created: seq<nat>)
    requires aH in alerts && alerts[aH].data.severity == ALTO
    requires forall k :: k in before ==> before[k].data.measurement != mPk
    requires IsEvaluation(before, after, ThreeBands(p, aM, aH, aG, t), mPk, Measurement(85.0, "°C", t, Some(p)), now, created)
    ensures |created| == 1
    ensures after[created[0]].data == NewEvent(1, mPk)
    ensures alerts[ThreeBands(p, aM, aH, aG, t)[after[created[0]].data.productAlert].data.alert].data.severity == ALTO
    ensures (set k | k in after && IsAlive(after[k]) && after[k].data.measurement == mPk) == {created[0]}
  {
    var rules := ThreeBands(p, aM, aH, aG, t);
    var m := Measurement(85.0, "°C", t, Some(p));
    assert RulesOf(rules, p) == {0, 1, 2};
    assert FiringRules(rules, m) == {1};
    assert AliveEventsFor(before, 1, mPk) == {};
    assert Missing(before, rules, mPk, m) == {1};
    EachMissingRuleGetsOneEvent(before, after, rules, mPk, m, now, created, 1);
    assert forall i :: 0 <= i < |created| ==> created[i] in after && after[created[i]].data.productAlert == 1;
    if |created| >= 2 {
      SecondListed(after, created, 1);
      assert false;
    }
  }
}
