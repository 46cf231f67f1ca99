/** The schedule and library transitions of the board's handlers, each as a
    function from the current `classes` / `schedule` sequences to the new
    ones, with the policy each of them keeps stated as lemmas. */
module Transitions {
  import opened Types
  import opened Utils
  import opened Seqs

  function ClassKey(c: ClassDefinition): string {
    c.id
  }

  function InstanceKey(s: ScheduledClass): InstanceId {
    s.instanceId
  }

  ghost predicate UniqueClassIds(classes: seq<ClassDefinition>) {
    DistinctKeys(classes, ClassKey)
  }

  ghost predicate UniqueInstanceIds(schedule: seq<ScheduledClass>) {
    DistinctKeys(schedule, InstanceKey)
  }

  ghost predicate IdsBelow(schedule: seq<ScheduledClass>, bound: InstanceId) {
    forall x :: x in schedule ==> x.instanceId < bound
  }

  // ================================================================ class library

  /** Position of the first class with identifier `id`, or -1. */
  function FindIndex(classes: seq<ClassDefinition>, id: string): (i: int)
    ensures -1 <= i < |classes|
    ensures i < 0 ==> forall j :: 0 <= j < |classes| ==> classes[j].id != id
    ensures i >= 0 ==> classes[i].id == id && forall j :: 0 <= j < i ==> classes[j].id != id
  {
    if classes == [] then -1
    else if classes[0].id == id then 0
    else
      var k := FindIndex(classes[1..], id);
      if k < 0 then -1 else k + 1
  }

  /** `classes.find(c => c.id === id)`: the first class with that identifier. */
  function FindClass(classes: seq<ClassDefinition>, id: string): (r: Option<ClassDefinition>)
    ensures r.None? <==> forall j :: 0 <= j < |classes| ==> classes[j].id != id
    ensures r.Some? ==> r.value.id == id && r.value in classes
    ensures r.Some? ==> FindIndex(classes, id) >= 0 && r.value == classes[FindIndex(classes, id)]
  {
    var i := FindIndex(classes, id);
    if i < 0 then None else Some(classes[i])
  }

  function ReplaceWith(def: ClassDefinition): ClassDefinition -> ClassDefinition {
    (c: ClassDefinition) => if c.id == def.id then def else c
  }

  /** Saving a class into the library: appended when its identifier is new,
      otherwise every entry with that identifier is replaced in place. */
  function UpsertClass(classes: seq<ClassDefinition>, def: ClassDefinition): seq<ClassDefinition> {
    if FindClass(classes, def.id).None? then classes + [def] else Map(classes, ReplaceWith(def))
  }

  lemma UpsertClassSpec(classes: seq<ClassDefinition>, def: ClassDefinition)
    ensures var r := UpsertClass(classes, def);
      && def in r
      && (forall c :: c in r <==> c == def || (c in classes && c.id != def.id))
      && (FindClass(classes, def.id).None? ==> |r| == |classes| + 1 && r[..|classes|] == classes && r[|classes|] == def)
      && (FindClass(classes, def.id).Some? ==> |r| == |classes| && forall i :: 0 <= i < |r| ==> r[i].id == classes[i].id)
      && (UniqueClassIds(classes) ==> UniqueClassIds(r))
  {
    if FindClass(classes, def.id).None? {
      UpsertNew(classes, def);
    } else {
      UpsertKnown(classes, def);
    }
  }

  /** Saving a new identifier appends the definition after the unchanged library. */
  lemma UpsertNew(classes: seq<ClassDefinition>, def: ClassDefinition)
    requires FindClass(classes, def.id).None?
    ensures var r := UpsertClass(classes, def);
      && (forall c :: c in r <==> c == def || (c in classes && c.id != def.id))
      && |r| == |classes| + 1 && r[..|classes|] == classes && r[|classes|] == def
      && (UniqueClassIds(classes) ==> UniqueClassIds(r))
  {
    var r := UpsertClass(classes, def);
    assert r == classes + [def];
    assert r[..|classes|] == classes;
    if UniqueClassIds(classes) {
      ConcatDistinct(classes, [def], ClassKey);
    }
  }

  /** Saving a known identifier replaces its entries in place. */
  lemma UpsertKnown(classes: seq<ClassDefinition>, def: ClassDefinition)
    requires FindClass(classes, def.id).Some?
    ensures var r := UpsertClass(classes, def);
      && def in r
      && (forall c :: c in r <==> c == def || (c in classes && c.id != def.id))
      && |r| == |classes| && (forall i :: 0 <= i < |r| ==> r[i].id == classes[i].id)
      && (UniqueClassIds(classes) ==> UniqueClassIds(r))
  {
    var r := UpsertClass(classes, def);
    var k := FindIndex(classes, def.id);
    assert r[k] == def;
    forall c | c in r
      ensures c == def || (c in classes && c.id != def.id)
    {
      var i :| 0 <= i < |r| && r[i] == c;
      assert r[i] == ReplaceWith(def)(classes[i]);
    }
    forall c | c in classes && c.id != def.id
      ensures c in r
    {
      var i :| 0 <= i < |classes| && classes[i] == c;
      assert r[i] == c;
    }
    if UniqueClassIds(classes) {
      MapDistinct(classes, ReplaceWith(def), ClassKey);
    }
  }


  function ClassIdIsNot(id: string): ClassDefinition -> bool {
    (c: ClassDefinition) => c.id != id
  }

  /** Deleting a class from the library (the schedule is left alone). */
  function DeleteClass(classes: seq<ClassDefinition>, id: string): seq<ClassDefinition> {
    Filter(classes, ClassIdIsNot(id))
  }

  lemma DeleteClassSpec(classes: seq<ClassDefinition>, id: string)
    ensures forall c :: c in DeleteClass(classes, id) <==> c in classes && c.id != id
    ensures FindClass(DeleteClass(classes, id), id).None?
    ensures FindClass(classes, id).None? ==> DeleteClass(classes, id) == classes
    ensures UniqueClassIds(classes) ==> UniqueClassIds(DeleteClass(classes, id))
  {
    var r := DeleteClass(classes, id);
    assert forall j :: 0 <= j < |r| ==> r[j] in r;
    if FindClass(classes, id).None? {
      FilterAll(classes, ClassIdIsNot(id));
    }
    if UniqueClassIds(classes) {
      FilterDistinct(classes, ClassIdIsNot(id), ClassKey);
    }
  }

  // ================================================================ recurring save

  /** The rule a class remembers after a recurring save. */
  function Remembered(cfg: RecurrenceConfig): BatchConfig {
    BatchConfig(cfg.startTime, cfg.endTime, cfg.frequency, cfg.daysOfWeek, Some(cfg.startDate), Some(cfg.endDate))
  }

  /** The definition as saved: a recurring save replaces the remembered rule,
      a plain save keeps whatever the submitted definition carries. */
  function UpdatedDefinition(def: ClassDefinition, recurring: Option<Recurring>): ClassDefinition {
    def.(batchConfig := if recurring.Some? then Some(Remembered(recurring.value.config)) else def.batchConfig)
  }

  /** What a save leaves remembered. Every field but the rule is the submitted
      one. A recurring save remembers the request's times, frequency, weekday
      list and window as entered (the start is not clamped to today); a plain
      save keeps exactly the rule the submitted definition carries, so a
      definition submitted without one forgets the earlier rule. */
  lemma UpdatedDefinitionSpec(def: ClassDefinition, recurring: Option<Recurring>)
    ensures var u := UpdatedDefinition(def, recurring);
      && u.(batchConfig := def.batchConfig) == def
      && (recurring.None? ==> u == def)
      && (recurring.Some? ==>
            var cfg := recurring.value.config;
            && u.batchConfig.Some?
            && u.batchConfig.value.startTime == cfg.startTime
            && u.batchConfig.value.endTime == cfg.endTime
            && u.batchConfig.value.frequency == cfg.frequency
            && u.batchConfig.value.daysOfWeek == cfg.daysOfWeek
            && u.batchConfig.value.startDate == Some(cfg.startDate)
            && u.batchConfig.value.endDate == Some(cfg.endDate))
  {
  }

  /** After saving a definition into the library, looking its identifier up
      finds the saved definition, whether it was new or replaced an entry. */
  lemma FindAfterUpsert(classes: seq<ClassDefinition>, def: ClassDefinition)
    ensures FindClass(UpsertClass(classes, def), def.id) == Some(def)
  {
    var r := UpsertClass(classes, def);
    if FindClass(classes, def.id).None? {
      assert r[|classes|] == def;
      var i := FindIndex(r, def.id);
      assert i >= 0;
    } else {
      var k := FindIndex(classes, def.id);
      assert r[k] == def;
      var i := FindIndex(r, def.id);
      assert r[i] == ReplaceWith(def)(classes[i]);
    }
  }

  /** New instances never start before today. */
  function EffectiveStart(startDate: Day, today: Day): (d: Day)
    ensures d >= today && d >= startDate && (d == today || d == startDate)
  {
    if startDate < today then today else startDate
  }

  /** The expander's input: the request with its start day clamped to today. */
  function ClampedConfig(cfg: RecurrenceConfig, today: Day): RecurrenceConfig {
    cfg.(startDate := EffectiveStart(cfg.startDate, today))
  }

  function OtherClass(id: string): ScheduledClass -> bool {
    (s: ScheduledClass) => s.def.id != id
  }

  function PastOf(id: string, today: Day): ScheduledClass -> bool {
    (s: ScheduledClass) => s.def.id == id && s.date < today
  }

  /** Non-past instances of the class outside the request's own (unclamped) window. */
  function KeptOutside(id: string, today: Day, startDate: Day, endDate: Day): ScheduledClass -> bool {
    (s: ScheduledClass) => s.def.id == id && !(s.date < today) && (s.date < startDate || s.date > endDate)
  }

  function KeptFuture(schedule: seq<ScheduledClass>, id: string, recurring: Recurring, today: Day): seq<ScheduledClass> {
    if recurring.updateMode == Range
    then Filter(schedule, KeptOutside(id, today, recurring.config.startDate, recurring.config.endDate))
    else []
  }

  /** The new schedule after a recurring save of `def` (already updated):
      other classes, then this class's past, then (range mode only) its
      non-past instances outside the window, then the new expansion. */
  function Reconcile(schedule: seq<ScheduledClass>, def: ClassDefinition, recurring: Recurring, today: Day, firstId: InstanceId): seq<ScheduledClass> {
    Filter(schedule, OtherClass(def.id))
      + Filter(schedule, PastOf(def.id, today))
      + KeptFuture(schedule, def.id, recurring, today)
      + Expand(def, ClampedConfig(recurring.config, today), firstId)
  }

  /** Every instance of the new expansion belongs to `def`, lies in the
      clamped window and carries an identifier from `firstId` on. */
  lemma ExpansionFacts(def: ClassDefinition, recurring: Recurring, today: Day, firstId: InstanceId)
    ensures var cfg := ClampedConfig(recurring.config, today);
      forall x :: x in Expand(def, cfg, firstId) ==>
        && x.def == def && x.instanceId >= firstId
        && x.startTime == recurring.config.startTime && x.endTime == recurring.config.endTime
        && cfg.startDate <= x.date <= cfg.endDate && Accepts(cfg, x.date)
        && x.instanceId < firstId + |Expand(def, cfg, firstId)|
  {
    var cfg := ClampedConfig(recurring.config, today);
    var n := Expand(def, cfg, firstId);
    assert n == ExpandFrom(def, cfg, cfg.startDate, firstId);
    ExpandFromShape(def, cfg, cfg.startDate, firstId);
  }

  /** Filtering the reconciled schedule filters each of its four parts. */
  lemma ReconcileFilter(schedule: seq<ScheduledClass>, def: ClassDefinition, recurring: Recurring, today: Day, firstId: InstanceId,
                        p: ScheduledClass -> bool)
    ensures Filter(Reconcile(schedule, def, recurring, today, firstId), p)
      == Filter(Filter(schedule, OtherClass(def.id)), p)
       + Filter(Filter(schedule, PastOf(def.id, today)), p)
       + Filter(KeptFuture(schedule, def.id, recurring, today), p)
       + Filter(Expand(def, ClampedConfig(recurring.config, today), firstId), p)
  {
    var other, past := Filter(schedule, OtherClass(def.id)), Filter(schedule, PastOf(def.id, today));
    var kept := KeptFuture(schedule, def.id, recurring, today);
    var added := Expand(def, ClampedConfig(recurring.config, today), firstId);
    assert Reconcile(schedule, def, recurring, today, firstId) == other + past + kept + added;
    FilterConcat(other + past + kept, added, p);
    FilterConcat(other + past, kept, p);
    FilterConcat(other, past, p);
  }

  /** The instances a `range` save keeps are non-past instances of the class
      taken from the schedule. */
  lemma KeptFutureShape(schedule: seq<ScheduledClass>, id: string, recurring: Recurring, today: Day)
    ensures forall x :: x in KeptFuture(schedule, id, recurring, today) ==>
      x in schedule && x.def.id == id && !(x.date < today)
  {
  }

  /** The instances a save adds are non-past instances of the class with
      identifiers from `firstId` on. */
  lemma AddedShape(def: ClassDefinition, recurring: Recurring, today: Day, firstId: InstanceId)
    ensures forall x :: x in Expand(def, ClampedConfig(recurring.config, today), firstId) ==>
      x.def.id == def.id && today <= x.date && x.instanceId >= firstId
  {
    ExpansionFacts(def, recurring, today, firstId);
  }

  /** None of the parts but the first holds another class's instance. */
  lemma OnlyOthersAreOther(schedule: seq<ScheduledClass>, def: ClassDefinition, recurring: Recurring, today: Day, firstId: InstanceId)
    ensures Filter(Filter(schedule, PastOf(def.id, today)), OtherClass(def.id)) == []
    ensures Filter(KeptFuture(schedule, def.id, recurring, today), OtherClass(def.id)) == []
    ensures Filter(Expand(def, ClampedConfig(recurring.config, today), firstId), OtherClass(def.id)) == []
  {
    var p := OtherClass(def.id);
    var past := Filter(schedule, PastOf(def.id, today));
    var kept := KeptFuture(schedule, def.id, recurring, today);
    var added := Expand(def, ClampedConfig(recurring.config, today), firstId);
    KeptFutureShape(schedule, def.id, recurring, today);
    AddedShape(def, recurring, today, firstId);
    forall x | x in past ensures !p(x) { }
    FilterNone(past, p);
    forall x | x in kept ensures !p(x) { }
    FilterNone(kept, p);
    forall x | x in added ensures !p(x) { }
    FilterNone(added, p);
  }

  /** None of the parts but the second holds a past instance of the class. */
  lemma OnlyPastIsPast(schedule: seq<ScheduledClass>, def: ClassDefinition, recurring: Recurring, today: Day, firstId: InstanceId)
    ensures Filter(Filter(schedule, OtherClass(def.id)), PastOf(def.id, today)) == []
    ensures Filter(KeptFuture(schedule, def.id, recurring, today), PastOf(def.id, today)) == []
    ensures Filter(Expand(def, ClampedConfig(recurring.config, today), firstId), PastOf(def.id, today)) == []
  {
    var p := PastOf(def.id, today);
    var other := Filter(schedule, OtherClass(def.id));
    var kept := KeptFuture(schedule, def.id, recurring, today);
    var added := Expand(def, ClampedConfig(recurring.config, today), firstId);
    KeptFutureShape(schedule, def.id, recurring, today);
    AddedShape(def, recurring, today, firstId);
    forall x | x in other ensures !p(x) { }
    FilterNone(other, p);
    forall x | x in kept ensures !p(x) { }
    FilterNone(kept, p);
    forall x | x in added ensures !p(x) { }
    FilterNone(added, p);
  }

  /** The reconciled schedule holds the whole expansion, and everything else
      in it comes from the old schedule. */
  lemma ReconcileParts(schedule: seq<ScheduledClass>, def: ClassDefinition, recurring: Recurring, today: Day, firstId: InstanceId)
    ensures var r := Reconcile(schedule, def, recurring, today, firstId);
      var added := Expand(def, ClampedConfig(recurring.config, today), firstId);
      && (forall x :: x in added ==> x in r)
      && (forall x :: x in r && x !in schedule ==> x in added)
  {
    var other, past := Filter(schedule, OtherClass(def.id)), Filter(schedule, PastOf(def.id, today));
    var kept := KeptFuture(schedule, def.id, recurring, today);
    var added := Expand(def, ClampedConfig(recurring.config, today), firstId);
    assert Reconcile(schedule, def, recurring, today, firstId) == other + past + kept + added;
    KeptFutureShape(schedule, def.id, recurring, today);
  }

  /** Whatever the update mode, the instances of other classes are exactly
      those before the save, in the same order. */
  lemma ReconcileKeepsOtherClasses(schedule: seq<ScheduledClass>, def: ClassDefinition, recurring: Recurring, today: Day, firstId: InstanceId)
    ensures Filter(Reconcile(schedule, def, recurring, today, firstId), OtherClass(def.id)) == Filter(schedule, OtherClass(def.id))
  {
    ReconcileFilter(schedule, def, recurring, today, firstId, OtherClass(def.id));
    FilterFilter(schedule, OtherClass(def.id), OtherClass(def.id));
    OnlyOthersAreOther(schedule, def, recurring, today, firstId);
  }

  /** Whatever the update mode, the class's instances dated before today are
      exactly those before the save, in the same order. */
  lemma ReconcileKeepsPast(schedule: seq<ScheduledClass>, def: ClassDefinition, recurring: Recurring, today: Day, firstId: InstanceId)
    ensures Filter(Reconcile(schedule, def, recurring, today, firstId), PastOf(def.id, today)) == Filter(schedule, PastOf(def.id, today))
  {
    ReconcileFilter(schedule, def, recurring, today, firstId, PastOf(def.id, today));
    FilterFilter(schedule, PastOf(def.id, today), PastOf(def.id, today));
    OnlyPastIsPast(schedule, def, recurring, today, firstId);
  }

  /** The fate of the class's pre-existing non-past instances: in `future`
      mode none survives; in `range` mode one survives exactly when it is
      dated before the request's start or after its end (the window as
      entered, not the clamped one). */
  lemma ReconcileFutureOfClass(schedule: seq<ScheduledClass>, def: ClassDefinition, recurring: Recurring, today: Day, firstId: InstanceId)
    requires IdsBelow(schedule, firstId)
    ensures forall x :: x in schedule && x.def.id == def.id && !(x.date < today) ==>
      ((x in Reconcile(schedule, def, recurring, today, firstId))
        <==> (recurring.updateMode == Range && (x.date < recurring.config.startDate || x.date > recurring.config.endDate)))
  {
    ExpansionFacts(def, recurring, today, firstId);
  }

  /** Every instance the save adds is a new instance of the saved definition,
      with the request's times, dated from today (never in the past) to the
      request's end; for `every_other` its parity is counted from the clamped
      start. Conversely each day from the clamped start to the end that the
      rule accepts gets a new instance. */
  lemma ReconcileNewInstances(schedule: seq<ScheduledClass>, def: ClassDefinition, recurring: Recurring, today: Day, firstId: InstanceId)
    ensures var r := Reconcile(schedule, def, recurring, today, firstId);
      && (forall x :: x in r && x !in schedule ==>
            && x.def == def && x.instanceId >= firstId
            && x.startTime == recurring.config.startTime && x.endTime == recurring.config.endTime
            && today <= x.date <= recurring.config.endDate
            && (recurring.config.frequency == EveryOther ==> (x.date - EffectiveStart(recurring.config.startDate, today)) % 2 == 0))
      && (forall e ::
            (EffectiveStart(recurring.config.startDate, today) <= e <= recurring.config.endDate
             && Accepts(ClampedConfig(recurring.config, today), e))
            ==> exists x :: x in r && x.date == e && x.instanceId >= firstId && x.def == def)
  {
    var cfg := ClampedConfig(recurring.config, today);
    var r := Reconcile(schedule, def, recurring, today, firstId);
    ReconcileParts(schedule, def, recurring, today, firstId);
    ExpansionFacts(def, recurring, today, firstId);
    forall e | cfg.startDate <= e <= cfg.endDate && Accepts(cfg, e)
      ensures exists x :: x in r && x.date == e && x.instanceId >= firstId && x.def == def
    {
      var x := ExpansionCovers(def, cfg, firstId, e);
    }
  }

  /** An accepted day of the window has its instance in the expansion. */
  lemma ExpansionCovers(def: ClassDefinition, cfg: RecurrenceConfig, firstId: InstanceId, e: Day) returns (x: ScheduledClass)
    requires cfg.startDate <= e <= cfg.endDate && Accepts(cfg, e)
    ensures x in Expand(def, cfg, firstId) && x.date == e
  {
    var added := Expand(def, cfg, firstId);
    assert added == ExpandFrom(def, cfg, cfg.startDate, firstId);
    ExpandFromComplete(def, cfg, cfg.startDate, firstId, e);
    var i :| 0 <= i < |added| && added[i].date == e;
    x := added[i];
  }

  /** Two parts drawn from a schedule with unique identifiers, sharing no
      instance, can be concatenated without repeating an identifier. */
  lemma ConcatFromSchedule(schedule: seq<ScheduledClass>, a: seq<ScheduledClass>, b: seq<ScheduledClass>)
    requires UniqueInstanceIds(schedule) && UniqueInstanceIds(a) && UniqueInstanceIds(b)
    requires forall x :: x in a ==> x in schedule
    requires forall y :: y in b ==> y in schedule
    requires forall x, y :: x in a && y in b ==> x != y
    ensures UniqueInstanceIds(a + b)
  {
    forall i, j | 0 <= i < |a| && 0 <= j < |b|
      ensures InstanceKey(a[i]) != InstanceKey(b[j])
    {
      assert a[i] in a && b[j] in b;
      DistinctInstances(schedule, a[i], b[j]);
    }
    ConcatDistinct(a, b, InstanceKey);
  }

  /** Instances numbered from the counter on can follow instances numbered
      below it without repeating an identifier. */
  lemma AppendFresh(a: seq<ScheduledClass>, added: seq<ScheduledClass>, firstId: InstanceId)
    requires UniqueInstanceIds(a) && UniqueInstanceIds(added) && IdsBelow(a, firstId)
    requires forall y :: y in added ==> y.instanceId >= firstId
    ensures UniqueInstanceIds(a + added)
  {
    forall i, j | 0 <= i < |a| && 0 <= j < |added|
      ensures InstanceKey(a[i]) != InstanceKey(added[j])
    {
      assert a[i] in a && added[j] in added;
    }
    ConcatDistinct(a, added, InstanceKey);
  }

  /** The expansion's identifiers are distinct and below the advanced counter. */
  lemma ExpansionIds(def: ClassDefinition, cfg: RecurrenceConfig, firstId: InstanceId)
    ensures var added := Expand(def, cfg, firstId);
      UniqueInstanceIds(added) && IdsBelow(added, firstId + |added|)
  {
    var added := Expand(def, cfg, firstId);
    ExpandSpec(def, cfg, firstId);
    forall x | x in added
      ensures x.instanceId < firstId + |added|
    {
      var i :| 0 <= i < |added| && added[i] == x;
    }
  }

  /** A recurring save keeps identifiers unique and below the advanced counter. */
  lemma ReconcileUniqueIds(schedule: seq<ScheduledClass>, def: ClassDefinition, recurring: Recurring, today: Day, firstId: InstanceId)
    requires UniqueInstanceIds(schedule) && IdsBelow(schedule, firstId)
    ensures var n := |Expand(def, ClampedConfig(recurring.config, today), firstId)|;
      var r := Reconcile(schedule, def, recurring, today, firstId);
      UniqueInstanceIds(r) && IdsBelow(r, firstId + n)
  {
    var id := def.id;
    var other, past := Filter(schedule, OtherClass(id)), Filter(schedule, PastOf(id, today));
    var kept := KeptFuture(schedule, id, recurring, today);
    var added := Expand(def, ClampedConfig(recurring.config, today), firstId);
    assert Reconcile(schedule, def, recurring, today, firstId) == other + past + kept + added;
    FilterDistinct(schedule, OtherClass(id), InstanceKey);
    FilterDistinct(schedule, PastOf(id, today), InstanceKey);
    if recurring.updateMode == Range {
      FilterDistinct(schedule, KeptOutside(id, today, recurring.config.startDate, recurring.config.endDate), InstanceKey);
    }
    KeptFutureShape(schedule, id, recurring, today);
    AddedShape(def, recurring, today, firstId);
    ExpansionIds(def, ClampedConfig(recurring.config, today), firstId);
    ConcatFromSchedule(schedule, other, past);
    ConcatFromSchedule(schedule, other + past, kept);
    AppendFresh(other + past + kept, added, firstId);
  }

  /** In a schedule with unique identifiers two different instances have
      different identifiers. */
  lemma DistinctInstances(schedule: seq<ScheduledClass>, x: ScheduledClass, y: ScheduledClass)
    requires UniqueInstanceIds(schedule) && x in schedule && y in schedule && x != y
    ensures x.instanceId != y.instanceId
  {
    var i :| 0 <= i < |schedule| && schedule[i] == x;
    var j :| 0 <= j < |schedule| && schedule[j] == y;
    if i < j {
      assert InstanceKey(schedule[i]) != InstanceKey(schedule[j]);
    } else {
      assert InstanceKey(schedule[j]) != InstanceKey(schedule[i]);
    }
  }

  // ================================================================ plain save

  function Propagate(def: ClassDefinition, today: Day): ScheduledClass -> ScheduledClass {
    (s: ScheduledClass) => if s.def.id == def.id && !(s.date < today) then s.(def := def) else s
  }

  /** A save without a rule of an existing class: its non-past instances take
      the new definition fields; nothing is added or removed. */
  function PropagateEdit(schedule: seq<ScheduledClass>, def: ClassDefinition, today: Day): seq<ScheduledClass> {
    Map(schedule, Propagate(def, today))
  }

  /** Count, order, identifiers, days and times are untouched; only the
      definition copy of the class's non-past instances changes. */
  lemma PropagateEditPointwise(schedule: seq<ScheduledClass>, def: ClassDefinition, today: Day)
    ensures var r := PropagateEdit(schedule, def, today);
      && |r| == |schedule|
      && (forall i :: 0 <= i < |r| ==>
            && r[i].instanceId == schedule[i].instanceId && r[i].date == schedule[i].date
            && r[i].startTime == schedule[i].startTime && r[i].endTime == schedule[i].endTime
            && r[i].def == if schedule[i].def.id == def.id && schedule[i].date >= today then def else schedule[i].def)
  {
  }

  /** A map that keeps every identifier keeps them below the counter. */
  lemma MapIdsBelow(schedule: seq<ScheduledClass>, f: ScheduledClass -> ScheduledClass, bound: InstanceId)
    requires forall x :: x in schedule ==> f(x).instanceId == x.instanceId
    requires IdsBelow(schedule, bound)
    ensures IdsBelow(Map(schedule, f), bound)
  {
    var r := Map(schedule, f);
    forall x | x in r
      ensures x.instanceId < bound
    {
      var i :| 0 <= i < |r| && r[i] == x;
      assert schedule[i] in schedule;
    }
  }

  /** The other classes and the class's past are the same sequences as
      before, and unique identifiers stay unique. */
  lemma PropagateEditKeeps(schedule: seq<ScheduledClass>, def: ClassDefinition, today: Day)
    ensures var r := PropagateEdit(schedule, def, today);
      && Filter(r, OtherClass(def.id)) == Filter(schedule, OtherClass(def.id))
      && Filter(r, PastOf(def.id, today)) == Filter(schedule, PastOf(def.id, today))
      && (UniqueInstanceIds(schedule) ==> UniqueInstanceIds(r))
  {
    FilterMap(schedule, Propagate(def, today), OtherClass(def.id));
    FilterMap(schedule, Propagate(def, today), PastOf(def.id, today));
    if UniqueInstanceIds(schedule) {
      MapDistinct(schedule, Propagate(def, today), InstanceKey);
    }
  }

  /** Applying the same plain edit twice is applying it once. */
  lemma PropagateEditIdempotent(schedule: seq<ScheduledClass>, def: ClassDefinition, today: Day)
    ensures PropagateEdit(PropagateEdit(schedule, def, today), def, today) == PropagateEdit(schedule, def, today)
  {
    var r := PropagateEdit(schedule, def, today);
    MapIdentity(r, Propagate(def, today));
  }

  // ================================================================ clear range

  function OutsideClear(classId: string, startDate: Day, endDate: Day): ScheduledClass -> bool {
    (s: ScheduledClass) => s.def.id != classId || !(startDate <= s.date <= endDate)
  }

  /** Removing a class's instances dated within an inclusive window. */
  function ClearRange(schedule: seq<ScheduledClass>, classId: string, startDate: Day, endDate: Day): seq<ScheduledClass> {
    Filter(schedule, OutsideClear(classId, startDate, endDate))
  }

  /** Exactly the class's instances from start to end, both ends included and
      past days too, are removed; other classes keep their sequence; a second
      clear changes nothing; unique identifiers stay unique. */
  lemma ClearRangeSpec(schedule: seq<ScheduledClass>, classId: string, startDate: Day, endDate: Day)
    ensures var r := ClearRange(schedule, classId, startDate, endDate);
      && (forall x :: x in r <==> x in schedule && !(x.def.id == classId && startDate <= x.date <= endDate))
      && Filter(r, OtherClass(classId)) == Filter(schedule, OtherClass(classId))
      && ClearRange(r, classId, startDate, endDate) == r
      && (UniqueInstanceIds(schedule) ==> UniqueInstanceIds(r))
  {
    var p := OutsideClear(classId, startDate, endDate);
    FilterFilter(schedule, p, OtherClass(classId));
    FilterFilter(schedule, p, p);
    if UniqueInstanceIds(schedule) {
      FilterDistinct(schedule, p, InstanceKey);
    }
  }

  // ================================================================ single instances

  function RetimeOne(instanceId: InstanceId, startTime: string, endTime: string): ScheduledClass -> ScheduledClass {
    (s: ScheduledClass) => if s.instanceId == instanceId then s.(startTime := startTime, endTime := endTime) else s
  }

  /** Changing the clock times of the instance with the given identifier. */
  function UpdateInstanceTime(schedule: seq<ScheduledClass>, instanceId: InstanceId, startTime: string, endTime: string): seq<ScheduledClass> {
    Map(schedule, RetimeOne(instanceId, startTime, endTime))
  }

  /** Only start and end times of the matching instance change; an unknown
      identifier leaves the schedule as it was. */
  lemma UpdateInstanceTimeSpec(schedule: seq<ScheduledClass>, instanceId: InstanceId, startTime: string, endTime: string)
    ensures var r := UpdateInstanceTime(schedule, instanceId, startTime, endTime);
      && |r| == |schedule|
      && (forall i :: 0 <= i < |r| ==>
            && r[i].def == schedule[i].def && r[i].instanceId == schedule[i].instanceId && r[i].date == schedule[i].date
            && (schedule[i].instanceId == instanceId ==> r[i].startTime == startTime && r[i].endTime == endTime)
            && (schedule[i].instanceId != instanceId ==> r[i] == schedule[i]))
      && ((forall x :: x in schedule ==> x.instanceId != instanceId) ==> r == schedule)
      && (UniqueInstanceIds(schedule) ==> UniqueInstanceIds(r))
  {
    var f := RetimeOne(instanceId, startTime, endTime);
    if forall x :: x in schedule ==> x.instanceId != instanceId {
      MapIdentity(schedule, f);
    }
    if UniqueInstanceIds(schedule) {
      MapDistinct(schedule, f, InstanceKey);
    }
  }

  function InstanceIsNot(instanceId: InstanceId): ScheduledClass -> bool {
    (s: ScheduledClass) => s.instanceId != instanceId
  }

  /** Removing the instance with the given identifier. */
  function RemoveInstance(schedule: seq<ScheduledClass>, instanceId: InstanceId): seq<ScheduledClass> {
    Filter(schedule, InstanceIsNot(instanceId))
  }

  lemma {:induction false} RemoveInstanceCount(schedule: seq<ScheduledClass>, instanceId: InstanceId)
    requires UniqueInstanceIds(schedule)
    ensures |RemoveInstance(schedule, instanceId)| == if exists x :: x in schedule && x.instanceId == instanceId then |schedule| - 1 else |schedule|
  {
    if schedule == [] {
    } else {
      var tail := schedule[1..];
      assert UniqueInstanceIds(tail) by {
        forall i, j | 0 <= i < j < |tail|
          ensures InstanceKey(tail[i]) != InstanceKey(tail[j])
        {
          assert tail[i] == schedule[i + 1] && tail[j] == schedule[j + 1];
        }
      }
      if schedule[0].instanceId == instanceId {
        forall x | x in tail
          ensures x.instanceId != instanceId
        {
          var k :| 0 <= k < |tail| && tail[k] == x;
          assert InstanceKey(schedule[0]) != InstanceKey(schedule[k + 1]);
        }
        FilterAll(tail, InstanceIsNot(instanceId));
      } else {
        RemoveInstanceCount(tail, instanceId);
        assert (exists x :: x in schedule && x.instanceId == instanceId) <==> (exists x :: x in tail && x.instanceId == instanceId) by {
          forall x | x in schedule && x.instanceId == instanceId
            ensures x in tail
          {
            var k :| 0 <= k < |schedule| && schedule[k] == x;
            assert k != 0 && tail[k - 1] == x;
          }
        }
      }
    }
  }

  /** Exactly the entries with that identifier are dropped (one, in a schedule
      with unique identifiers); an unknown identifier changes nothing. */
  lemma RemoveInstanceSpec(schedule: seq<ScheduledClass>, instanceId: InstanceId)
    ensures var r := RemoveInstance(schedule, instanceId);
      && (forall x :: x in r <==> x in schedule && x.instanceId != instanceId)
      && ((forall x :: x in schedule ==> x.instanceId != instanceId) ==> r == schedule)
      && (UniqueInstanceIds(schedule) ==>
            (UniqueInstanceIds(r)
             && |r| == if exists x :: x in schedule && x.instanceId == instanceId then |schedule| - 1 else |schedule|))
  {
    if forall x :: x in schedule ==> x.instanceId != instanceId {
      FilterAll(schedule, InstanceIsNot(instanceId));
    }
    if UniqueInstanceIds(schedule) {
      FilterDistinct(schedule, InstanceIsNot(instanceId), InstanceKey);
      RemoveInstanceCount(schedule, instanceId);
    }
  }

  // ================================================================ drop

  const DefaultStartTime: string := "09:00"
  const DefaultEndTime: string := "10:30"

  /** The start time of a dropped instance: the remembered one when it is a
      non-empty string, otherwise 09:00. */
  function DropStartTime(def: ClassDefinition): (t: string)
    ensures t != ""
    ensures t == DefaultStartTime || (def.batchConfig.Some? && t == def.batchConfig.value.startTime)
    ensures def.batchConfig.None? ==> t == DefaultStartTime
    ensures def.batchConfig.Some? && def.batchConfig.value.startTime != "" ==> t == def.batchConfig.value.startTime
  {
    if def.batchConfig.Some? && def.batchConfig.value.startTime != "" then def.batchConfig.value.startTime else DefaultStartTime
  }

  /** The end time of a dropped instance: the remembered one when it is a
      non-empty string, otherwise 10:30. */
  function DropEndTime(def: ClassDefinition): (t: string)
    ensures t != ""
    ensures t == DefaultEndTime || (def.batchConfig.Some? && t == def.batchConfig.value.endTime)
    ensures def.batchConfig.None? ==> t == DefaultEndTime
    ensures def.batchConfig.Some? && def.batchConfig.value.endTime != "" ==> t == def.batchConfig.value.endTime
  {
    if def.batchConfig.Some? && def.batchConfig.value.endTime != "" then def.batchConfig.value.endTime else DefaultEndTime
  }

  /** Placing one ad-hoc instance of class `classId` on `date` with the fresh
      identifier `id`: a copy of the first library entry with that identifier.
      An unknown class changes nothing. */
  function Drop(classes: seq<ClassDefinition>, schedule: seq<ScheduledClass>, date: Day, classId: string, id: InstanceId): (r: seq<ScheduledClass>)
    ensures FindClass(classes, classId).None? ==> r == schedule
    ensures FindClass(classes, classId).Some? ==>
      && |r| == |schedule| + 1 && r[..|schedule|] == schedule
      && r[|schedule|].def in classes && r[|schedule|].def.id == classId
      && r[|schedule|].def == FindClass(classes, classId).value
      && r[|schedule|].instanceId == id && r[|schedule|].date == date
      && r[|schedule|].startTime == DropStartTime(r[|schedule|].def)
      && r[|schedule|].endTime == DropEndTime(r[|schedule|].def)
  {
    match FindClass(classes, classId)
    case None => schedule
    case Some(def) => schedule + [ScheduledClass(def, id, date, DropStartTime(def), DropEndTime(def))]
  }

  /** Saving and then dropping the class: the dropped instance takes the
      times the save left remembered. After a recurring save with non-empty
      times those are the request's times; after a plain save of a definition
      that carries no rule (as the class form submits it) they are the 09:00
      and 10:30 defaults, whatever the class remembered before. */
  lemma SaveThenDrop(classes: seq<ClassDefinition>, schedule: seq<ScheduledClass>, def: ClassDefinition,
                     recurring: Option<Recurring>, date: Day, id: InstanceId)
    ensures var r := Drop(UpsertClass(classes, UpdatedDefinition(def, recurring)), schedule, date, def.id, id);
      && |r| == |schedule| + 1 && r[..|schedule|] == schedule
      && r[|schedule|].def == UpdatedDefinition(def, recurring)
      && (recurring.Some? && recurring.value.config.startTime != "" && recurring.value.config.endTime != "" ==>
            r[|schedule|].startTime == recurring.value.config.startTime
            && r[|schedule|].endTime == recurring.value.config.endTime)
      && (recurring.None? && def.batchConfig.None? ==>
            r[|schedule|] == ScheduledClass(def, id, date, DefaultStartTime, DefaultEndTime))
  {
    FindAfterUpsert(classes, UpdatedDefinition(def, recurring));
  }
}
