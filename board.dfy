/** The board component's state and its handlers. The component keeps the
    class library and the schedule as state that every handler replaces with
    a new sequence; `today` comes in as a parameter and the fresh identifiers
    of new instances come from a counter. */
module App {
  import opened Types
  import opened Utils
  import opened Seqs
  import opened Transitions

  class Board {
    var classes: seq<ClassDefinition>
    var schedule: seq<ScheduledClass>
    /** The next unused instance identifier: the fresh-identifier source. */
    var nextId: InstanceId

    /** Library identifiers are unique, instance identifiers are unique, and
        every instance identifier was drawn from the counter already. */
    ghost predicate Valid()
      reads this
    {
      UniqueClassIds(classes) && UniqueInstanceIds(schedule) && IdsBelow(schedule, nextId)
    }

    /** An empty board (nothing persisted). */
    constructor ()
      ensures Valid() && classes == [] && schedule == []
    {
      classes := [];
      schedule := [];
      nextId := 0;
    }

    /** Saving a class from the form, with or without a recurrence request.
        The library takes the saved definition (with the request remembered);
        a recurring save reconciles the schedule against a fresh expansion
        from max(start, today); a plain save of a known class propagates the
        definition to its non-past instances; a plain save of a new class
        leaves the schedule alone. */
    method SaveClass(def: ClassDefinition, recurring: Option<Recurring>, today: Day)
      requires Valid()
      modifies this
      ensures Valid()
      ensures classes == UpsertClass(old(classes), UpdatedDefinition(def, recurring))
      ensures recurring.Some? ==>
        schedule == Reconcile(old(schedule), UpdatedDefinition(def, recurring), recurring.value, today, old(nextId))
      ensures recurring.Some? ==>
        nextId == old(nextId) + |Expand(UpdatedDefinition(def, recurring), ClampedConfig(recurring.value.config, today), old(nextId))|
      ensures recurring.None? && FindClass(old(classes), def.id).Some? ==>
        schedule == PropagateEdit(old(schedule), UpdatedDefinition(def, recurring), today) && nextId == old(nextId)
      ensures recurring.None? && FindClass(old(classes), def.id).None? ==>
        schedule == old(schedule) && nextId == old(nextId)
    {
      var updated := UpdatedDefinition(def, recurring);
      var isNew := FindClass(classes, def.id).None?;
      UpsertClassSpec(classes, updated);
      classes := UpsertClass(classes, updated);
      match recurring
      case Some(rec) =>
        var added, next := ApplyRecurrence(updated, ClampedConfig(rec.config, today), nextId);
        ReconcileUniqueIds(schedule, updated, rec, today, nextId);
        var r := Filter(schedule, OtherClass(def.id))
          + Filter(schedule, PastOf(def.id, today))
          + KeptFuture(schedule, def.id, rec, today)
          + added;
        assert r == Reconcile(schedule, updated, rec, today, nextId);
        schedule := r;
        nextId := next;
      case None =>
        if !isNew {
          PropagateEditKeeps(schedule, updated, today);
          MapIdsBelow(schedule, Propagate(updated, today), nextId);
          schedule := PropagateEdit(schedule, updated, today);
        }
    }

    /** Deleting a library entry; scheduled instances keep their copies. */
    method DeleteClass(id: string)
      requires Valid()
      modifies this
      ensures Valid()
      ensures classes == Transitions.DeleteClass(old(classes), id)
      ensures schedule == old(schedule) && nextId == old(nextId)
    {
      DeleteClassSpec(classes, id);
      classes := Transitions.DeleteClass(classes, id);
    }

    /** Clearing a class's instances from `startDate` to `endDate` inclusive. */
    method ClearRange(classId: string, startDate: Day, endDate: Day)
      requires Valid()
      modifies this
      ensures Valid()
      ensures schedule == Transitions.ClearRange(old(schedule), classId, startDate, endDate)
      ensures classes == old(classes) && nextId == old(nextId)
    {
      ClearRangeSpec(schedule, classId, startDate, endDate);
      schedule := Transitions.ClearRange(schedule, classId, startDate, endDate);
    }

    /** Retiming one instance. */
    method UpdateInstanceTime(instanceId: InstanceId, startTime: string, endTime: string)
      requires Valid()
      modifies this
      ensures Valid()
      ensures schedule == Transitions.UpdateInstanceTime(old(schedule), instanceId, startTime, endTime)
      ensures classes == old(classes) && nextId == old(nextId)
    {
      UpdateInstanceTimeSpec(schedule, instanceId, startTime, endTime);
      MapIdsBelow(schedule, RetimeOne(instanceId, startTime, endTime), nextId);
      schedule := Transitions.UpdateInstanceTime(schedule, instanceId, startTime, endTime);
    }

    /** Removing one instance from the grid. */
    method RemoveInstance(instanceId: InstanceId)
      requires Valid()
      modifies this
      ensures Valid()
      ensures schedule == Transitions.RemoveInstance(old(schedule), instanceId)
      ensures classes == old(classes) && nextId == old(nextId)
    {
      RemoveInstanceSpec(schedule, instanceId);
      schedule := Transitions.RemoveInstance(schedule, instanceId);
    }

    /** Dropping a library class onto a day: one new instance with a fresh
        identifier, or nothing when the class is not in the library. */
    method Drop(date: Day, classId: string)
      requires Valid()
      modifies this
      ensures Valid()
      ensures schedule == Transitions.Drop(old(classes), old(schedule), date, classId, old(nextId))
      ensures nextId == if FindClass(old(classes), classId).Some? then old(nextId) + 1 else old(nextId)
      ensures classes == old(classes)
    {
      var found := FindClass(classes, classId);
      if found.Some? {
        var def := found.value;
        var instance := ScheduledClass(def, nextId, date, DropStartTime(def), DropEndTime(def));
        forall i, j | 0 <= i < |schedule| && 0 <= j < 1
          ensures InstanceKey(schedule[i]) != InstanceKey([instance][j])
        {
          assert schedule[i] in schedule;
        }
        ConcatDistinct(schedule, [instance], InstanceKey);
        schedule := schedule + [instance];
        nextId := nextId + 1;
      }
    }
  }
}
