/** CronHPA objects in the controller's memory and their generated deep copies
    (pkg/api/cronhpa/v1/zz_generated.deepcopy.go). Slices are arrays, and a nil slice or
    pointer is null. */
module Objects {
  import opened Types

  class TimeCell {
    var time: Time

    constructor (time: Time)
      ensures this.time == time
    {
      this.time := time;
    }

    method DeepCopy() returns (out: TimeCell)
      ensures fresh(out) && out.time == time
    {
      out := new TimeCell(time);
    }
  }

  function Elements<T>(a: array?<T>): seq<T>
    reads a
  {
    if a == null then [] else a[..]
  }

  class CronHPAObject {
    var key: Key
    var version: nat
    var creation: Time
    var scaleTargetRef: ScaleTargetRef
    var crons: array?<Cron>
    var excludeDates: array?<string>
    var startingDeadlineSeconds: int
    var lastScheduleTime: TimeCell?
    var conditions: array?<Condition>

    /** The zero object, as Go's `new`. */
    constructor ()
      ensures crons == null && excludeDates == null && lastScheduleTime == null && conditions == null
    {
      key, version, creation := Key("", ""), 0, ZERO_TIME;
      scaleTargetRef := ScaleTargetRef("", "", "");
      crons, excludeDates, startingDeadlineSeconds := null, null, 0;
      lastScheduleTime, conditions := null, null;
    }

    /** Everything reachable from the object except the object itself. */
    ghost function Parts(): set<object?>
      reads this
    {
      {crons as object?, excludeDates, lastScheduleTime, conditions} - {null}
    }

    function SpecValue(): Spec
      reads this, crons, excludeDates
    {
      Spec(scaleTargetRef, Elements(crons), Elements(excludeDates), startingDeadlineSeconds)
    }

    function StatusValue(): Status
      reads this, lastScheduleTime, conditions
    {
      Status(if lastScheduleTime == null then None else Some(lastScheduleTime.time), Elements(conditions))
    }

    /** The object as a value. */
    function Value(): CronHPA
      reads this, crons, excludeDates, lastScheduleTime, conditions
    {
      CronHPA(key, version, creation, SpecValue(), StatusValue())
    }

    /** Field by field: a nil slice reads as an empty list, a nil time as none. */
    lemma ValueInFull()
      ensures Value().key == key && Value().version == version && Value().creation == creation
      ensures Value().spec.scaleTargetRef == scaleTargetRef
      ensures Value().spec.startingDeadlineSeconds == startingDeadlineSeconds
      ensures Value().spec.crons == if crons == null then [] else crons[..]
      ensures Value().spec.excludeDates == if excludeDates == null then [] else excludeDates[..]
      ensures Value().status.lastScheduleTime ==
              if lastScheduleTime == null then None else Some(lastScheduleTime.time)
      ensures Value().status.conditions == if conditions == null then [] else conditions[..]
    {}

    /** The two objects are nil in the same places. */
    ghost predicate SameNils(out: CronHPAObject)
      reads this, out
    {
      && (out.crons == null <==> crons == null)
      && (out.excludeDates == null <==> excludeDates == null)
      && (out.lastScheduleTime == null <==> lastScheduleTime == null)
      && (out.conditions == null <==> conditions == null)
    }

    method SpecDeepCopyInto(out: CronHPAObject)
      requires out != this
      modifies out`scaleTargetRef, out`crons, out`excludeDates, out`startingDeadlineSeconds
      ensures out.SpecValue() == SpecValue()
      ensures out.crons == null <==> crons == null
      ensures out.excludeDates == null <==> excludeDates == null
      ensures out.crons != null ==> fresh(out.crons)
      ensures out.excludeDates != null ==> fresh(out.excludeDates)
    {
      // The assignment copies the slice headers, so for now both objects share their arrays.
      out.scaleTargetRef, out.crons := scaleTargetRef, crons;
      out.excludeDates, out.startingDeadlineSeconds := excludeDates, startingDeadlineSeconds;
      if crons != null {
        out.crons := CopyCrons(crons);
      }
      if excludeDates != null {
        out.excludeDates := CopyStrings(excludeDates);
      }
    }

    method StatusDeepCopyInto(out: CronHPAObject)
      requires out != this
      modifies out`lastScheduleTime, out`conditions
      ensures out.StatusValue() == StatusValue()
      ensures out.lastScheduleTime == null <==> lastScheduleTime == null
      ensures out.conditions == null <==> conditions == null
      ensures out.lastScheduleTime != null ==> fresh(out.lastScheduleTime)
      ensures out.conditions != null ==> fresh(out.conditions)
    {
      out.lastScheduleTime, out.conditions := lastScheduleTime, conditions;
      if lastScheduleTime != null {
        out.lastScheduleTime := lastScheduleTime.DeepCopy();
      }
      if conditions != null {
        out.conditions := CopyConditions(conditions);
      }
    }

    method DeepCopyInto(out: CronHPAObject)
      requires out != this
      modifies out
      ensures out.Value() == Value() && SameNils(out)
      ensures fresh(out.Parts())
    {
      out.key, out.version, out.creation := key, version, creation;
      SpecDeepCopyInto(out);
      StatusDeepCopyInto(out);
    }

    /** A deep copy has the same value and shares nothing with the original. */
    method DeepCopy() returns (out: CronHPAObject)
      ensures fresh(out) && fresh(out.Parts())
      ensures out.Value() == Value() && SameNils(out)
    {
      out := new CronHPAObject();
      DeepCopyInto(out);
    }
  }

  /** Conditions are copied one by one, through their own deep copy. */
  method CopyConditions(a: array<Condition>) returns (b: array<Condition>)
    ensures fresh(b) && b[..] == a[..]
  {
    b := new Condition[a.Length];
    for i := 0 to a.Length
      invariant b[..i] == a[..i]
    {
      b[i] := a[i];
    }
  }

  method CopyCrons(a: array<Cron>) returns (b: array<Cron>)
    ensures fresh(b) && b[..] == a[..]
  {
    b := new Cron[a.Length];
    forall i | 0 <= i < a.Length { b[i] := a[i]; }
  }

  method CopyStrings(a: array<string>) returns (b: array<string>)
    ensures fresh(b) && b[..] == a[..]
  {
    b := new string[a.Length];
    forall i | 0 <= i < a.Length { b[i] := a[i]; }
  }
}
