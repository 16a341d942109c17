/** The entities the CronHPA controller reads and writes, and the API server's
    contents as a value. */
module Types {

  datatype Option<+T> = None | Some(value: T)

  datatype Result<+T> = Ok(value: T) | Err(error: Error)

  datatype Error =
    | UnparseableSchedule(schedule: string)
    | TooManyMissed
    | DuplicateName(name: string)
    | UnrecognizedResource
    | NotFound
    | Conflict
    | ApiFailure(code: int)

  // Whole seconds since the Unix epoch. Cron ticks fall on whole seconds, so nothing is lost by
  // rounding clock readings down.
  type Time = int

  // The time package's zero value, the first second of year 1.
  const ZERO_TIME: Time := -62135596800

  lemma ZeroTimeIsYearOne()
    ensures ZERO_TIME == -86400 * (365 * 1969 + 1969 / 4 - 1969 / 100 + 1969 / 400)
  {}

  // The tick strictly after a given time, as `Schedule.Next` of the cron library.
  type Schedule = Time -> Time

  // The cron library's parser: None is a parse failure.
  type Parser = string -> Option<Schedule>

  // ---------- the CronHPA resource ----------

  datatype Key = Key(namespace: string, name: string)

  datatype ScaleTargetRef = ScaleTargetRef(apiVersion: string, kind: string, name: string)

  datatype Cron = Cron(name: string, schedule: string, runOnce: bool, targetSize: int)

  datatype Spec = Spec(
    scaleTargetRef: ScaleTargetRef,
    crons: seq<Cron>,
    excludeDates: seq<string>,
    startingDeadlineSeconds: int)

  type JobStatus = string

  const SUCCEED: JobStatus := "Succeed"

  datatype Condition = Condition(
    name: string,
    schedule: string,
    runOnce: bool,
    targetSize: string,
    status: JobStatus,
    lastProbeTime: Time,
    message: string)

  datatype Status = Status(lastScheduleTime: Option<Time>, conditions: seq<Condition>)

  /** `version` is the resource version: every stored write of an object changes it. */
  datatype CronHPA = CronHPA(key: Key, version: nat, creation: Time, spec: Spec, status: Status)

  // ---------- what the controller acts on ----------

  datatype Hpa = Hpa(minReplicas: int, maxReplicas: int, currentReplicas: int, target: ScaleTargetRef)

  datatype GroupResource = GroupResource(group: string, resource: string)

  datatype ScaleKey = ScaleKey(namespace: string, resource: GroupResource, name: string)

  /** Everything the API server stores that the controller can see. */
  datatype World = World(
    objects: map<Key, CronHPA>,
    hpas: map<Key, Hpa>,
    scales: map<ScaleKey, int>)

  // ---------- what the environment decides ----------

  /** How an update request ends. In the third case the write is stored but the
      caller sees an error, as when the connection drops before the answer. */
  datatype Reply = Acked | Rejected(error: Error) | LostAck(error: Error)
  {
    predicate Stored() { !Rejected? }

    function Seen(): Result<()> { if Acked? then Ok(()) else Err(error) }
  }

  /** The API server's and the REST mapper's behaviour during one reconcile.
      `scaleGet(i)` is the failure, if any, of the Get through the i-th mapping. */
  datatype Api = Api(
    hpaGet: Option<Error>,
    hpaUpdate: Reply,
    mappings: ScaleTargetRef -> Result<seq<GroupResource>>,
    scaleGet: nat -> Option<Error>,
    scaleUpdate: Reply,
    statusUpdate: Reply)

  /** One reconcile's environment: the clock on entry, the clock when the status
      is stamped, and the API's behaviour. */
  datatype Round = Round(now: Time, stamped: Time, api: Api)

  const HPA_KIND: string := "HorizontalPodAutoscaler"
}
