# State scheduler — a Dafny model of the start/stop decision logic

The state scheduler is a scheduled handler. A rule fires it with an event. The
handler decides from the event's `resources` strings whether the schedule is a
start or a stop. It then starts or stops the compute (EC2) instances and the
database (RDS) instances that carry a configured tag key and value.

This project models the handler's decision logic in `statescheduler/index.py`:

- **Classification.** The event is a start when some resource string contains
  `StartScheduledRule`. Otherwise it is a stop when some string contains
  `StopScheduledRule`. Otherwise it is neither. The test is Python's
  `str.count`, modelled in module `PyStr` and proved equivalent to
  "is a substring".
- **Tag filter for database instances.** This is the nested comprehension over
  the instance records and each instance's tag list.
- **Status-gated database loop.** A start goes only to `stopped` instances and
  a stop only to `available` ones. Every other target is logged as skipped.
- **Bulk compute action and the handler's sequence.** The compute commands
  come first, then the database commands.

Everything the handler fetches from the provider is an input to the model:

- the database instance records (id, ARN, status) of the single page that
  one `describe_db_instances()` call returns (line 22). The code does not
  follow the page marker, so instances beyond that page are never scheduled;
- a total function from ARN to tag list;
- the already-filtered list of compute instance ids.

Every call that would change a resource is a `Command` appended to a trace:
`BulkStartEC2`, `BulkStopEC2`, `StartDB`, `StopDB`, or `Skip` for a logged
skip. The tag key and value are a `TagSelector` passed as a parameter.

Files:

- `pystr.dfy`: module `PyStr`. Models `str.count` and the substring relation.
- `state_scheduler.dfy`: module `StateScheduler`. Models the handler.

When the event has no `resources` field, `event.get('resources')` yields
`None`, and iterating over it at line 36 raises before any start or stop is
issued. The model returns `Failed([], ResourcesNotIterable)`. It does not
treat a missing field as "neither".

## Model

| member | source | states |
|---|---|---|
| PyStr.Count | statescheduler/index.py:36 | For a non-empty pattern, the count never exceeds the string's length, and a non-zero count implies the pattern fits in the string |
| PyStr.CountPositiveIff | statescheduler/index.py:36 | `s.count(sub)` is non-zero exactly when `sub` occurs in `s` at some offset. So the handler's truthiness test is a substring test, not an equality test |
| StateScheduler.RulesMentioning | statescheduler/index.py:36 | The list comprehension keeps exactly the resource strings whose count of the rule name is non-zero, and keeps nothing else |
| StateScheduler.MentionsIffNonEmpty | statescheduler/index.py:36-39 | The comprehension is non-empty (truthy) exactly when some resource string contains the rule name |
| StateScheduler.Classify | statescheduler/index.py:36-41 | Start iff some string contains `StartScheduledRule`. Stop iff none contains it and some contains `StopScheduledRule`. Neither iff neither substring occurs. Start wins when both occur |
| StateScheduler.ClassifyEmbeddedStart | statescheduler/index.py:36-38 | A string that embeds `StartScheduledRule` between any prefix and suffix makes the event a start, at any position in the list and whatever the strings before and after it say |
| StateScheduler.ClassifyStopAndEmpty | statescheduler/index.py:36-41 | A lone `StopScheduledRule` classifies as a stop, and an empty resource list as neither |
| StateScheduler.Copies | statescheduler/index.py:25-26 | The inner loop over one instance's tag list yields only that instance. It yields it at least once iff some entry equals the configured key and value exactly |
| StateScheduler.CopiesPerMatchingEntry | statescheduler/index.py:25-26 | The inner loop yields the instance exactly as many times as there are tag-list positions whose entry equals the configured key and value |
| StateScheduler.TargetDBInstances | statescheduler/index.py:21-27 | An instance is in the target list iff it is among the fetched records and its tag list has an entry equal to (TagKey, TagValue). So the list is empty, not an error, when nothing matches |
| StateScheduler.TargetAppend | statescheduler/index.py:23-27 | The filter works record by record in input order: filtering a concatenation is the concatenation of the filtered parts |
| StateScheduler.CopiesUnique | statescheduler/index.py:25-26 | When a tag list has unique keys, the inner loop yields the instance exactly once if it is tagged and otherwise not at all |
| StateScheduler.TargetOncePerInstance | statescheduler/index.py:23-27 | When every tag list has unique keys, the target list is the order-preserving selection of the tagged records, each kept once |
| StateScheduler.TargetIdempotent | statescheduler/index.py:23-27 | When tag keys are unique, filtering the target list again returns it unchanged |
| StateScheduler.Gate | statescheduler/index.py:52-63 | The command for one targeted instance is a start, a stop or a skip, and it names that instance's identifier |
| StateScheduler.RDSCommands | statescheduler/index.py:50-63 | The database part of a run has no commands when the event is neither. Otherwise it has exactly one command per target, in target order, each naming its target |
| StateScheduler.RDSCommandsGated | statescheduler/index.py:52-63 | At each position, a start is issued iff the event is a start and the instance is `stopped`, and a stop iff the event is a stop and the instance is `available`. Every other target is skipped |
| StateScheduler.RDSIssuesInOrder | statescheduler/index.py:50-63 | On a start, the database starts are exactly the stopped targets' ids in list order, and there are no stops. On a stop, the stops are exactly the available targets' ids in order, and there are no starts |
| StateScheduler.RDSCommandsFromTargets | statescheduler/index.py:50-63 | Every database start comes from a start event and names a target that was `stopped`. Every database stop comes from a stop event and names a target that was `available` |
| StateScheduler.RDSCommandsStep | statescheduler/index.py:52-63 | Handling one more target appends exactly that target's gated command to the commands so far |
| StateScheduler.ScheduleRDS | statescheduler/index.py:44-63 | The loop's trace is the gated command list for the event's classification over the tag-filtered targets. A missing `resources` field fails with nothing issued |
| StateScheduler.EC2Commands | statescheduler/index.py:36-41 | The compute part of a run is one bulk start over all target ids iff the event is a start, one bulk stop iff it is a stop, and nothing iff it is neither |
| StateScheduler.ScheduleEC2 | statescheduler/index.py:30-41 | The compute step issues exactly the bulk command of the event's classification. A missing `resources` field fails with nothing issued |
| StateScheduler.HandlerTrace | statescheduler/index.py:66-72 | A run whose event is neither issues no command. Otherwise it opens with the single bulk compute command over the given ids, and every later entry is a per-database command |
| StateScheduler.HandlerSafety | statescheduler/index.py:66-72 | Every start in a run (bulk or database) comes from a start event and every stop from a stop event, so compute and databases always move the same way. Every database start names a tagged record that was `stopped`, and every database stop a tagged record that was `available` |
| StateScheduler.LambdaHandler | statescheduler/index.py:66-72 | The handler's trace is the compute commands followed by the database commands. An event without `resources` fails before any mutation, and the database step never runs. A start or stop appears in the trace only when the event carries `resources` that classify as a start or a stop |

## Left out

- Provider calls are not modelled as calls. This covers `describe_db_instances`, `list_tags_for_resource`, `start_db_instance`, `stop_db_instance` and the EC2 collection's `start()`/`stop()`. Their reads are inputs and their writes are trace entries, because they are network calls into the provider's SDK.
- The provider's responses and errors are not modelled (throttling, permission denied, an unknown ARN in `list_tags_for_resource`). In the code, an uncaught error ends the run where it occurs. The model has no such failures, so its traces are those of runs in which every call succeeds.
- The EC2 tag filter is left out. It runs on the provider's side (`Filters` on `instances.filter`), so the model takes the filtered id list as given.
- Reading `TagKey` and `TagValue` from the environment at load time is left out. The model takes them as a `TagSelector` parameter.
- Logging is left out: the "Started"/"Complete" lines, the target listings (including the Name-tag listing of compute instances), and the logged call responses. Only the skip messages appear, as `Skip(id)` entries.
- Pagination of `describe_db_instances` is not modelled: the code reads only the first page it returns (line 22), and the model's `dbs` input is that page.
- EC2Commands: one `BulkStartEC2`/`BulkStopEC2` entry stands for the collection's batch action. The SDK splits that action into one request per page of ids, and sends no request when the collection is empty. That paging is library behaviour outside this code.
- The type of `resources` is assumed to be a list of strings. The model does not cover the code's behaviour when it is some other value, such as a string, which Python would iterate character by character.
- TargetIdempotent and TargetOncePerInstance: both assume unique tag keys per resource, as the provider enforces. With a duplicated matching entry, the filter keeps an instance once per matching entry (`CopiesPerMatchingEntry`). Filtering twice then multiplies the copies, so it is not idempotent.
