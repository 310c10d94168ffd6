/**
 The decision logic of the state-scheduler handler: which way a triggering
 event points (start or stop), which database instances carry the configured
 tag, which of them are in a state that lets the command through, and the
 order in which the compute and database commands are issued.

 Everything the handler fetches from the cloud provider is an input here
 (the database instance records, the tag list of each resource reference,
 the already filtered compute instance ids), and every call that would change
 a resource is an entry appended to a command trace.
 */
module StateScheduler {
  import opened PyStr

  datatype Option<+T> = None | Some(value: T)

  /** The configured tag key and value, fixed for the life of the handler. */
  datatype TagSelector = TagSelector(key: string, value: string)

  /** One entry of a resource's tag list. */
  datatype Tag = Tag(key: string, value: string)

  /** A database instance record: identifier, resource reference (ARN) and status. */
  datatype DBInstance = DBInstance(id: string, arn: string, status: string)

  /** The triggering event; `resources` is None when the field is absent or null. */
  datatype Event = Event(resources: Option<seq<string>>)

  /** The direction a triggering event is classified as. */
  datatype Action = Start | Stop | NoAction

  /** A call the handler makes against the provider, or a skip it logs instead. */
  datatype Command =
    | BulkStartEC2(instanceIds: seq<string>)
    | BulkStopEC2(instanceIds: seq<string>)
    | StartDB(id: string)
    | StopDB(id: string)
    | Skip(id: string)
  {
    /** A command issued for a single database instance. */
    predicate IsDBCommand()
    {
      StartDB? || StopDB? || Skip?
    }

    /** A command that asks the provider to change a resource's state. */
    predicate IsMutation()
    {
      !Skip?
    }
  }

  /** Iterating over a missing `resources` field raises before anything is issued. */
  datatype HandlerError = ResourcesNotIterable

  /** What one run produced: the commands issued, and the error that ended it if any. */
  datatype Outcome = Completed(trace: seq<Command>) | Failed(trace: seq<Command>, error: HandlerError)

  const StartRule: string := "StartScheduledRule"
  const StopRule: string := "StopScheduledRule"
  const Stopped: string := "stopped"
  const Available: string := "available"

  // ---------------------------------------------------------------------------
  // Schedule classification
  // ---------------------------------------------------------------------------

  /** The resource strings whose `count(rule)` is non-zero, in order. */
  function RulesMentioning(resources: seq<string>, rule: string): (m: seq<string>)
    ensures forall r :: r in m ==> r in resources && Count(r, rule) > 0
    ensures forall r :: r in resources && Count(r, rule) > 0 ==> r in m
  {
    if resources == [] then []
    else (if Count(resources[0], rule) > 0 then [resources[0]] else [])
         + RulesMentioning(resources[1..], rule)
  }

  /** Some resource string contains `rule` as a substring. */
  ghost predicate Mentions(resources: seq<string>, rule: string)
  {
    exists r :: r in resources && Occurs(r, rule)
  }

  /** The filtered list is non-empty exactly when some string contains the rule name. */
  lemma MentionsIffNonEmpty(resources: seq<string>, rule: string)
    ensures RulesMentioning(resources, rule) != [] <==> Mentions(resources, rule)
  {
    forall r | r in resources
      ensures Count(r, rule) > 0 <==> Occurs(r, rule)
    {
      CountPositiveIff(r, rule);
    }
    if Mentions(resources, rule) {
      var r :| r in resources && Occurs(r, rule);
      assert r in RulesMentioning(resources, rule);
    }
  }

  /**
   The rule test the handler makes: Start when some string mentions the start
   rule, otherwise Stop when some string mentions the stop rule, otherwise
   neither. The start test comes first, so it wins when both occur.
   */
  function Classify(resources: seq<string>): (a: Action)
    ensures a == Start <==> Mentions(resources, StartRule)
    ensures a == Stop <==> !Mentions(resources, StartRule) && Mentions(resources, StopRule)
    ensures a == NoAction <==> !Mentions(resources, StartRule) && !Mentions(resources, StopRule)
  {
    MentionsIffNonEmpty(resources, StartRule);
    MentionsIffNonEmpty(resources, StopRule);
    if RulesMentioning(resources, StartRule) != [] then Start
    else if RulesMentioning(resources, StopRule) != [] then Stop
    else NoAction
  }

  /**
   A resource string that embeds the start rule name anywhere makes the event
   a start, whatever the other strings mention.
   */
  lemma ClassifyEmbeddedStart(before: seq<string>, prefix: string, suffix: string, after: seq<string>)
    ensures Classify(before + [prefix + StartRule + suffix] + after) == Start
  {
    var r := prefix + StartRule + suffix;
    assert r[|prefix|..|prefix| + |StartRule|] == StartRule;
    assert OccursAt(r, StartRule, |prefix|);
    assert r in before + [r] + after;
  }

  /** The stop rule alone classifies as a stop; an empty list as neither. */
  lemma ClassifyStopAndEmpty()
    ensures Classify(["StopScheduledRule"]) == Stop
    ensures Classify([]) == NoAction
  {
  }

  // ---------------------------------------------------------------------------
  // Tag filter for database instances
  // ---------------------------------------------------------------------------

  /** A tag entry equals the configured pair, key and value compared exactly. */
  predicate Selects(sel: TagSelector, t: Tag)
  {
    t.key == sel.key && t.value == sel.value
  }

  /** Some entry of the tag list equals the configured pair. */
  predicate Tagged(tags: seq<Tag>, sel: TagSelector)
  {
    exists t :: t in tags && Selects(sel, t)
  }

  /** The inner loop of the filter: one copy of `inst` per matching tag entry. */
  function Copies(inst: DBInstance, tags: seq<Tag>, sel: TagSelector): (r: seq<DBInstance>)
    ensures forall x :: x in r ==> x == inst
    ensures inst in r <==> Tagged(tags, sel)
  {
    if tags == [] then []
    else (if Selects(sel, tags[0]) then [inst] else []) + Copies(inst, tags[1..], sel)
  }

  /**
   The database instances the handler targets: for each instance in turn, for
   each entry of its tag list, the instance once if the entry equals the
   configured pair. `tagsOf` gives the tag list of a resource reference.
   */
  function TargetDBInstances(dbs: seq<DBInstance>, tagsOf: string -> seq<Tag>, sel: TagSelector)
    : (r: seq<DBInstance>)
    ensures forall x :: x in r <==> x in dbs && Tagged(tagsOf(x.arn), sel)
  {
    if dbs == [] then []
    else Copies(dbs[0], tagsOf(dbs[0].arn), sel) + TargetDBInstances(dbs[1..], tagsOf, sel)
  }

  /** The positions of a tag list whose entry equals the configured pair. */
  ghost function MatchingPositions(tags: seq<Tag>, sel: TagSelector): set<nat>
  {
    set k: nat | k < |tags| && Selects(sel, tags[k])
  }

  /** The inner loop over a concatenated tag list is the two inner loops in turn. */
  lemma {:induction false} CopiesAppend(inst: DBInstance, a: seq<Tag>, b: seq<Tag>, sel: TagSelector)
    ensures Copies(inst, a + b, sel) == Copies(inst, a, sel) + Copies(inst, b, sel)
  {
    if a == [] {
      assert a + b == b;
    } else {
      assert (a + b)[0] == a[0];
      assert (a + b)[1..] == a[1..] + b;
      CopiesAppend(inst, a[1..], b, sel);
    }
  }

  /** Extending a tag list by one entry adds its position exactly when it matches. */
  lemma MatchingPositionsSnoc(init: seq<Tag>, t: Tag, sel: TagSelector)
    ensures MatchingPositions(init + [t], sel)
         == MatchingPositions(init, sel) + (if Selects(sel, t) then {|init|} else {})
    ensures |init| !in MatchingPositions(init, sel)
  {
    var tags := init + [t];
    forall k: nat | k < |init| ensures tags[k] == init[k] { }
    assert tags[|init|] == t;
  }

  /** The inner loop yields the instance once per tag entry equal to the configured pair. */
  lemma {:induction false} CopiesPerMatchingEntry(inst: DBInstance, tags: seq<Tag>, sel: TagSelector)
    ensures |Copies(inst, tags, sel)| == |MatchingPositions(tags, sel)|
    decreases |tags|
  {
    if tags == [] {
      assert MatchingPositions(tags, sel) == {};
    } else {
      var n := |tags| - 1;
      var init := tags[..n];
      assert init + [tags[n]] == tags;
      CopiesAppend(inst, init, [tags[n]], sel);
      assert Copies(inst, [tags[n]], sel) == if Selects(sel, tags[n]) then [inst] else [] by {
        assert [tags[n]][1..] == [];
      }
      CopiesPerMatchingEntry(inst, init, sel);
      MatchingPositionsSnoc(init, tags[n], sel);
    }
  }

  /** The filter works instance by instance: splitting the input splits the output. */
  lemma {:induction false} TargetAppend(a: seq<DBInstance>, b: seq<DBInstance>, tagsOf: string -> seq<Tag>, sel: TagSelector)
    ensures TargetDBInstances(a + b, tagsOf, sel)
         == TargetDBInstances(a, tagsOf, sel) + TargetDBInstances(b, tagsOf, sel)
  {
    if a == [] {
      assert a + b == b;
    } else {
      assert (a + b)[0] == a[0];
      assert (a + b)[1..] == a[1..] + b;
      TargetAppend(a[1..], b, tagsOf, sel);
    }
  }

  /** No two entries of a tag list share a key (the provider's own rule for tags). */
  ghost predicate UniqueKeys(tags: seq<Tag>)
  {
    forall j, k :: 0 <= j < k < |tags| ==> tags[j].key != tags[k].key
  }

  /** The order-preserving selection of the tagged instances, each kept once. */
  function SelectTagged(dbs: seq<DBInstance>, tagsOf: string -> seq<Tag>, sel: TagSelector)
    : (r: seq<DBInstance>)
    ensures |r| <= |dbs|
    ensures forall x :: x in r ==> x in dbs
  {
    if dbs == [] then []
    else (if Tagged(tagsOf(dbs[0].arn), sel) then [dbs[0]] else [])
         + SelectTagged(dbs[1..], tagsOf, sel)
  }

  /** With unique tag keys, an instance has at most one matching entry. */
  lemma {:induction false} CopiesUnique(inst: DBInstance, tags: seq<Tag>, sel: TagSelector)
    requires UniqueKeys(tags)
    ensures Copies(inst, tags, sel) == if Tagged(tags, sel) then [inst] else []
  {
    if tags != [] {
      var rest := tags[1..];
      assert UniqueKeys(rest) by {
        forall j, k | 0 <= j < k < |rest| ensures rest[j].key != rest[k].key {
          assert rest[j] == tags[j + 1] && rest[k] == tags[k + 1];
        }
      }
      CopiesUnique(inst, rest, sel);
      if Selects(sel, tags[0]) {
        forall t | t in rest ensures !Selects(sel, t) {
          var k :| 0 <= k < |rest| && rest[k] == t;
          assert tags[k + 1] == t;
        }
      } else {
        assert Tagged(tags, sel) ==> Tagged(rest, sel) by {
          if Tagged(tags, sel) {
            var t :| t in tags && Selects(sel, t);
            assert t != tags[0];
            assert t in rest;
          }
        }
      }
    }
  }

  /**
   When every targeted resource has unique tag keys, the filter keeps each
   tagged instance exactly once, in the order of the input.
   */
  lemma {:induction false} TargetOncePerInstance(dbs: seq<DBInstance>, tagsOf: string -> seq<Tag>, sel: TagSelector)
    requires forall i :: i in dbs ==> UniqueKeys(tagsOf(i.arn))
    ensures TargetDBInstances(dbs, tagsOf, sel) == SelectTagged(dbs, tagsOf, sel)
  {
    if dbs != [] {
      CopiesUnique(dbs[0], tagsOf(dbs[0].arn), sel);
      TargetOncePerInstance(dbs[1..], tagsOf, sel);
    }
  }

  /** Selecting twice selects nothing more. */
  lemma {:induction false} SelectTaggedIdempotent(dbs: seq<DBInstance>, tagsOf: string -> seq<Tag>, sel: TagSelector)
    ensures SelectTagged(SelectTagged(dbs, tagsOf, sel), tagsOf, sel) == SelectTagged(dbs, tagsOf, sel)
  {
    if dbs != [] {
      var rest := SelectTagged(dbs[1..], tagsOf, sel);
      SelectTaggedIdempotent(dbs[1..], tagsOf, sel);
      if Tagged(tagsOf(dbs[0].arn), sel) {
        var once := [dbs[0]] + rest;
        assert SelectTagged(dbs, tagsOf, sel) == once;
        assert once[0] == dbs[0] && once[1..] == rest;
        assert SelectTagged(once, tagsOf, sel) == [dbs[0]] + SelectTagged(rest, tagsOf, sel);
      } else {
        assert SelectTagged(dbs, tagsOf, sel) == rest;
      }
    }
  }

  /** With unique tag keys, filtering the filtered list changes nothing. */
  lemma TargetIdempotent(dbs: seq<DBInstance>, tagsOf: string -> seq<Tag>, sel: TagSelector)
    requires forall i :: i in dbs ==> UniqueKeys(tagsOf(i.arn))
    ensures TargetDBInstances(TargetDBInstances(dbs, tagsOf, sel), tagsOf, sel)
         == TargetDBInstances(dbs, tagsOf, sel)
  {
    var once := TargetDBInstances(dbs, tagsOf, sel);
    TargetOncePerInstance(dbs, tagsOf, sel);
    TargetOncePerInstance(once, tagsOf, sel);
    SelectTaggedIdempotent(dbs, tagsOf, sel);
  }

  // ---------------------------------------------------------------------------
  // Database scheduling: one gated command per targeted instance
  // ---------------------------------------------------------------------------

  /** The command for one instance: a start only when stopped, a stop only when available. */
  function Gate(a: Action, inst: DBInstance): (c: Command)
    requires a != NoAction
    ensures c.IsDBCommand() && c.id == inst.id
  {
    if a == Start then
      (if inst.status == Stopped then StartDB(inst.id) else Skip(inst.id))
    else
      (if inst.status == Available then StopDB(inst.id) else Skip(inst.id))
  }

  /** The database commands for a classification: one per target, in order; none for NoAction. */
  function RDSCommands(a: Action, targets: seq<DBInstance>): (r: seq<Command>)
    ensures a == NoAction ==> r == []
    ensures a != NoAction ==> |r| == |targets|
    ensures forall k :: 0 <= k < |r| ==> r[k].IsDBCommand() && r[k].id == targets[k].id
    decreases |targets|
  {
    if a == NoAction || targets == [] then []
    else RDSCommands(a, targets[..|targets| - 1]) + [Gate(a, targets[|targets| - 1])]
  }

  /**
   The status guard: at each position, a start is issued exactly when the
   event is a start and the instance is stopped, a stop exactly when the event
   is a stop and the instance is available; every other target is skipped.
   */
  lemma {:induction false} RDSCommandsGated(a: Action, targets: seq<DBInstance>)
    ensures var r := RDSCommands(a, targets);
      forall k :: 0 <= k < |r| ==>
        && (r[k].StartDB? <==> a == Start && targets[k].status == Stopped)
        && (r[k].StopDB? <==> a == Stop && targets[k].status == Available)
    decreases |targets|
  {
    if a != NoAction && targets != [] {
      var n := |targets| - 1;
      RDSCommandsGated(a, targets[..n]);
      var r := RDSCommands(a, targets);
      assert r == RDSCommands(a, targets[..n]) + [Gate(a, targets[n])];
      forall k | 0 <= k < n
        ensures r[k] == RDSCommands(a, targets[..n])[k] && targets[k] == targets[..n][k]
      {
      }
    }
  }

  /** The ids of the database starts in a trace, in order. */
  function StartedIds(trace: seq<Command>): seq<string>
  {
    if trace == [] then []
    else StartedIds(trace[..|trace| - 1])
         + (if trace[|trace| - 1].StartDB? then [trace[|trace| - 1].id] else [])
  }

  /** The ids of the database stops in a trace, in order. */
  function StoppedIds(trace: seq<Command>): seq<string>
  {
    if trace == [] then []
    else StoppedIds(trace[..|trace| - 1])
         + (if trace[|trace| - 1].StopDB? then [trace[|trace| - 1].id] else [])
  }

  /** The ids of the instances in a given status, in order. */
  function IdsInStatus(targets: seq<DBInstance>, status: string): seq<string>
  {
    if targets == [] then []
    else IdsInStatus(targets[..|targets| - 1], status)
         + (if targets[|targets| - 1].status == status then [targets[|targets| - 1].id] else [])
  }

  /**
   On a start, the database starts issued are exactly the stopped targets, in
   list order, and no stop is issued; on a stop, symmetrically.
   */
  lemma {:induction false} RDSIssuesInOrder(a: Action, targets: seq<DBInstance>)
    ensures a == Start ==>
      StartedIds(RDSCommands(a, targets)) == IdsInStatus(targets, Stopped) && StoppedIds(RDSCommands(a, targets)) == []
    ensures a == Stop ==>
      StoppedIds(RDSCommands(a, targets)) == IdsInStatus(targets, Available) && StartedIds(RDSCommands(a, targets)) == []
    decreases |targets|
  {
    if a != NoAction && targets != [] {
      var n := |targets| - 1;
      RDSIssuesInOrder(a, targets[..n]);
      var r := RDSCommands(a, targets);
      assert r[..|r| - 1] == RDSCommands(a, targets[..n]);
    }
  }

  /** One more target adds its gated command at the end. */
  lemma RDSCommandsStep(a: Action, targets: seq<DBInstance>, i: nat)
    requires a != NoAction && i < |targets|
    ensures RDSCommands(a, targets[..i + 1]) == RDSCommands(a, targets[..i]) + [Gate(a, targets[i])]
  {
    assert targets[..i + 1][..i] == targets[..i];
  }

  /** Model of `schedule_rds`: fetch the targets, then the status-gated loop. */
  method ScheduleRDS(event: Event, dbs: seq<DBInstance>, tagsOf: string -> seq<Tag>, sel: TagSelector)
    returns (outcome: Outcome)
    ensures event.resources.None? ==> outcome == Failed([], ResourcesNotIterable)
    ensures event.resources.Some? ==>
      outcome == Completed(RDSCommands(Classify(event.resources.value), TargetDBInstances(dbs, tagsOf, sel)))
  {
    var targets := TargetDBInstances(dbs, tagsOf, sel);
    if event.resources.None? {
      return Failed([], ResourcesNotIterable);
    }
    var resources := event.resources.value;
    var trace: seq<Command> := [];
    if RulesMentioning(resources, StartRule) != [] {
      for i := 0 to |targets|
        invariant trace == RDSCommands(Start, targets[..i])
      {
        var instance := targets[i];
        if instance.status == Stopped {
          trace := trace + [StartDB(instance.id)];
        } else {
          trace := trace + [Skip(instance.id)];
        }
        RDSCommandsStep(Start, targets, i);
      }
    } else if RulesMentioning(resources, StopRule) != [] {
      for i := 0 to |targets|
        invariant trace == RDSCommands(Stop, targets[..i])
      {
        var instance := targets[i];
        if instance.status == Available {
          trace := trace + [StopDB(instance.id)];
        } else {
          trace := trace + [Skip(instance.id)];
        }
        RDSCommandsStep(Stop, targets, i);
      }
    }
    assert targets[..|targets|] == targets;
    assert trace == RDSCommands(Classify(resources), targets);
    outcome := Completed(trace);
  }

  // ---------------------------------------------------------------------------
  // Compute scheduling: one bulk command over the already filtered ids
  // ---------------------------------------------------------------------------

  /** The compute commands for a classification: one bulk start, one bulk stop, or nothing. */
  function EC2Commands(a: Action, ids: seq<string>): (r: seq<Command>)
    ensures r == [BulkStartEC2(ids)] <==> a == Start
    ensures r == [BulkStopEC2(ids)] <==> a == Stop
    ensures r == [] <==> a == NoAction
  {
    match a
    case Start => [BulkStartEC2(ids)]
    case Stop => [BulkStopEC2(ids)]
    case NoAction => []
  }

  /** Model of `schedule_ec2`: the same rule test, then a single bulk action. */
  method ScheduleEC2(event: Event, ec2Ids: seq<string>) returns (outcome: Outcome)
    ensures event.resources.None? ==> outcome == Failed([], ResourcesNotIterable)
    ensures event.resources.Some? ==>
      outcome == Completed(EC2Commands(Classify(event.resources.value), ec2Ids))
  {
    if event.resources.None? {
      return Failed([], ResourcesNotIterable);
    }
    var resources := event.resources.value;
    if RulesMentioning(resources, StartRule) != [] {
      outcome := Completed([BulkStartEC2(ec2Ids)]);
    } else if RulesMentioning(resources, StopRule) != [] {
      outcome := Completed([BulkStopEC2(ec2Ids)]);
    } else {
      outcome := Completed([]);
    }
  }

  // ---------------------------------------------------------------------------
  // The handler: compute first, then databases
  // ---------------------------------------------------------------------------

  /** The full command trace of a run whose event carries `resources`. */
  function HandlerTrace(resources: seq<string>, ec2Ids: seq<string>, dbs: seq<DBInstance>,
                        tagsOf: string -> seq<Tag>, sel: TagSelector): (r: seq<Command>)
    ensures Classify(resources) == NoAction ==> r == []
    ensures Classify(resources) != NoAction ==>
      |r| >= 1 && (r[0].BulkStartEC2? || r[0].BulkStopEC2?) && r[0].instanceIds == ec2Ids
    ensures forall k :: 1 <= k < |r| ==> r[k].IsDBCommand()
  {
    var a := Classify(resources);
    EC2Commands(a, ec2Ids) + RDSCommands(a, TargetDBInstances(dbs, tagsOf, sel))
  }

  /**
   Every database start names a stopped target and comes from a start event;
   every database stop names an available target and comes from a stop event.
   */
  lemma RDSCommandsFromTargets(a: Action, targets: seq<DBInstance>)
    ensures forall c :: c in RDSCommands(a, targets) && c.StartDB? ==>
      a == Start && exists t :: t in targets && t.id == c.id && t.status == Stopped
    ensures forall c :: c in RDSCommands(a, targets) && c.StopDB? ==>
      a == Stop && exists t :: t in targets && t.id == c.id && t.status == Available
  {
    var r := RDSCommands(a, targets);
    RDSCommandsGated(a, targets);
    forall c | c in r && (c.StartDB? || c.StopDB?)
      ensures c.StartDB? ==> a == Start && exists t :: t in targets && t.id == c.id && t.status == Stopped
      ensures c.StopDB? ==> a == Stop && exists t :: t in targets && t.id == c.id && t.status == Available
    {
      var k :| 0 <= k < |r| && r[k] == c;
      assert targets[k] in targets;
    }
  }

  /**
   Every command in a run points the way the event does, so compute and
   databases always move in the same direction; every database start names a
   tagged instance that was stopped, every database stop a tagged instance
   that was available.
   */
  lemma HandlerSafety(resources: seq<string>, ec2Ids: seq<string>, dbs: seq<DBInstance>,
                      tagsOf: string -> seq<Tag>, sel: TagSelector)
    ensures var r := HandlerTrace(resources, ec2Ids, dbs, tagsOf, sel);
      && (forall c :: c in r && (c.StartDB? || c.BulkStartEC2?) ==> Classify(resources) == Start)
      && (forall c :: c in r && (c.StopDB? || c.BulkStopEC2?) ==> Classify(resources) == Stop)
      && (forall c :: c in r && c.StartDB? ==>
            exists i :: i in dbs && i.id == c.id && i.status == Stopped && Tagged(tagsOf(i.arn), sel))
      && (forall c :: c in r && c.StopDB? ==>
            exists i :: i in dbs && i.id == c.id && i.status == Available && Tagged(tagsOf(i.arn), sel))
  {
    var a := Classify(resources);
    var targets := TargetDBInstances(dbs, tagsOf, sel);
    var ec2 := EC2Commands(a, ec2Ids);
    var rds := RDSCommands(a, targets);
    var r := HandlerTrace(resources, ec2Ids, dbs, tagsOf, sel);
    assert r == ec2 + rds;
    RDSCommandsFromTargets(a, targets);
    assert ec2 == match a case Start => [BulkStartEC2(ec2Ids)] case Stop => [BulkStopEC2(ec2Ids)] case NoAction => [];
    forall c | c in r && (c.StartDB? || c.BulkStartEC2?) ensures a == Start {
      if c in ec2 { assert c == ec2[0]; } else { assert c in rds; }
    }
    forall c | c in r && (c.StopDB? || c.BulkStopEC2?) ensures a == Stop {
      if c in ec2 { assert c == ec2[0]; } else { assert c in rds; }
    }
    forall c | c in r && c.StartDB?
      ensures exists i :: i in dbs && i.id == c.id && i.status == Stopped && Tagged(tagsOf(i.arn), sel)
    {
      assert c in rds;
      var t :| t in targets && t.id == c.id && t.status == Stopped;
      assert t in dbs && Tagged(tagsOf(t.arn), sel);
    }
    forall c | c in r && c.StopDB?
      ensures exists i :: i in dbs && i.id == c.id && i.status == Available && Tagged(tagsOf(i.arn), sel)
    {
      assert c in rds;
      var t :| t in targets && t.id == c.id && t.status == Available;
      assert t in dbs && Tagged(tagsOf(t.arn), sel);
    }
  }

  /**
   Model of `lambda_handler`: the compute pipeline, then the database
   pipeline; a failure in the first stops the second from running.
   */
  method LambdaHandler(event: Event, ec2Ids: seq<string>, dbs: seq<DBInstance>,
                       tagsOf: string -> seq<Tag>, sel: TagSelector)
    returns (outcome: Outcome)
    ensures event.resources.None? ==> outcome == Failed([], ResourcesNotIterable)
    ensures event.resources.Some? ==>
      outcome == Completed(HandlerTrace(event.resources.value, ec2Ids, dbs, tagsOf, sel))
    ensures forall c :: c in outcome.trace && c.IsMutation() ==>
      event.resources.Some? && Classify(event.resources.value) != NoAction
  {
    var ec2 := ScheduleEC2(event, ec2Ids);
    if ec2.Failed? {
      return ec2;
    }
    var rds := ScheduleRDS(event, dbs, tagsOf, sel);
    match rds
    case Completed(t) => outcome := Completed(ec2.trace + t);
    case Failed(t, e) => outcome := Failed(ec2.trace + t, e);
  }
}
