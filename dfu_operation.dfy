/** A DFU operation: the act of updating the firmware of one device, made of one or
    more updates (bootloader, SoftDevice, application, or a combination), each an
    init packet and a firmware image.

    The operation is started at most once; the run it starts sends, update by update
    in index order, the init packet and then the image through the chunked transfer
    of `DfuAbstractTransport`, optionally restarting the transfer before each update,
    and ends at the first failure. `PerformSpec` is the run as the source's recursion
    over the update index; `Plan` and `RunSteps` are an independent description as a
    flat list of transport calls, and `PerformIsPlan` proves the two agree. The
    `Task` the source keeps is modelled by the outcome of the run it stands for. */
module DfuOperation {
  import opened Common
  import opened DfuErrors
  import opened DfuAbstractTransport

  /** A `byte[]` payload: at most `int.MaxValue` bytes. */
  type Payload = s: seq<byte> | |s| <= MAX_LENGTH

  /** One entry of `DfuUpdates.Updates`. */
  datatype FirmwareUpdate = FirmwareUpdate(initPacket: Payload, firmwareImage: Payload)

  /** A call the operation makes on its transport. */
  datatype Step = Restart | SendInit(initPacket: Payload) | SendImage(firmwareImage: Payload)

  /** The outcome of one transport call on world `w`: `Restart` creates a 16-byte
      command object; the payloads go through `SendPayload` with type 1 (command
      object) and type 2 (data object). */
  function RunStep(device: Device, w: World, s: Step): (r: Run<()>)
    ensures w.log <= r.world.log
  {
    match s
    case Restart => Unit(Call(device, w, Create(OBJECT_COMMAND, 0x10)))
    case SendInit(bytes) => SendPayloadSpec(device, w, OBJECT_COMMAND, bytes, false)
    case SendImage(bytes) => SendPayloadSpec(device, w, OBJECT_DATA, bytes, false)
  }

  /** Transport calls made one after the other; the first failure ends the run and
      is its outcome. */
  function RunSteps(device: Device, w: World, steps: seq<Step>): (r: Run<()>)
    ensures w.log <= r.world.log
    decreases |steps|
  {
    if steps == [] then Run(Success(()), w)
    else
      var first := RunStep(device, w, steps[0]);
      if first.result.Failure? then first
      else RunSteps(device, first.world, steps[1..])
  }

  /** The calls for one update: a restart when the operation is forceful, then the
      init packet, then the firmware image. */
  function UpdateSteps(u: FirmwareUpdate, forceful: bool): (r: seq<Step>)
    ensures |r| == if forceful then 3 else 2
    ensures r[|r| - 2] == SendInit(u.initPacket) && r[|r| - 1] == SendImage(u.firmwareImage)
    ensures forceful <==> r[0] == Restart
  {
    (if forceful then [Restart] else []) + [SendInit(u.initPacket), SendImage(u.firmwareImage)]
  }

  /** The calls of a whole operation: the updates' calls in index order. */
  function Plan(updates: seq<FirmwareUpdate>, forceful: bool): (r: seq<Step>)
    ensures |r| == |updates| * |UpdateSteps(FirmwareUpdate([], []), forceful)|
    decreases |updates|
  {
    if updates == [] then [] else UpdateSteps(updates[0], forceful) + Plan(updates[1..], forceful)
  }

  /** The work for one update: the restart when forceful, the init packet, then the
      firmware image, each ending the update when it fails. */
  function PerformUpdate(device: Device, w: World, u: FirmwareUpdate, forceful: bool): (r: Run<()>)
    ensures w.log <= r.world.log
  {
    var restart := if forceful then Unit(Call(device, w, Create(OBJECT_COMMAND, 0x10))) else Run(Success(()), w);
    if restart.result.Failure? then restart
    else
      var init := SendPayloadSpec(device, restart.world, OBJECT_COMMAND, u.initPacket, false);
      if init.result.Failure? then init
      else SendPayloadSpec(device, init.world, OBJECT_DATA, u.firmwareImage, false)
  }

  /** `PerformNextUpdate(updateNumber, forceful)`: past the last update there is
      nothing to do; otherwise update `updateNumber` is performed and, when it
      succeeds, the next one. */
  function PerformSpec(device: Device, w: World, updates: seq<FirmwareUpdate>, updateNumber: nat,
                       forceful: bool): (r: Run<()>)
    ensures w.log <= r.world.log
    decreases |updates| - updateNumber
  {
    if |updates| <= updateNumber then Run(Success(()), w)
    else
      var update := PerformUpdate(device, w, updates[updateNumber], forceful);
      if update.result.Failure? then update
      else PerformSpec(device, update.world, updates, updateNumber + 1, forceful)
  }

  // ---------------------------------------------------------------------------
  // Properties of the plan.

  /** Running two lists of calls one after the other is running their concatenation;
      when the first list fails, nothing of the second is run. */
  lemma {:induction false} RunStepsAppend(device: Device, w: World, a: seq<Step>, b: seq<Step>)
    ensures var first := RunSteps(device, w, a);
            RunSteps(device, w, a + b) == if first.result.Failure? then first else RunSteps(device, first.world, b)
    decreases |a|
  {
    if a == [] {
      assert a + b == b;
    } else {
      assert (a + b)[0] == a[0];
      assert (a + b)[1..] == a[1..] + b;
      var head := RunStep(device, w, a[0]);
      if head.result.Success? {
        RunStepsAppend(device, head.world, a[1..], b);
      }
    }
  }

  /** The plan of a concatenation of update lists is the concatenation of plans. */
  lemma {:induction false} PlanAppend(a: seq<FirmwareUpdate>, b: seq<FirmwareUpdate>, forceful: bool)
    ensures Plan(a + b, forceful) == Plan(a, forceful) + Plan(b, forceful)
    decreases |a|
  {
    if a == [] {
      assert a + b == b;
    } else {
      assert (a + b)[0] == a[0];
      assert (a + b)[1..] == a[1..] + b;
      PlanAppend(a[1..], b, forceful);
    }
  }

  /** Update `i`'s calls come after those of every earlier update and before those
      of every later one. */
  lemma PlanLayout(updates: seq<FirmwareUpdate>, i: nat, forceful: bool)
    requires i < |updates|
    ensures Plan(updates, forceful)
              == Plan(updates[..i], forceful) + UpdateSteps(updates[i], forceful) + Plan(updates[i + 1..], forceful)
  {
    assert updates == updates[..i] + ([updates[i]] + updates[i + 1..]);
    PlanAppend(updates[..i], [updates[i]] + updates[i + 1..], forceful);
    assert ([updates[i]] + updates[i + 1..])[1..] == updates[i + 1..];
  }

  /** The recursion over the update index makes exactly the planned calls, in order,
      stopping at the first failure. */
  lemma {:induction false} PerformIsPlan(device: Device, w: World, updates: seq<FirmwareUpdate>,
                                         updateNumber: nat, forceful: bool)
    requires updateNumber <= |updates|
    ensures PerformSpec(device, w, updates, updateNumber, forceful)
              == RunSteps(device, w, Plan(updates[updateNumber..], forceful))
    decreases |updates| - updateNumber
  {
    var rest := updates[updateNumber..];
    if updateNumber < |updates| {
      var u := updates[updateNumber];
      assert rest[0] == u && rest[1..] == updates[updateNumber + 1..];
      var steps := UpdateSteps(u, forceful);
      RunStepsAppend(device, w, steps, Plan(rest[1..], forceful));
      UpdateStepsRun(device, w, u, forceful);
      var update := RunSteps(device, w, steps);
      if update.result.Success? {
        PerformIsPlan(device, update.world, updates, updateNumber + 1, forceful);
      }
    }
  }

  /** One update's calls, run as a list, do what `PerformUpdate` does. */
  lemma UpdateStepsRun(device: Device, w: World, u: FirmwareUpdate, forceful: bool)
    ensures RunSteps(device, w, UpdateSteps(u, forceful)) == PerformUpdate(device, w, u, forceful)
  {
    var pair := [SendInit(u.initPacket), SendImage(u.firmwareImage)];
    if forceful {
      assert UpdateSteps(u, forceful) == [Restart] + pair;
      RunStepsCons(device, w, Restart, pair);
      var restart := RunStep(device, w, Restart);
      if restart.result.Success? {
        PairRun(device, restart.world, u);
        SuccessfulUnit(restart);
        RestartFirst(device, w, u);
      }
    } else {
      assert UpdateSteps(u, forceful) == pair;
      PairRun(device, w, u);
    }
  }

  /** Without a restart, the init packet and then the image. */
  lemma PairRun(device: Device, w: World, u: FirmwareUpdate)
    ensures RunSteps(device, w, [SendInit(u.initPacket), SendImage(u.firmwareImage)]) == PerformUpdate(device, w, u, false)
  {
    var init, image := SendInit(u.initPacket), SendImage(u.firmwareImage);
    RunStepsCons(device, w, init, [image]);
    assert [init] + [image] == [init, image];
    var first := RunStep(device, w, init);
    if first.result.Success? {
      RunStepsSingle(device, first.world, image);
    }
  }

  /** A forceful update awaits the restart first: a failed restart is the update's
      failure, with nothing more sent; after a successful one the update goes on as
      a plain one. */
  lemma RestartFirst(device: Device, w: World, u: FirmwareUpdate)
    ensures var restart := RunStep(device, w, Restart);
            PerformUpdate(device, w, u, true)
              == if restart.result.Failure? then restart else PerformUpdate(device, restart.world, u, false)
  {
  }

  lemma RunStepsCons(device: Device, w: World, s: Step, rest: seq<Step>)
    ensures var first := RunStep(device, w, s);
            RunSteps(device, w, [s] + rest) == if first.result.Failure? then first else RunSteps(device, first.world, rest)
  {
    assert ([s] + rest)[0] == s && ([s] + rest)[1..] == rest;
  }

  lemma RunStepsSingle(device: Device, w: World, s: Step)
    ensures RunSteps(device, w, [s]) == RunStep(device, w, s)
  {
    RunStepsCons(device, w, s, []);
    assert [s] + [] == [s];
    var first := RunStep(device, w, s);
    if first.result.Success? {
      SuccessfulUnit(first);
    }
  }

  /** A successful run without a value is determined by its world. */
  lemma SuccessfulUnit(r: Run<()>)
    requires r.result.Success?
    ensures r == Run(Success(()), r.world)
  {
    match r.result.value {
      case () =>
    }
  }

  /** When update `k` fails after the earlier ones succeeded, its failure, and the
      world it leaves, is the outcome of the whole operation: no later update is
      attempted. */
  lemma FailedUpdateEndsRun(device: Device, w: World, updates: seq<FirmwareUpdate>, k: nat, forceful: bool)
    requires k < |updates|
    requires RunSteps(device, w, Plan(updates[..k], forceful)).result.Success?
    requires RunSteps(device, RunSteps(device, w, Plan(updates[..k], forceful)).world,
                      UpdateSteps(updates[k], forceful)).result.Failure?
    ensures PerformSpec(device, w, updates, 0, forceful)
              == RunSteps(device, RunSteps(device, w, Plan(updates[..k], forceful)).world,
                          UpdateSteps(updates[k], forceful))
  {
    var before := Plan(updates[..k], forceful);
    var steps := UpdateSteps(updates[k], forceful);
    var after := Plan(updates[k + 1..], forceful);
    PerformIsPlan(device, w, updates, 0, forceful);
    assert updates[0..] == updates;
    PlanLayout(updates, k, forceful);
    FailureInTheMiddle(device, w, before, steps, after);
  }

  /** A list of calls whose middle part fails after its first part succeeded ends
      with that failure. */
  lemma FailureInTheMiddle(device: Device, w: World, a: seq<Step>, b: seq<Step>, c: seq<Step>)
    requires RunSteps(device, w, a).result.Success?
    requires RunSteps(device, RunSteps(device, w, a).world, b).result.Failure?
    ensures RunSteps(device, w, a + b + c) == RunSteps(device, RunSteps(device, w, a).world, b)
  {
    assert a + b + c == a + (b + c);
    RunStepsAppend(device, w, a, b + c);
    RunStepsAppend(device, RunSteps(device, w, a).world, b, c);
  }

  /** When every update succeeds, the operation succeeds, and its world is the one
      the last update leaves. */
  lemma CompletedUpdates(device: Device, w: World, updates: seq<FirmwareUpdate>, forceful: bool)
    requires updates != []
    requires RunSteps(device, w, Plan(updates[..|updates| - 1], forceful)).result.Success?
    ensures var last := RunSteps(device, RunSteps(device, w, Plan(updates[..|updates| - 1], forceful)).world,
                                 UpdateSteps(updates[|updates| - 1], forceful));
            PerformSpec(device, w, updates, 0, forceful) == last
  {
    var k := |updates| - 1;
    var before := Plan(updates[..k], forceful);
    var steps := UpdateSteps(updates[k], forceful);
    PerformIsPlan(device, w, updates, 0, forceful);
    assert updates[0..] == updates;
    PlanLayout(updates, k, forceful);
    assert updates[k + 1..] == [];
    assert Plan(updates, forceful) == before + steps + [];
    assert before + steps + [] == before + steps;
    RunStepsAppend(device, w, before, steps);
  }

  /** An operation with no updates makes no transport call and succeeds. */
  lemma NoUpdatesNoCalls(device: Device, w: World, forceful: bool)
    ensures PerformSpec(device, w, [], 0, forceful) == Run(Success(()), w)
    ensures Plan([], forceful) == []
  {
  }

  // ---------------------------------------------------------------------------
  // The operation object.

  class DfuOperation {
    const updates: seq<FirmwareUpdate>
    const transport: AbstractTransport
    /** `_updateTask`: the outcome of the run that the first `Start` began, or
        nothing before that. */
    var updateTask: Option<Result<(), Error>>

    /** The constructor; with `autoStart` it starts the operation, not forceful. */
    constructor(updates: seq<FirmwareUpdate>, transport: AbstractTransport, autoStart: bool)
      modifies transport
      ensures this.updates == updates && this.transport == transport
      ensures !autoStart ==> updateTask.None? && unchanged(transport)
      ensures autoStart ==> updateTask.Some?
      ensures autoStart ==>
                Run(updateTask.value, transport.Current()) == PerformSpec(transport.device, old(transport.Current()), updates, 0, false)
    {
      this.updates := updates;
      this.transport := transport;
      updateTask := None;
      new;
      if autoStart {
        var task := Start(false);
      }
    }

    /** `Start(forceful)`: the first call runs the updates from index 0 and keeps the
        outcome; every later call returns that outcome and makes no transport call. */
    method Start(forceful: bool) returns (task: Result<(), Error>)
      modifies this, transport
      ensures old(updateTask).Some? ==> task == old(updateTask).value && updateTask == old(updateTask)
      ensures old(updateTask).Some? ==> unchanged(transport)
      ensures old(updateTask).None? ==> updateTask == Some(task)
      ensures old(updateTask).None? ==>
                Run(task, transport.Current()) == PerformSpec(transport.device, old(transport.Current()), updates, 0, forceful)
    {
      if updateTask.Some? {
        return updateTask.value;
      }
      task := PerformNextUpdate(0, forceful);
      updateTask := Some(task);
    }

    /** `PerformNextUpdate`, whose recursion over the update index is this loop. */
    method PerformNextUpdate(updateNumber: nat, forceful: bool) returns (r: Result<(), Error>)
      modifies transport
      ensures Run(r, transport.Current()) == PerformSpec(transport.device, old(transport.Current()), updates, updateNumber, forceful)
    {
      var i := updateNumber;
      while i < |updates|
        invariant PerformSpec(transport.device, old(transport.Current()), updates, updateNumber, forceful)
                    == PerformSpec(transport.device, transport.Current(), updates, i, forceful)
        decreases |updates| - i
      {
        ghost var done := PerformUpdate(transport.device, transport.Current(), updates[i], forceful);
        if forceful {
          var restarted := transport.Restart();
          if restarted.Failure? {
            return Failure(restarted.error);
          }
        }
        var update := updates[i];
        ghost var init := SendPayloadSpec(transport.device, transport.Current(), OBJECT_COMMAND, update.initPacket, false);
        r := transport.SendInitPacket(update.initPacket);
        if r.Failure? {
          return;
        }
        assert done == SendPayloadSpec(transport.device, init.world, OBJECT_DATA, update.firmwareImage, false);
        r := transport.SendFirmwareImage(update.firmwareImage);
        if r.Failure? {
          return;
        }
        i := i + 1;
      }
      r := Success(());
    }
  }
}
