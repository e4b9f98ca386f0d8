/** The rollout object and its status: controller/api/v1alpha1/firmwarerollout_types.go. */
module RolloutApi {
  import opened Prelude
  import opened Planner

  datatype HealthGate = HealthGate(mustReportWithin: Option<int>)

  datatype RollbackTriggers = RollbackTriggers(bootLoopThreshold: int, healthGateFailures: int)

  datatype RolloutSpec = RolloutSpec(
    requirements: Option<Requirements>, sizeBytes: int, configHash: string, package: string, paused: bool,
    canary: int, steps: seq<int>, maxConcurrent: int,
    healthGate: Option<HealthGate>, rollbackOn: Option<RollbackTriggers>)

  datatype Phase =
    | Initial | Canary | Progressing | Paused | Waiting | Blocked | Complete | RolledBack

  datatype StepLabel = NoStep | At(index: int, of: nat) | Done

  datatype Status = Status(
    phase: Phase, step: StepLabel, target: nat, eligible: nat, updated: nat, healthy: nat,
    refused: seq<DeviceOutcome>, pending: seq<DeviceOutcome>, failed: seq<DeviceOutcome>,
    startedAt: Option<int>, blockedBy: string, blockReason: string, nextWindow: Option<int>,
    dispatchedThisWindow: int, windowOpenedAt: Option<int>)

  class FirmwareRollout {
    const spec: RolloutSpec
    var status: Status

    constructor (spec: RolloutSpec, status: Status)
      ensures this.spec == spec && this.status == status
    {
      this.spec := spec;
      this.status := status;
    }
  }
}
