/** The audit trail: what rcf_audit_log is called with, in order. */
module Audit {
  import opened Bytes

  datatype Event =
    | PillOffTriggered | VmUnknownOp | VmEmergencyReset | VmMisaligned
    | VmVerifyStart | VmVerifyOk | VmSigFail | VmBusPub | VmExtMount | VmReflex | VmHalt
    | VmOpInit | VmIdentityRegen | VmLumeVoice
    | TamperVault | TimeRollback
    | BridgeSessionStart | BridgePqcVerifyReq | BridgePqcVerifyResult | BridgeAcodeExec | BridgeUnknownCmd

  datatype Entry = Entry(event: Event, data: nat)

  /** Reasons given to trigger_pill_off, as logged. */
  const TAMPER_TIME: uint32 := 0x02
  const TAMPER_CODE: uint32 := 0x12
  const EXTERNAL: uint32 := 0xEE

  class Log {
    var entries: seq<Entry>

    constructor ()
      ensures entries == []
    {
      entries := [];
    }

    method Add(event: Event, data: nat)
      modifies this
      ensures entries == old(entries) + [Entry(event, data)]
    {
      entries := entries + [Entry(event, data)];
    }
  }
}
