# RCF firmware: verified model of the bridge, the Aurora VM and the timechain

This project models three linked parts of the RCF firmware (C, STM32F4) in Dafny and proves
properties of them over all inputs and all runs.

* **Bridge.** The bit-by-bit CRC-32, frame layout, receiver and sender on the serial line, and the
  command machine (HELLO, RESPONSE, VERIFY_PQC, EXEC_ACODE, PING, GET_STATUS, PILL_OFF) with its
  session state and the one-shot ephemeral key in the bunker.
* **Aurora VM and vault.** The bytecode loop over raw bytes, decoded instructions and their meaning,
  the signature step, the watchdogs, the voice rate limit, and the wear-levelled store.
* **Timechain.** Entries as 128-byte images in backup memory, provisioning, updates, the boot check,
  and power loss after any single byte of the two slot copies of an update or of provisioning.

## How it is organised

Each C module with static state is a class (`Uart`, `Hsm`, `Vm`, `Vault`, `Bunker`, `Device`, `Log`)
whose buffers are arrays and whose loops are loops. Every method equates the new state with a
specification function of the old one; theorems about whole runs are lemmas about those functions.
The `Outcomes` files say what those functions come to without using them or their constants: which
answer is given exactly when, which bytes are written or sent, and what is logged, as plain numbers.

| file | holds |
|---|---|
| `Bytes.dfy`, `Audit.dfy` | byte fields, little-endian loads and stores, the audit trail |
| `Register.dfy`, `Crc32.dfy`, `CrcBurst.dfy`, `CrcOrder.dfy` | the CRC register as a vector space over GF(2), the CRC loop, error detection, and the register's period |
| `Framing.dfy`, `FrameErrors.dfy` | header layout, checksum, receiver on streams; which bit errors it catches |
| `Bunker.dfy`, `Vault.dfy`, `WearLevelling.dfy` | key slot, public key buffer, sector choice |
| `ACode.dfy`, `VmSemantics.dfy`, `Vm.dfy`, `VmProperties.dfy`, `VmSessions.dfy`, `VmOutcomes.dfy` | instructions, their meaning, the loop, theorems on one module and on sessions, and every answer on raw bytes |
| `BridgeSemantics.dfy`, `Bridge.dfy`, `BridgeProperties.dfy`, `BridgeRuns.dfy`, `BridgeOutcomes.dfy` | command machine, handlers, theorems on command runs, and every answer and its bytes on the wire |
| `Timechain.dfy`, `TimechainDevice.dfy`, `TimechainCrash.dfy`, `TimechainRuns.dfy`, `TimechainHistory.dfy`, `TimechainRecovery.dfy`, `TimechainOutcomes.dfy` | entries and operations, the module in place, power cuts, whole lives, the hash chain, what can be recovered, and every answer with the bytes it writes |

Conditional code is taken in its CI form: calls return, and the emergency halt only logs. The strict
treatment of unknown opcodes is a parameter. Clock readings, random words, signature verdicts, the
lock bit, the watchdogs' observations and incoming bytes are arbitrary inputs. SHA-256 is an
arbitrary function to digests: collision freedom is never assumed globally, only for the two inputs
that a lemma names, or the collision is part of the conclusion. The entries that a run seals are
assumed not to hash to all zeros, because the code reads an all-zero hash as "never written".

## Where the code and its documents differ

* `core/inc/rcf_bridge_protocol.h:104` documents the frame checksum as one CRC over header bytes and
  payload. The code combines two separate CRCs by exclusive or (`core/src/rcf_bridge_hsm.c:73-77`).
  The model follows the code. `CrcOrder.ChecksumIsDocumentedExactly` gives the exact frames on which
  the two agree: those without payload, and those whose header CRC is zero. With a payload, at most
  one of all 256 command bytes makes them agree (`FrameErrors.AtMostOneCommandAgrees`).
* The difference costs error detection. With the length field intact, the code misses exactly those
  two-bit errors that hit checked header and payload at the same distance from their ends
  (`FrameErrors.TwoBitErrors`), so every frame with a payload has an undetected two-bit twin
  (`FrameErrors.UndetectedTwin`); the documented checksum would catch them all
  (`FrameErrors.DocumentedCatchesTwoFlips`).
* An error in the length field moves the end of the payload, so what follows decides
  (`Framing.ReceiveByRegisters`), and even a single flipped bit there can pass
  (`FrameErrors.SingleFlipCanPass`); every other single flipped bit is caught.
* A header whose magic or version is refused leaves its payload on the line, to be read as the next
  frames (`BridgeProperties.UnreadPayloadIsHandled`).
* `DOCUMENTATION/AURORA-VM-OPCODES.md:12-34` lists other byte values for several opcodes than
  `core/inc/rcf_opcode.h:12-44`; the model uses the header's.
* An update is not safe against every power cut. Cut between the end of the old hash's copy and the
  end of the new entry's fields, it leaves a device that no later operation brings back into service
  (`TimechainRecovery.CutIsFinal`); `TimechainRecovery.CutRecovers` says exactly which cuts do.
  Provisioning has the same gap (`TimechainRecovery.BirthCutRecovers`).
* After a cut that the boot survives, `timechain_init` and `timechain_verify_chain` can disagree on
  the same slots until the next update (`TimechainRecovery.ChecksDisagree`).
* `rcf_vm_verify` checks neither the size limit nor the call depth, so it accepts envelopes that
  `rcf_vm_execute` refuses (`VmProperties.VerifyPredictsExecute`).

## Model

| member | source | states |
|---|---|---|
| Crc32.ComputeCrc32 | core/src/rcf_bridge_hsm.c:37-47 | the nested loops compute the specified CRC of any byte string |
| Crc32.CrcIsRfc1952 | core/src/rcf_bridge_hsm.c:37-47 | on every byte string the CRC equals the table-driven one of RFC 1952, section 8, written out with its own constants |
| Crc32.CheckValue | core/src/rcf_bridge_hsm.c:37-47 | the CRC of the nine digits "123456789" is 0xCBF43926 |
| Crc32.CrcAffine | core/src/rcf_bridge_hsm.c:37-47 | on equal lengths, the exclusive or of three CRCs is the CRC of the exclusive or of the three messages |
| Crc32.CrcConcat | core/src/rcf_bridge_hsm.c:37-47 | the CRC of a concatenation is the second CRC plus the first advanced by eight zero bits per byte of the second |
| CrcBurst.FoldIsFeed | core/src/rcf_bridge_hsm.c:40-45 | the byte loop and a bit-serial register fed least significant bit first compute the same value |
| CrcBurst.BurstChangesCrc | core/src/rcf_bridge_hsm.c:37-47 | two equal-length messages that differ only inside 32 consecutive bits have different CRCs |
| CrcOrder.FullPeriod | core/src/rcf_bridge_hsm.c:42-44 | every register value returns after 2^32 - 1 steps |
| CrcOrder.NoShortPeriod | core/src/rcf_bridge_hsm.c:42-44 | a nonzero register value can only return after a multiple of 65537 steps |
| Framing.ChecksumVersusDocumented | core/src/rcf_bridge_hsm.c:73-77 | the exact difference between the code's checksum and the documented one, for every header and payload |
| CrcOrder.ChecksumIsDocumentedExactly | core/inc/rcf_bridge_protocol.h:104 | the code's checksum is the documented CRC if and only if the payload is empty or the header's own CRC is zero |
| FrameErrors.AtMostOneCommandAgrees | core/src/rcf_bridge_hsm.c:93-97 | whatever the other fields and the payload of 1 to 4096 bytes, at most one command byte gives a frame on which code and documentation agree |
| Framing.DecodeOfEncode | core/inc/rcf_bridge_protocol.h:107-115 | decoding an encoded header gives the header |
| Framing.EncodeOfDecode | core/inc/rcf_bridge_protocol.h:107-115 | encoding a decoded header gives the same sixteen bytes |
| Framing.ReceiveExactly | core/src/rcf_bridge_hsm.c:61-80 | the receiver accepts frame f leaving rest if and only if f is well formed and the stream is f's encoding followed by rest |
| Framing.StreamRoundTrip | core/src/rcf_bridge_hsm.c:61-103 | any list of frames sent back to back is received frame for frame with every byte consumed |
| Framing.PayloadBurstRejected | core/src/rcf_bridge_hsm.c:73-77 | an accepted frame with a burst of at most 32 bits in its payload is rejected, and the following bytes stay in step |
| Framing.ReceiveByRegisters | core/src/rcf_bridge_hsm.c:61-80 | any sixteen bytes and whatever follows are accepted if and only if magic and version stand, the length is admissible and available, and the register over all sixteen bytes is the payload's advanced by 32 zero bits; and what is left unread in each case |
| Framing.HeaderBurstRejected | core/src/rcf_bridge_hsm.c:73-77 | an accepted frame with a burst of at most 32 bits anywhere in its sixteen header bytes, checksum field included and length field intact, is rejected; its payload is used up unless magic or version was hit |
| Framing.ChecksumFieldChangeRejected | core/src/rcf_bridge_hsm.c:77 | an accepted frame with any other checksum field is rejected and the next frame is in step |
| FrameErrors.TwoFlipsChangeCrc | core/src/rcf_bridge_hsm.c:37-47 | two flipped bits less than 65537 bits apart change the CRC, so any two in a payload do |
| FrameErrors.TwoBitErrors | core/src/rcf_bridge_hsm.c:66-77 | with the length field intact, two flipped bits in an accepted frame go undetected if and only if one is in the header behind magic and version, one in the payload, at equal distances from the ends of checked bytes and payload |
| FrameErrors.UndetectedTwin | core/src/rcf_bridge_hsm.c:73-77 | every frame with a payload is also accepted with the lowest bits of the session id's high byte and of the last payload byte flipped |
| FrameErrors.CompletedByOneWord | core/src/rcf_bridge_hsm.c:66-77 | a header whose length field asks for four bytes more than those at hand is completed to an accepted frame by exactly one value of the next four |
| FrameErrors.SingleFlipCanPass | core/src/rcf_bridge_hsm.c:69-77 | a frame with one bit of its length field flipped is accepted, as a longer one, for exactly one value of the four bytes behind it |
| FrameErrors.OtherSingleFlipsRejected | core/src/rcf_bridge_hsm.c:66-77 | any single flipped bit outside the length field is caught |
| FrameErrors.DocumentedCatchesTwoFlips | core/inc/rcf_bridge_protocol.h:104 | the documented checksum changes under every two flips in checked bytes and payload |
| Bridge.Uart.Receive | core/src/hal_stubs.c:106-112 | the byte loop takes exactly the requested bytes off the line into the start of the buffer |
| Bridge.Hsm.RecvFrame | core/src/rcf_bridge_hsm.c:61-80 | result, header, payload buffer and consumed bytes are those of the specified receiver |
| Bridge.Hsm.SendResponse | core/src/rcf_bridge_hsm.c:82-103 | the bytes sent are the encoding of the specified response under the current session id |
| Bridge.Hsm.Handle | core/src/rcf_bridge_hsm.c:242-269 | each command's whole new state and its replies are those of the command machine |
| Bridge.Hsm.HandleHello | core/src/rcf_bridge_hsm.c:107-128 | stores the private key and answers with public key and nonce |
| Bridge.Hsm.HandleResponse | core/src/rcf_bridge_hsm.c:130-170 | short responses change nothing; others take the stored key, open a session and announce its id |
| Bridge.Hsm.HandleVerifyPqc | core/src/rcf_bridge_hsm.c:172-203 | session and length checks, verdict or refusal, and the bunker exit that erases the key slot |
| Bridge.Hsm.HandleExecAcode | core/src/rcf_bridge_hsm.c:205-215 | session check, engine call and result byte |
| Bridge.Hsm.Process | core/src/rcf_bridge_hsm.c:235-270 | one turn of the loop on the incoming bytes: state, bytes consumed and bytes sent |
| BridgeProperties.BootState | core/src/rcf_bridge_hsm.c:32-33 | the device after power-on meets the starting conditions of all run theorems: at rest, no key, no session, session id 0 |
| BridgeOutcomes.AnswerOnWire | core/src/rcf_bridge_hsm.c:82-103 | the sixteen bytes in front of every answer one by one, the CRC field as the combined RFC 1952 CRCs lowest byte first, and the answer behind them |
| BridgeOutcomes.ReceiveOnWire | core/src/rcf_bridge_hsm.c:61-80 | which bytes are taken for a frame, if and only if, with which command and payload, and what is left |
| BridgeOutcomes.HelloOutcome | core/src/rcf_bridge_hsm.c:107-128 | HELLO answers CHALLENGE with the public key and the four nonce words and changes nothing but the stored private key |
| BridgeOutcomes.ResponseOutcome | core/src/rcf_bridge_hsm.c:130-170 | fewer than 96 bytes are refused; else the buffer is erased, the session opens under the low half of the random word and says so high byte first |
| BridgeOutcomes.VerifyOutcome | core/src/rcf_bridge_hsm.c:172-203 | each of the four results of VERIFY_PQC if and only if its cause, the result logged equal to the one sent, and the state left behind |
| BridgeOutcomes.GoodVerdictsOverRun | core/src/rcf_bridge_hsm.c:189-196 | every OK verification in any run answers a full request in session with the key ready and a true verdict |
| BridgeOutcomes.ExecOutcome | core/src/rcf_bridge_hsm.c:205-215 | refused without a session, else the engine's state and, for each of its results, the low byte of its C code |
| BridgeOutcomes.OtherOutcomes | core/src/rcf_bridge_hsm.c:217-269 | PING, GET_STATUS byte for byte, PILL_OFF with its log, and the answer to every unknown command byte |
| BridgeOutcomes.KeysStayInside | core/src/rcf_bridge_hsm.c:107-143 | runs that differ only in the private keys drawn give the same answers, log and vault |
| BridgeProperties.OneReply | core/src/rcf_bridge_hsm.c:242-269 | every command but PILL_OFF gets exactly one reply, stamped with the session id it leaves behind; a session opens only by an accepted response and never closes |
| BridgeProperties.SessionOpensOnlyByResponse | core/src/rcf_bridge_hsm.c:130-159 | a run is in session at its end if and only if it was at its start or an accepted response came in between |
| BridgeProperties.GatedUntilResponse | core/src/rcf_bridge_hsm.c:172-215 | until then VM, store, session id and used keys are untouched and only idle events are logged, so no module ran and no signature was checked |
| BridgeProperties.GatedReplies | core/src/rcf_bridge_hsm.c:172-215 | until then every reply carries the initial session id, and VERIFY_PQC and EXEC_ACODE do nothing but answer NO_SESSION |
| BridgeProperties.StepVault | core/src/rcf_bridge_hsm.c:261-264 | every command's effect on the vault, through the instructions an EXEC_ACODE performs |
| BridgeProperties.WipeIsPermanent | core/src/rcf_bridge_hsm.c:191-199 | after PILL_OFF or a module that reaches REFLEX_ACTION, the key stays zero and not ready and no verification ever answers OK |
| BridgeProperties.StepSlot | core/src/rcf_bridge_hsm.c:107-203 | what each command leaves in the key slot, and which key an accepted response takes |
| BridgeProperties.OnlyResponseConsumesBeforeSession | core/src/rcf_bridge_hsm.c:130-178 | without a session, a command consumes the key if and only if it is an accepted response |
| BridgeProperties.KeyOfLatestHello | core/src/rcf_bridge_hsm.c:119-143 | in any run, an accepted response uses the key of the latest HELLO if nothing consumed it in between |
| BridgeProperties.NoKeyOtherwise | core/src/rcf_bunker.c:20-34 | in every other run it uses the all-zero key |
| BridgeProperties.RestsAlways | core/src/rcf_bunker.c:16-23 | the bunker is inactive before and after every command of every run |
| BridgeProperties.TurnsAreCommands | core/src/rcf_bridge_hsm.c:235-270 | frames sent back to back are handled one a turn as the command machine prescribes, to the last byte |
| BridgeProperties.ExchangeRoundTrip | core/src/rcf_bridge_hsm.c:61-103 | what the device answers to a stream of commands is received by the host frame for frame |
| BridgeProperties.CorruptCommandDropped | core/src/rcf_bridge_hsm.c:240 | a command with a burst in its payload changes nothing and the next frame is in step |
| BridgeProperties.CorruptHeaderDropped | core/src/rcf_bridge_hsm.c:240 | a header hit by a burst with the length field intact changes nothing; its payload is skipped unless magic or version was hit |
| BridgeProperties.UnreadPayloadIsHandled | core/src/rcf_bridge_hsm.c:64-68 | when magic or version was hit, frames held by the payload are handled as commands, one a turn |
| BunkerStore.Bunker.RetrieveEphemeral | core/src/rcf_bunker.c:30-34 | hands out the stored bytes and erases the whole buffer |
| BunkerStore.Bunker.KeygenDilithium2 | core/src/rcf_bunker.c:36-40 | always leaves the bunker inactive with an erased buffer |
| ACode.EncodeOfDecode | core/src/rcf_vm.c:136-171 | instructions and truncated tail of any module encode back to its bytes |
| ACode.DecodeOfEncode | core/src/rcf_vm.c:136-171 | every instruction list with a truncated tail is what its bytes decode to |
| VmEngine.Vm.Dispatch | core/src/rcf_vm.c:136-197 | one pass of the switch on raw bytes is one decoded instruction, or the truncated-operand exit |
| VmEngine.Vm.RunCode | core/src/rcf_vm.c:115-198 | for every byte sequence the loop's log, vault, bunker, ticks and result are those of the fold over the decoded module, watchdogs included |
| VmEngine.Vm.ExecuteModule | core/src/rcf_vm.c:78-204 | admission checks, signature step, loop and exit as specified |
| VmOutcomes.WatchdogsOnBytes | core/src/rcf_vm.c:119-134 | the end of the code and the three watchdogs in their order, each with its reason in the log |
| VmOutcomes.PlainOpcodes | core/src/rcf_vm.c:136-197 | the opcodes 01, 20, 30, 11 and 99, their truncated forms and every unknown byte, on raw bytes with what they log |
| VmOutcomes.KeyedOpcodes | core/src/rcf_vm.c:142-174 | the opcodes 05, 10 and 65 on raw bytes, with their effect on bunker and vault |
| VmOutcomes.VoiceOpcode | core/src/rcf_vm.c:176-187 | the opcode A0 on raw bytes: refused exactly when the last voice, at a time not reading zero, is fewer than 10000 ticks ago |
| VmOutcomes.VoiceDecided | core/src/rcf_vm.c:176-187 | after any uses of the engine, every voice instruction reached in any module is accepted if and only if it does not come too soon |
| VmOutcomes.ExecuteOutcomes | core/src/rcf_vm.c:78-113 | each refusal of an execution if and only if its cause, with the whole state it leaves |
| VmOutcomes.ExecuteRuns | core/src/rcf_vm.c:94-204 | a well-signed module runs from byte 2420 on, after two log entries, and gives the depth back |
| VmOutcomes.VerifyAndResetOutcomes | core/src/rcf_vm.c:208-218 | each answer of the check alone if and only if its cause, and the whole state after a reset |
| VmProperties.VerifyPredictsExecute | core/src/rcf_vm.c:212-218 | checking a module touches only the log, and executing it runs code if and only if the check passes and size and depth limits hold; signature and size refusals agree |
| VmSessions.ResetUnblocks | core/src/rcf_vm.c:208-211 | a used-up call depth refuses every admissible module; after a reset none is refused for depth again in any later session |
| VmProperties.AdmittedRunIsFold | core/src/rcf_vm.c:119-134 | with guard intact and no probe, an admitted module has at most 63116 code bytes and runs as the fold without any cap |
| VmProperties.ExactOutcome | core/src/rcf_vm.c:139-203 | each of the three results occurs if and only if its cause is reached |
| VmProperties.AdmittedOutcome | core/src/rcf_vm.c:78-204 | the same for a whole call of the engine on an admitted, well-signed envelope |
| VmProperties.RunEffect | core/src/rcf_vm.c:119-198 | vault, bunker and call depth after a run are determined by the instructions it performed |
| VmProperties.ExecuteEffect | core/src/rcf_vm.c:94-109 | on every path through a call, signature failure included, the call depth is given back and only performed instructions count |
| VmSessions.SessionStores | core/src/rcf_vm.c:149-155 | over any sequence of executions, checks and resets the store is stepped exactly once per performed VFS_STORE, the generation advances by their number, and the call depth is given back or cleared |
| VmSessions.SessionPaced | core/src/rcf_vm.c:176-187 | across modules, refusals, checks and resets, consecutive accepted voices are in order and 10000 ticks apart unless the earlier one read tick zero |
| VmSessions.VoiceRate | core/src/rcf_vm.c:176-187 | a span of t ticks avoiding tick zero holds at most t / 10000 + 1 accepted voices over any session |
| VmSessions.SessionLogsVoices | core/src/rcf_vm.c:186 | the voices counted are exactly the voice events in the audit log |
| BridgeRuns.RunStores | core/src/rcf_bridge_hsm.c:205-215 | over any command run the store is stepped once per VFS_STORE the executed modules reached, and the call depth is given back |
| BridgeRuns.CommandVoiceRate | core/src/rcf_vm.c:176-187 | the voice rate limit over any command run of the bridge |
| BridgeRuns.CommandsLogVoices | core/src/rcf_vm.c:186 | over any command run the voices counted are exactly the logged ones |
| VaultStore.Vault.VfsStore | core/src/rcf_vault.c:54-76 | the scan and the three updates are one specified store, and the object id is logged |
| VaultStore.Vault.EmergencyWipe | core/src/rcf_vault.c:131-140 | the whole key buffer is zero and not ready, nothing else changes |
| VaultStore.Vault.Init | core/src/rcf_vault.c:96-129 | loads the provisioned key exactly when the lock bit is set |
| VaultStore.Vault.GetSentinelMpk | core/src/rcf_vault.c:176-180 | hands out the key only when it is ready and the buffer is large enough |
| VmOutcomes.StoreExactly | core/src/rcf_vault.c:54-69 | a store adds one, modulo 2^32, to the count of the first least-erased sector and to the generation, and makes that sector the active one |
| WearLevelling.FirstLeast | core/src/rcf_vault.c:56-64 | the chosen sector is a least-erased one and the first of those |
| WearLevelling.GreedyMaximum | core/src/rcf_vault.c:54-69 | from any counts, the largest count after n stores is the larger of the initial maximum and the rounded-up average |
| WearLevelling.GreedyIsOptimal | core/src/rcf_vault.c:54-69 | no other sequence of as many sector choices ends with a lower maximum |
| WearLevelling.GreedyLevels | core/src/rcf_vault.c:54-69 | after as many stores as the sectors are short of the maximum, all eight counts equal it |
| WearLevelling.StoresFromFresh | core/src/rcf_vault.c:54-69 | from zero counts n stores give exact round-robin counts, active sector and generation, and no count above 2^29 |
| TimechainDevice.Device.EntryExists | core/src/rcf_timechain.c:51-57 | the scan finds a nonzero hash byte exactly when the hash is not all zero |
| TimechainDevice.Device.CopySlot | core/src/rcf_timechain.c:224-226 | an ascending byte copy that power loss can stop after any byte |
| TimechainDevice.Device.Initialize | core/src/rcf_timechain.c:102-149 | the boot check with all its error exits |
| TimechainDevice.Device.UpdateChain | core/src/rcf_timechain.c:173-232 | the update with power for any number of byte writes: every refusal, the torn slots, or the shifted slots |
| TimechainDevice.Device.CreateGenesis | core/src/rcf_timechain.c:236-266 | provisioning once, with power for any number of byte writes: refusals, the torn slots, or both slots written |
| TimechainDevice.Device.DetectRollback | core/src/rcf_timechain.c:271-284 | a reading counts as a rollback exactly when it is more than five seconds behind |
| TimechainDevice.Device.CheckChain | core/src/rcf_timechain.c:316-331 | the read-only chain check |
| TimechainOutcomes.BootOutcomes | core/src/rcf_timechain.c:102-149 | each of the five answers of the boot check if and only if its cause in slots and clock, with the alarm logged for three of them and nothing otherwise |
| TimechainOutcomes.StoppedClockAlarms | core/src/rcf_timechain.c:140-148 | every provisioned device booted with a stopped clock answers ROLLBACK, raises the alarm and is out of service |
| TimechainOutcomes.BootStartsOver | core/src/rcf_timechain.c:40-41 | a boot starts with the nominal 32000 Hz and is in service exactly when the check passes |
| TimechainOutcomes.UpdateOutcomes | core/src/rcf_timechain.c:173-232 | each answer of an update if and only if its cause, a reading being refused exactly when it is more than five seconds behind, with the log written out |
| TimechainOutcomes.UpdateWrites | core/src/rcf_timechain.c:196-226 | every byte of the entry a completed update writes, and the old one moved whole |
| TimechainOutcomes.UpdateBytes | core/src/rcf_timechain.c:224-226 | each byte of each slot after any number of the update's byte writes |
| TimechainOutcomes.RefusalsOverLife | core/src/rcf_timechain.c:183-194 | over any life, a reading is refused if and only if it plus five is below the latest of factory time and adopted readings; else, with entropy, it is adopted |
| TimechainOutcomes.GenesisOutcomes | core/src/rcf_timechain.c:236-266 | each answer of provisioning if and only if its cause |
| TimechainOutcomes.GenesisWrites | core/src/rcf_timechain.c:244-258 | every byte of the entry completed provisioning writes to both slots |
| TimechainOutcomes.GenesisBytes | core/src/rcf_timechain.c:257-258 | each byte of each slot after any number of provisioning's byte writes |
| TimechainOutcomes.CheckOutcomes | core/src/rcf_timechain.c:316-331 | each answer of the chain check if and only if its cause |
| TimechainCrash.SurvivorIsWhole | core/src/rcf_timechain.c:223-226 | wherever the copies are cut, a current slot whose hash verifies is the old or the new entry, whole, unless the two named inputs collide |
| TimechainCrash.BootsExactly | core/src/rcf_timechain.c:107-128 | the cuts after which the next boot accepts, if and only if, read off the slots before the update and the entry it writes |
| TimechainCrash.CutBetweenCopiesRefused | core/src/rcf_timechain.c:119-124 | after a cut between the two copies the boot reports a broken chain, unless the current entry links to its own hash |
| TimechainCrash.UpdateRestoresChain | core/src/rcf_timechain.c:216-231 | one complete update over a whole current entry restores the two-slot chain whatever the previous slot held |
| TimechainCrash.FailedUpdateKeepsSlots | core/src/rcf_timechain.c:183-214 | a failed update leaves all slots, and each outcome occurs if and only if its cause holds |
| TimechainRuns.LifeKeeps | core/src/rcf_timechain.c:102-266 | the history invariant holds after every sequence of provisioning, updates, refusals, reboots and power cuts in either |
| TimechainHistory.StoredTime | core/src/rcf_timechain.c:183-200 | a working device's time is the latest of factory time and adopted readings, its counter their number modulo 2^32, its genesis the first entry |
| TimechainHistory.TimeNeverGoesBack | core/src/rcf_timechain.c:183-226 | through any operations and power cuts, a working device's time does not fall, its counter counts, and genesis stays |
| TimechainHistory.UncutRun | core/src/rcf_timechain.c:109-128 | without power cuts the slots are the last two entries and the first, and chain check and boot return OK |
| TimechainHistory.HistoryIsLinked | core/src/rcf_timechain.c:216-221 | the history of every provisioned device is a sealed, linked chain |
| TimechainRecovery.LifeIsBootable | core/src/rcf_timechain.c:107-128 | after any operations and power cuts, a device in service has slots that the next boot accepts |
| TimechainRecovery.DeadForEver | core/src/rcf_timechain.c:107-249 | a provisioned device out of service whose slots do not boot keeps its slots and stays out of service under every sequence of operations |
| TimechainRecovery.CutRecovers | core/src/rcf_timechain.c:216-231 | a cut update of a device in service can be recovered from, by any operations, if and only if the slots before it and the new entry say so, and then one boot is enough |
| TimechainRecovery.CutIsFinal | core/src/rcf_timechain.c:224-226 | from zeroed memory, a cut between the two hash copies is final for every reachable device whose last two entries do not collide |
| TimechainRecovery.FirstUpdateCutIsFinal | core/src/rcf_timechain.c:224-226 | a freshly provisioned device whose first accepted update is cut between the two copies never comes back, if the two digests are not all zero |
| TimechainRecovery.BirthCutRecovers | core/src/rcf_timechain.c:239-263 | a cut provisioning can be made good, by any operations, if and only if the genesis entry's hash says so for that cut, and then one operation is enough |
| TimechainRecovery.ChecksDisagree | core/src/rcf_timechain.c:316-331 | after a survived cut the chain check passes or reports a hash mismatch exactly as the slots before the update say, up to one named collision, and the next update ends the disagreement |
| TimechainRecovery.NeighboursDiffer | core/src/rcf_timechain.c:212-226 | for an untorn chain of two or more entries the mismatch is certain once the counter has been copied |
| TimechainHistory.HeadCommits | core/src/rcf_timechain.c:92-97 | two histories with the same head hash have the same hashed fields at every position, or two entries collide, or a digest is zero |

## Left out

- Cryptographic bodies (SHA-256, HKDF, Curve25519, AES-GCM, Dilithium2) and the accelerator's register mock: hardware or stubs, kept as inputs or an arbitrary function.
- Bridge.Hsm.HandleResponse: does not model the shared secret and the derived keys, which the vault's CI form discards; the private key that enters the derivation is recorded instead.
- VmEngine.Vm.IntegrityVerify: the public key is not passed to the verifier; after a wipe the code passes a null pointer, and the verdict is an arbitrary input in either case.
- Bridge.Uart.Receive: the hardware loop waits for bytes for ever; a line that runs dry is modelled as a failed read that has used up what was left.
- VmEngine.Vm.Reset: modelled only between executions; called during one, the exit's decrement would wrap the call depth.
- Bridge.Hsm.HandleGetStatus: timechain status, voltage and temperature are arbitrary readings, not linked to the timechain's state.
- Temperatures are 16-bit patterns; their sign plays no part in the code that is modelled.
- Clock-drift detection (core/src/rcf_timechain.c:286-314): its measurement is a stub with a fixed result.
- Serial and USB drivers beyond the byte loops, printing, LEDs, the pulse sensor, system calls, start-up code and linker scripts: I/O and toolchain.
- The boot sequence in core/src/main.c and the module tables in core/src/rcf_modules.c: straight-line code and constants.
- core/src/rcf_session.c, core/src/rcf_protocol.c and core/src/rcf_license.c: a stubbed handshake, a simulated ping and short-circuit checks without state.
