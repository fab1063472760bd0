# Verified model of Nextcore-APLS

Nextcore-APLS carries untrusted bytes and receipts into four places: the SGPU session that owns GPU resources, the
adapter that reads SGPU submissions out of granted memory, the parser of guest launch plans, and the evaluators that
decide whether a boot is proved. In each, input is decoded under bounds checks first and only then touches state or
becomes a verdict. This project models the four in Dafny and proves what they keep.

* **Frames and the SGPU session** (`VfAbi`, `Frame`, `SessionModel`, `SessionSteps`, `SessionFrames`, `Session`). The
  64-byte header is a bijection with 64-byte strings, and frames round-trip in both directions up to their padding. The
  session is a class over its resource map, its counter and its device. Its ghost history is a run of a state machine;
  every method extends that run by exactly one step, and the laws of all runs (budgets, numbering, no dangling or
  leaked buffer, dead handles stay dead, the table is exactly what was created and not destroyed) are proved about the
  machine.
* **Grants** (`Grant`, `GrantTransport`). The table scan is a function of the matching entries as a multiset, an
  authorized message delivers exactly the bytes of the grant, and inline to grant to inline is a normal form.
* **Launch plans** (`Utf8`, `Plan`, `PlanLaws`, `PlanWire`). Encoder and decoder are mutually inverse, on exactly the
  plans whose lengths fit their fields, and the accepted buffers are prefix-free.
* **Runs and evidence** (`Json`, `Request`, `Invocation`, `InvocationLaws`, `InvocationWords`, `Evidence`,
  `RawVerdict`, `RawItems`, `RawOrder`, `RecoveryVerdict`, `RecoveryItems`, `Verdict`, `FailClosed`, `OnlyEvidence`,
  `Reader`, `Runner`, and the example reports in `Records` and `RecoveryWitness`). An argument vector can be read back
  into its request, marker and role searches have an order-free meaning, verified boots are causal, a report without
  any one of the listed items of evidence is not verified and nothing but these items and a few denials is read, and
  the report is judged independently of how its stream was chunked.

The general laws relate definitions of the model to each other. Beside them, the lemmas called `...InFull` and
`...Exactly` state the outcome of each operation directly: field by field, with numbers and texts written out and
without the definitions that compute it. A wrong limit, a swapped field or a dropped check contradicts one of them.

Check it with `dafny verify dfyconfig.toml`.

## Assumptions

* `usize` has 64 bits and memory reservations succeed, so the failures of `try_reserve_exact` and `usize::try_from` do not
  occur.
* The GPU device belongs to another crate. `Session.VirtualMetalDevice` states all that is assumed of it: a new buffer of
  the requested size gets a handle that is not live, freeing succeeds exactly on live handles, and executing commands
  keeps the live handles but may fail at any point. Device handles are unbounded naturals. The session is the device's
  only user; the source exposes the device as a public field.
* The resource limits (16 MiB, 64 MiB, 64 resources) are those of `SGPU_TRANSPORT.md`. The command-count limit, the command
  decoder and the 40 capability bytes come from the GPU crate and are parameters of the session.
* The host platform (`cfg!`), the JSON parser and the exit code are parameters. Clocks, grant tables and cell identities
  are inputs, as the adapter's own contract has it.
* A Rust `String` is a UTF-8 byte sequence in launch plans and a `string` in paths and JSON. Colours and JSON floats are
  raw bits. The header field `object` is called `objectHandle`.

## What the proofs found

* The native and plain TCG verdict searches all kernel markers and asks for one of the target's major elsewhere, so a
  marker of another release early in the log can stand in for the target's own. For every such request some verified
  report puts userspace before the target's kernel (`RawOrder.TargetKernelMayComeLast`). The verdict guarantees the order
  for exactly the lists of kernel markers in which no foreign one stands before all of the target's; for every other list
  a verified counterexample is constructed (`RawOrder.OrdersUserspaceExactly`). In a single verified report
  the target's kernel comes last exactly when the last userspace marker is not above the target's first kernel marker, and
  then a foreign marker leads (`RawOrder.LateBootExactly`). The recovery verdict filters by major, and is causal.
* The recovery identity compares two optional strings, so a receipt that names no output is verified for an output path
  that is no text (`Runner.UnnamedOutputMatches`). Accepted requests have text paths, so this cannot happen in a run
  (`Runner.ReceiptNamesTextOutput`).
* A nested recovery observation is optional: when the launch record shows the same, erasing it does not change the verdict
  (`OnlyEvidence.ObservationIsOptional`). What it shows, markers first, is not (`FailClosed.RecoveryFailsClosed`).
* `inline_to_grant` accepts grant handles with a zero slot or generation, which no table ever authorizes
  (`GrantTransport.GrantSession.AuthorizableExactly`).
* A failing device free after the table entry has been removed would leave the session changed by a rejected request. In
  reachable states it cannot fail (`Session.SgpuSession.DestroyResource`).
* `encode` truncates lengths to 32 bits; beyond them, and for plans that `new` would refuse, decoding does not return the
  plan (`PlanLaws.DecodeAfterEncode` is an equivalence).
* The final range check of `frame_layout` and the final check of `to_inline` can never fail
  (`Frame.FrameLayoutExact`, `GrantTransport.GrantSession.NormalizedIsValid`).

## Model

| member | source | states |
|---|---|---|
| VfAbi.Encode | src/vf_abi.rs:133-149 | writing thirteen slices into a zeroed 64-byte array yields the wire form |
| VfAbi.Decode | src/vf_abi.rs:111-130 | assigning field after field yields the header whose wire form the 64 bytes are; any other length is Erange |
| VfAbi.HeaderFieldSlices | src/vf_abi.rs:133-149 | each of the thirteen fields stands at its own byte offset |
| Bytes.LittleEndian | src/vf_abi.rs:116-128 | integers of 2, 4 and 8 bytes are read with the least significant byte first |
| VfAbi.HeaderRoundTrip | src/vf_abi.rs:111-149 | decoding an encoded header returns it |
| VfAbi.HeaderBytesRoundTrip | src/vf_abi.rs:111-149 | every 64-byte string is the wire form of the header it decodes to |
| Frame.FrameLayoutExact | src/sgpu.rs:153-171 | the layered checks accept exactly the inline headers, with the payload at 64 + offset; the last range check never fires |
| Frame.FrameLayoutInFull | src/sgpu.rs:153-171 | which header is accepted, in numbers, and the error of every other, in the order of the three layers of checks |
| Frame.ValidateExact | src/sgpu.rs:146-150 | a frame passes iff its header is inline and its payload has the declared size; Payload is reported exactly for a size mismatch |
| Frame.FrameErrorsInFull | src/sgpu.rs:133-150 | a frame or buffer is refused with its header's error first and with Payload for a wrong size |
| Frame.TryToWire | src/sgpu.rs:122-131 | a valid frame becomes a buffer of the declared size with its header in front, its payload at 64 + offset and zeros elsewhere; an invalid one is its validation error |
| Frame.FromWireExact | src/sgpu.rs:133-143 | accepted iff the first 64 bytes are an inline header whose message size is the input's length; the payload is the declared range |
| Frame.WireRoundTrip | src/sgpu.rs:122-143 | every valid frame survives the wire unchanged |
| Frame.Reencode | src/sgpu.rs:122-143 | re-encoding accepted bytes keeps length, header and payload, zeroes the padding, and is the identity iff the padding was zero |
| Frame.FramesArePrefixFree | src/sgpu.rs:133-143 | every proper prefix and every extension of an accepted frame is a Payload error |
| SessionModel.TotalBytesWithout | src/sgpu.rs:210-211 | any entry can be taken out of the sum first: the fold over the hash map does not depend on its order |
| SessionSteps.TotalBytesInFull | src/sgpu.rs:210-211 | no resources have no bytes, and any entry adds its own size |
| Session.CheckedTotal | src/sgpu.rs:210-211 | the checked fold returns the exact sum, or nothing iff it exceeds u64 |
| SessionModel.StepPreservesInv | src/sgpu.rs:202-262 | each request, accepted or rejected, keeps the budgets, the numbering, distinct device handles, and a table that mirrors the device's live buffers |
| SessionModel.StepEffect | src/sgpu.rs:202-262 | only a successful create adds an entry and moves the counter, only a destroy removes one |
| SessionModel.RunKeepsInv | src/sgpu.rs:182-323 | in every state of every run the invariant holds: 64 resources, 64 MiB, sizes in 1..16 MiB, keys below the counter |
| SessionModel.RejectedStepsChangeNothing | src/sgpu.rs:202-262 | in reachable states a rejected request leaves table, counter and live buffers as they were |
| SessionModel.DestroyUndoesCreate | src/sgpu.rs:202-229 | destroying what was just created succeeds and restores everything but the counter |
| SessionModel.DestroyRestoresBudget | SGPU_TRANSPORT.md:26-30 | a destroy gives back exactly one slot and the resource's bytes |
| SessionModel.IssuedHandlesIncrease | src/sgpu.rs:213-220 | handles issued in a run strictly increase |
| SessionModel.DestroyedHandleIsDead | src/sgpu.rs:225-262 | a destroyed handle is absent in every later state, and later uses of it are rejected |
| SessionModel.TableIsHistory | src/sgpu.rs:202-229 | at each point of a run the table holds a resource iff an earlier reply created it and none since destroyed it |
| SessionModel.RenamingIsInjective | src/sgpu.rs:238-256 | with distinct device handles, the guest's list can be recovered from the list the device is given |
| SessionModel.TranslationExists | src/sgpu.rs:238-256 | a list has a translation iff all its handles are in the table, and then only one |
| SessionModel.FirstUnresolvedExact | src/sgpu.rs:238-256 | a list does not resolve iff it has a first unresolved handle in reading order, which is unique |
| SessionSteps.InvInFull | src/sgpu.rs:175-179 | the invariant in numbers: 64 entries, 64 MiB, sizes of 1 byte to 16 MiB, keys below the counter, one live buffer per entry and no other |
| SessionSteps.CreateInFull | src/sgpu.rs:202-223 | the four limits of an admission; the handle is the counter, the size the one asked for, the buffer a new one; Payload for size 0 and ResourceLimit otherwise |
| SessionSteps.DestroyInFull | src/sgpu.rs:225-229 | the entry and its buffer disappear and nothing else changes; an unknown handle is named |
| SessionSteps.SubmitInFull | src/sgpu.rs:235-262 | command by command and field by field what the device is handed: a copy's source and destination are those of the guest's own source and destination |
| SessionSteps.SubmitAnswerInFull | src/sgpu.rs:235-262 | the command count, or Payload exactly for too many commands, a missing handle, or a device error after the hand-over |
| SessionSteps.FirstUnresolvedInFull | src/sgpu.rs:238-256 | the handle that is reported: the first missing one of the first failing command, a copy's source before its destination |
| SessionSteps.PresentInFull | src/sgpu.rs:264-269 | presenting a handle hands over that one command, or names the handle |
| Session.SgpuSession.constructor | src/sgpu.rs:182-188 | a new session is the start of a run: no resources, counter 1 |
| Session.SgpuSession.SafeNow | src/sgpu.rs:175-179 | whatever has been requested so far, the session's fields satisfy the invariant, stated in numbers |
| Session.SgpuSession.DestroyedHandleIsGone | src/sgpu.rs:225-233 | a handle the session has destroyed at any time resolves to ResourceNotFound |
| Session.SgpuSession.CreateResource | src/sgpu.rs:202-223 | succeeds iff the size is 1 byte to 16 MiB, fewer than 64 resources and at most 64 MiB result and the counter can advance; then the table gains the counter's handle with a new buffer of that size, otherwise nothing changes |
| Session.SgpuSession.DestroyResource | src/sgpu.rs:225-229 | succeeds iff the handle is in the table and fails only as ResourceNotFound; removes exactly that entry and frees its buffer |
| Session.SgpuSession.ResolvedHandleIsLive | src/sgpu.rs:231-233 | a handle resolves iff the replies so far created it and did not destroy it; it then stands for a live device buffer of the requested size that no other handle stands for |
| Session.SgpuSession.TranslateList | src/sgpu.rs:237-256 | for every index and each of the four constructors, which device command stands there field by field; or the first unresolved handle in reading order |
| Session.SgpuSession.SubmitList | src/sgpu.rs:235-262 | the device is handed one list, each command the guest's with its handles replaced by `resources[..].gpuHandle` in the same fields, or nothing; success is the command count |
| Session.SgpuSession.PresentResource | src/sgpu.rs:264-269 | the device is handed one present command for the resource's buffer, or nothing when the handle is unknown |
| Session.SgpuSession.Dispatch | src/sgpu.rs:274-323 | one frame is one step; success answers with every header field stated and the payload of each opcode: capabilities, the new handle, nothing, the command count, nothing; the answer survives the wire; failure changes neither table, counter nor live buffers |
| SessionFrames.RequestExact | src/sgpu.rs:286-322 | a frame asks for a create, destroy or present of n iff it is valid, has that opcode and its payload is the eight bytes of n |
| SessionFrames.ResponseSurvivesWire | src/sgpu.rs:277-284 | every response frame is valid and decodes to itself, so `to_wire` cannot panic on it |
| SessionFrames.RefusalInFull | src/sgpu.rs:275-321 | an invalid frame is answered by its own error and an unknown opcode by an ABI error, without effect |
| SessionFrames.QueryInFull | src/sgpu.rs:287-291 | opcode 1 answers the 40 capability bytes, and Payload to an operand |
| SessionFrames.CreateAnswerInFull | src/sgpu.rs:292-299 | opcode 2 answers the eight bytes of the handle under which the table now holds the requested size; otherwise which of two errors |
| SessionFrames.DestroyAnswerInFull | src/sgpu.rs:300-307 | opcode 3 removes what its eight bytes name and answers nothing; otherwise which of two errors |
| SessionFrames.SubmitFrameInFull | src/sgpu.rs:308-312 | opcode 5 submits the decoded list and answers the four bytes of its length |
| SessionFrames.PresentAnswerInFull | src/sgpu.rs:313-320 | opcode 7 hands over one present command for the named buffer and answers nothing |
| SessionFrames.AnswerInFull | src/sgpu.rs:274-323 | every header field and the payload of each successful answer, whichever opcode, over the state before and after |
| SessionFrames.AnsweredHandleDestroys | src/sgpu.rs:292-307 | the payload of a create answer, sent back in a destroy frame, succeeds and restores table and device memory |
| Grant.GrantHeaderExact | src/sgpu_grant.rs:73-112 | the checks accept exactly the granted headers: bare, aligned, known opcode, grant named iff there is a payload, no u64 overflow |
| Grant.GrantHeaderInFull | src/sgpu_grant.rs:73-112 | the same in numbers, with the error of the first failing check |
| Grant.ProfilesOverlapOnlyWithoutPayload | src/sgpu_grant.rs:71-80 | an inline header with a payload is always Eabi as a grant header |
| Grant.EntryVerdictExact | src/sgpu_grant.rs:151-179 | the verdict is the first broken link of: current in a half-open window, permitted, live, range inside the grant |
| Grant.SelectedInFull | src/sgpu_grant.rs:122-180 | the whole verdict in numbers when one entry matches: handle halves, half-open window, rights bits, liveness, range, each with its error |
| Grant.UndecidedInFull | src/sgpu_grant.rs:129-150 | the verdict for bad arguments, a bad header, no payload, no matching entry and two of them |
| Grant.ValidatePayloadGrant | src/sgpu_grant.rs:122-180 | the one-pass scan that stops at a second match computes the verdict on the matching entries |
| Grant.VerdictIgnoresOrder | src/sgpu_grant.rs:140-150 | permuting the table changes neither the status nor the selected entry |
| Grant.VerdictIgnoresForeignEntries | src/sgpu_grant.rs:140-150 | entries of other callers or slots can be inserted or removed anywhere without effect |
| Grant.AmbiguousExactly | src/sgpu_grant.rs:140-149 | past the argument and header checks, Eambig is returned iff two entries match |
| Grant.PolicyExact | src/sgpu_grant.rs:122-180 | an entry is selected iff it is the only match and grants the required rights and range now |
| Grant.WindowCovers | src/sgpu_grant.rs:182-204 | extraction succeeds iff the window lies in the grant and covers the range, without wrap-around, and is Erange otherwise |
| Grant.WindowExact | src/sgpu_grant.rs:182-204 | what is extracted are the grant's own bytes at the requested range, wherever the window starts |
| Grant.WindowInFull | src/sgpu_grant.rs:182-204 | the chain of checked operations is one comparison of exact sums, and the bytes are a slice at exact offsets |
| GrantTransport.InlineToGrant | src/sgpu_grant.rs:219-231 | the bytes decode to the frame's header with three fields replaced; the payload is unchanged; or the failing check's error |
| GrantTransport.GrantMessageExact | src/sgpu_grant.rs:219-231 | conversion succeeds iff the frame is valid and the rewritten header is a granted one; the payload is unchanged |
| GrantTransport.GrantMessageInFull | src/sgpu_grant.rs:224-230 | field by field what the granted header says: 64 bytes, the given handle and offset, all else the frame's own |
| GrantTransport.GrantMessageErrors | src/sgpu_grant.rs:224-229 | the frame's error comes first, then the rewritten header's |
| GrantTransport.GrantSession.NewSessionOwnsItsRoute | src/sgpu_grant.rs:244-279 | a session that `new` builds authorizes its own caller's bare submission, and no session for another caller or endpoint authorizes a message it authorizes |
| GrantTransport.GrantSession.Authorize | src/sgpu_grant.rs:259-279 | header, route, policy and window checks in their order |
| GrantTransport.GrantSession.AuthorizedExact | src/sgpu_grant.rs:259-279 | exactly which messages are authorized: a routed submission whose only matching entry grants READ now and whose window covers the range |
| GrantTransport.GrantSession.AuthorizedInOrder | src/sgpu_grant.rs:259-279 | which error each failing step gives, in the order of the steps |
| GrantTransport.GrantSession.AuthorizedInFull | src/sgpu_grant.rs:259-279 | with one entry for the caller and slot: every condition on header, route, capability, grant and window in numbers, and the bytes delivered |
| GrantTransport.GrantSession.AuthorizableExactly | src/sgpu_grant.rs:219-279 | a converted nonempty submission can be authorized by some table iff both halves of its grant handle are nonzero; then publishing the payload at its offset delivers it |
| GrantTransport.GrantSession.DeliveryExact | src/sgpu_grant.rs:259-279 | the delivered payload is the grant's contents at the requested range; only the caller's own entry is assumed to show its grant |
| GrantTransport.GrantSession.WindowsAgree | src/sgpu_grant.rs:259-279 | two covering windows of the same grant deliver the same result, wherever they stand in their tables |
| GrantTransport.GrantSession.ToInline | src/sgpu_grant.rs:293-316 | the authorized payload under a header that names no grant, has offset 0, declares 64 + payload bytes and otherwise equals the message's, field by field |
| GrantTransport.GrantSession.NormalizedIsValid | src/sgpu_grant.rs:300-315 | conversion fails only where authorization does: the final validation never fails |
| GrantTransport.GrantSession.NormalForm | src/sgpu_grant.rs:219-231 | inline to grant to inline keeps the payload and all but three header fields, repeating the conversion gives identical bytes, and a nonempty result is never a grant header |
| Plan.Encode | src/guest.rs:116-136 | appending field after field yields the plan's wire form |
| Plan.Decode | src/guest.rs:138-183 | the cursor loops compute the parser composed of the section parsers, whose bounds, offsets and errors `PlanWire` states in numbers, and push as many elements as it reads before it stops |
| Plan.ReadSmbios | src/guest.rs:162-171 | the counted loop reads the list the recursive parser reads, or stops with its error |
| Plan.ReadDeviceMap | src/guest.rs:172-178 | the same for the device list |
| PlanLaws.DecodeAfterEncode | src/guest.rs:116-183 | decoding an encoded plan returns it iff it has 1..255 processors, at least 134217728 bytes of memory, a nonempty disk, and all lengths and counts fit 32 bits |
| PlanLaws.EncodeAfterDecode | src/guest.rs:116-183 | encoding what was decoded reproduces the buffer, and what was decoded is within the bounds |
| PlanLaws.DecodeAgreesWithNew | src/guest.rs:93-104 | decoding the wire form of a plan without lists gives what `new` gives: the same plan, exactly within the bounds, or the same refusal |
| PlanLaws.NewExactly | src/guest.rs:27-104 | a plan is built iff 1..255 processors, at least 134217728 bytes and a nonempty disk; otherwise which of three errors, in order |
| PlanWire.EncodedInFull | src/guest.rs:116-136 | the order of all fields, counts and lists in the buffer |
| PlanWire.EntriesInFull | src/guest.rs:122-127 | each SMBIOS entry adds key length, key, value length, value |
| PlanWire.DevicesInFull | src/guest.rs:128-133 | device i is bytes 16 i to 16 i + 16 of its list: vendor, device, length |
| PlanWire.FrontInFull | src/guest.rs:153-161 | which of five errors the first bytes of a buffer cause, and where an accepted buffer's specification and disk stand |
| PlanWire.TextInFull | src/guest.rs:158-160 | a text is its length and that many bytes, truncated or not UTF-8 otherwise |
| PlanWire.EntryInFull | src/guest.rs:163-170 | a key's and a value's errors are told apart and the key's come first |
| PlanWire.DeviceInFull | src/guest.rs:172-177 | a device is sixteen bytes and can only be truncated |
| PlanWire.ListStopsAtFirstError | src/guest.rs:162-171 | a list fails with an error iff its first unreadable element fails with it |
| PlanWire.TrailingExactly | src/guest.rs:179-181 | "trailing bytes" is reported iff a proper prefix of the buffer is accepted |
| Utf8.IsUtf8Exactly | src/guest.rs:159-169 | the byte-range syntax accepts exactly the concatenated encodings of Unicode scalar values |
| PlanLaws.PlansArePrefixFree | src/guest.rs:138-183 | every proper prefix of an accepted buffer is "truncated plan", every extension "trailing bytes" |
| PlanLaws.ReadBound | src/guest.rs:138-183 | for every buffer, accepted or not, 8 bytes per entry and 16 per device that the decoder pushes fit the buffer, whatever its counts claim |
| PlanLaws.ConsumptionBound | src/guest.rs:138-183 | an accepted buffer has room for every list element it claims |
| Evidence.XnuOffsetExact | src/runner.rs:504-515 | the smallest recognised offset is found, and one is found iff there is one |
| Evidence.UserspaceExact | src/runner.rs:516-529 | userspace is found iff some recognised kernel offset lies strictly below some recognised userspace offset |
| Evidence.SeenInFull | src/runner.rs:504-529 | which marker texts each search recognises, word for word |
| Evidence.CompletedRolesInFull | src/runner.rs:668-684 | the five role names, and when a step completes one |
| Evidence.MarkersDependOnOffsetSets | src/runner.rs:715-741 | the searches depend only on the sets of recognised offsets |
| Evidence.RoleCountExact | src/runner.rs:668-699 | the count is the number of distinct listed roles with a completed upload |
| Evidence.RolesDependOnStepSet | src/runner.rs:675-684 | reordering or repeating steps changes nothing |
| Evidence.OnlyProcessExact | src/runner.rs:647-658 | holds iff exactly one entry has the pid, in the given session with a positive start time |
| RawVerdict.VerifiedIsCausal | src/runner.rs:492-552 | verified implies exit 0, a kernel marker strictly below a userspace marker, and a kernel marker of the target's major |
| RawItems.RunFlagsInFull | src/runner.rs:489-503 | exactly which values raise the runtime, termination and integrity flags; each backend has its own start claim |
| RawItems.BootFlagsInFull | src/runner.rs:530-543 | exactly which claims and markers raise the kernel, userspace and target flags |
| RawItems.OutcomeInFull | src/runner.rs:544-596 | verified iff exit 0, all six flags, the claim and no error; otherwise the literal reason, and what else the outcome reports |
| RawItems.IdentityInFull | src/runner.rs:489-491 | the schema, engine and target a report must carry for each backend |
| RawItems.VerifiedItems | src/runner.rs:489-552 | a verified report gives each listed item its value, by path, and neither denies |
| RawItems.DenialsDeny | src/runner.rs:544-552 | a non-null error or modified inputs refuse any report |
| RawOrder.TargetKernelMayComeLast | src/runner.rs:504-552 | for every native or TCG request there is a verified report with no userspace marker above any kernel marker of the target's major |
| RawOrder.OrdersUserspaceExactly | src/runner.rs:504-552 | every verified report with the given kernel markers has userspace above the target's kernel iff no recognised kernel marker stands before all of the target's |
| RawOrder.LateBootExactly | src/runner.rs:504-552 | a verified report lacks that order iff its last userspace marker is not above the target's first kernel marker, and then a foreign kernel marker leads |
| RawVerdict.FirstBrokenLinkIsBlamed | src/runner.rs:553-576 | the worker's own error, then its blocker, then the first broken link is reported; a reported link is the first broken one |
| RecoveryVerdict.VerifiedIsCausal | src/runner.rs:708-794 | verified implies exit 0 and stage 2 below all target kernel markers, the smallest of which lies below a userspace marker, in the one observation |
| RecoveryItems.RuntimeInFull | src/runner.rs:618-659 | exactly which supervisor, launch and process items raise the runtime flag |
| RecoveryItems.IdentityInFull | src/runner.rs:618-625 | the four items of the supervisor's identity and their values |
| RecoveryItems.LaunchInFull | src/runner.rs:626-635 | the nine items of the launch identity and their values |
| RecoveryItems.ProcessInFull | src/runner.rs:636-658 | the process is observed iff two distinct nonzero pids fit 32 bits and one entry alone carries QEMU's, in the worker's session |
| RecoveryItems.LifecycleInFull | src/runner.rs:660-667 | termination needs a complete cleanup without remaining pids, integrity the supervisor's identity and record |
| RecoveryItems.ProgressInFull | src/runner.rs:685-707 | exactly which items raise each of the seven progress flags, and the role count |
| RecoveryItems.BootFlagsInFull | src/runner.rs:708-757 | kernel, userspace and target: every claim at each of its places and markers of the one observation |
| RecoveryItems.VerifiedInFull | src/runner.rs:758-794 | verified iff the five flags, exit 0 and each remaining item has its one value: claims true, interruption false, errors null, no panic at any of three places, stage 2 below the kernel |
| RecoveryItems.OutcomeInFull | src/runner.rs:795-840 | exit code, engine and report are passed on, and the literal reason of every unverified receipt, in order |
| OnlyEvidence.VerifiedItems | src/runner.rs:618-794 | a verified receipt gives every listed item, by its path, the one value it must have, and affirms no denial |
| OnlyEvidence.DenialsDeny | src/runner.rs:762-794 | an error at either place, a panic at any of three or another requested output refuses any receipt |
| RecoveryVerdict.FlagsFormAChain | src/runner.rs:659-794 | verified implies userspace, target match, termination and integrity; these imply kernel, and kernel the runtime with both identities |
| RecoveryVerdict.RuntimeIsOneProcess | src/runner.rs:636-659 | a started runtime is one observed process, distinct from the worker and in its session |
| RecoveryVerdict.ProgressCountsRoles | src/runner.rs:668-707 | progress is empty without a runtime and otherwise counts distinct roles; verified implies the first four roles |
| RecoveryVerdict.FirstBrokenLinkIsBlamed | src/runner.rs:795-808 | a readable receipt is blamed on the first broken link of identity, runtime, cleanup, integrity, interruption, and the reason identifies that link |
| RecoveryVerdict.IntactReceiptIsQuoted | src/runner.rs:809-817 | with all links intact, the first textual error among the receipt's four places is quoted |
| Verdict.VerifiedMeansStopped | src/runner.rs:175-181 | failure is absent iff verified iff the guest is stopped; otherwise it is faulted with the failure's own text, and never Running |
| Verdict.ParseErrorIsVerbatim | src/runner.rs:474-617 | a parse error makes every guest flag false and all progress empty, and is the reported failure |
| Verdict.ForeignReceiptsProveNothing | src/runner.rs:489-491 | no nonzero exit and no receipt of another schema or target is ever verified |
| FailClosed.RecoveryFailsClosed | src/runner.rs:606-794 | without any one of the listed items a recovery receipt is unverified: identities, process, lifecycle, claims, firmware and restore progress, and the markers and claims of the observation in use |
| OnlyEvidence.ObservationIsOptional | src/runner.rs:708-714 | erasing a nested observation that shows what the launch record shows leaves the verdict as it was |
| OnlyEvidence.RecoveryReadsOnlyEvidence | src/runner.rs:606-794 | two receipts that agree on the listed items, those of the observation in use included, and on the denials get the same verdict; `VerifiedItems` and `DenialsDeny` say which values these must have |
| OnlyEvidence.RawReadsOnlyEvidence | src/runner.rs:474-552 | the same for native and TCG reports, whose denials are an error and modified inputs |
| RecoveryWitness.ReceiptIsVerified | src/runner.rs:606-794 | for every recovery request there is a receipt that the evaluator verifies |
| FailClosed.RawFailsClosed | IMPLEMENTATION.md:31-35 | without any one of the listed items a native or TCG report is unverified, whatever else it claims; the kernel and the userspace markers are items of their own |
| Invocation.Invoke | src/runner.rs:194-370 | the vector built step by step is the request's, which `InvocationWords` writes out, or the first failing check's error |
| Invocation.BuildRecovery | src/runner.rs:271-310 | the recovery arguments in their order, written out by `InvocationWords.RecoveryInFull`; duration plus grace stays within u32 |
| Invocation.AppendPaths | src/runner.rs:286-297 | flag and path alternate in order, unless some path is no usable text |
| Invocation.DecimalRoundTrip | src/runner.rs:248-250 | a number can be read back from its decimal text |
| InvocationWords.DecimalInFull | src/runner.rs:248-250 | the text has the digits of the number, the last one first, and no leading zero |
| InvocationLaws.InvocationReadBack | src/runner.rs:194-370 | the request can be read back by position, except the receipt directory and recovery's unused timeout; the flag before each position is stated by the `InvocationWords` rows |
| InvocationLaws.InvocationIsInjective | src/runner.rs:194-370 | two accepted requests have the same invocation iff they agree on everything else |
| InvocationWords.AcceptedInFull | src/runner.rs:194-345 | exactly the accepted requests, with every range and every path that must be text |
| InvocationWords.RefusedInFull | src/runner.rs:194-345 | the text of the first reason to refuse any other request |
| InvocationWords.HostInFull | src/runner.rs:334-369 | the interpreter runs in the repository, or the WSL launcher with its six arguments in no directory |
| InvocationWords.NativeInFull | src/runner.rs:233-236 | the whole argument list of an accepted native request, each value behind its flag |
| InvocationWords.TcgInFull | src/runner.rs:237-262 | the same for plain TCG, with the firmware kind's word |
| InvocationWords.RecoveryInFull | src/runner.rs:285-310 | the same for recovery: eight paths, six numbers, the grace of 5 seconds and the switch exactly when asked for |
| Reader.ReadReport | src/runner.rs:445-465 | whatever the chunking, the first min(length, limit + 1) bytes are kept and the hasher gets the whole stream in order; it fails only if a read does |
| Runner.Judge | src/runner.rs:421-436 | the verdict is about the whole stream, or about its size exactly above 8388609 bytes for recovery and 4194304 otherwise |
| Runner.OversizedReportProvesNothing | src/runner.rs:426-436 | an oversized report proves nothing and the reason names 4 or 8 MiB |
| Runner.UnnamedOutputMatches | src/runner.rs:622-625 | for an output path that is no text, a receipt that names no output can be verified, but the request is refused |
| Runner.ReceiptNamesTextOutput | src/runner.rs:622-625 | a matching receipt names the requested output iff that is a text path, as in every accepted request |

## Left out

- SGPU command codec, compute session and device internals: in the GPU crate, which is not part of this model.
- `SgpuGrantSession::submit`: it hands the authorized bytes to the GPU crate's compute session.
- `SgpuCaps` encoding: its enumeration values come from the GPU crate; `dispatch` carries its 40 bytes as a parameter.
- `GuestLaunchPlan::smbios` and `map_device`: each appends one element; the plan's lists are arbitrary here.
- Virtualization backends, library probing and `XstateDomain` in `src/guest.rs`, and `src/mode.rs`: foreign calls and one-line predicates.
- `src/vf_policy.rs`: straight-line field checks over a parsed property list.
- `RunnerRequest::run`: process spawning, files and receipts are not modelled; `Runner.Judge` covers reading and judging.
- SHA-256: the hasher is the concatenation of its input.
- JSON parsing: evaluation starts from a parsed value, and the parser is a parameter of `Runner.Judge`.
- Outcome fields that the evaluators set to constants (process id, time, digest, schema, installation and graphics flags).
- Root-owned grant lifecycle (locks, reference counts, revocation, endpoint rights): outside the adapter by its own contract.
- The archived copy of the runner under `research/handoff`: the same evaluators under other schema names.
