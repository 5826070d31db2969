# DiskArbitrator: a verified model of the daemon's core and the lister's helpers

DiskArbitrator is a macOS daemon (`diskarbitratord`) together with its
command-line client (`diskarbitratorctl`). The daemon watches the disks that
the DiskArbitration framework reports. It keeps a registry of them, keyed by
BSD name, with each slice linked to its whole disk. It can intercept mounts
and block them, or force them read-only. Over a gRPC socket it serves mount,
unmount, eject, attach, info, list and arbitrate requests. Disk images are
attached by running `hdiutil`. The client parses the sub-command and the
mode options and prints the disk list as a tree.

This project models, in Dafny, what that code decides and how it keeps its
state:

- **Registry and service object** (`server.dfy`, module `Server`). The class
  `DiskArbitratorService` holds the registry map, the arbitration mode, the
  set of disks the daemon is mounting itself (`ourMounts`) and whether an
  approval session exists. Its methods are the registry operations of
  `server.cpp` and the RPC handlers of `server.hpp`. The arbitration state
  machine is stated as a specification function, `ArbitrateSpec`.
- **Platform bridge** (`bridge.dfy`, module `Bridge`). This covers the
  mount-approval decision, the three-tier decoding of a dissenter into an
  error text, the DiskArbitration error-code table, and the guards and
  argument vectors of `mountDisk`, `unmountDisk` and `ejectDisk`. Each native
  call is an oracle: the operation is given the dissenter its completion
  callback would receive. It returns the list of native requests it issued,
  so "fails before any native call" reads `issued == []`.
- **Disk events** (`events.dfy`, module `Events`). This covers the Appeared,
  Disappeared and DescriptionChanged callbacks. It also covers `genDisk`'s
  lazy materialisation of a slice's whole-disk parent, and the mount-approval
  callback with its read-only remount.
- **Image attach** (`hdiutil.dfy`, module `Hdiutil`). This covers the
  `hdiutil` argument vector, the return code, the encrypted and SLA queries,
  and the attach options and standard input. It also models the two stream
  loops over abstract read and write results.
- **CoreFoundation helpers** (`cftypes.dfy`, module `CFTypes`). This covers
  hex rendering of CFData, GUID dash formatting, and the reference-date to
  Unix-epoch shift.
- **Client helpers** (`common.dfy` and `commands.dfy`, modules `Common` and
  `Commands`). This covers the mode validators, the option-to-mode mappings
  of the mount, attach and arbitrate commands, the size humaniser, the
  widening to `wstring`, and the command lookup.
- **Lister** (`list.dfy`, module `DiskList`). This covers the hierarchical
  ordering of the disk list, the tree prefixes, the column widths and the
  column padding.
- **Shared modules.** `wrappers.dfy` holds Option, Result and Outcome.
  `disk_types.dfy` holds the protobuf messages as datatypes, with every
  optional field an `Option`. `strings.dfy` holds decimal rendering, the
  `std::string` ordering, and a sort for `std::sort` together with its
  in-place array version.

The protobuf definitions (`diskarbitrator.proto`) are not part of this
model. The fields of `Description` are the ones `genDisk` fills in. The
mount modes are the three values the code tests.

Where a description in prose of the system and the code disagree, the model
follows the code. In particular:

- `stopIntercept` (`src/diskarbitratord/server.cpp:188-194`) has no failure
  path. So in `Arbitrate` only the start of interception can abort.
- The mount command accepts "nomount" and maps it to a read-only mount
  (`src/diskarbitratorctl/mount.cpp:95-98`).

## Model

| member | source | states |
|---|---|---|
| Server.LinkChild | src/diskarbitratord/server.cpp:216-229 | afterwards the child is listed, exactly the old children plus the child are listed, and the old list is kept as a prefix (appends at the end) |
| Server.LinkChildIdempotentNoDup | src/diskarbitratord/server.cpp:221-228 | linking the same child twice is the same as once, and a list without duplicates stays without duplicates |
| Server.RemoveFirstAt | src/diskarbitratord/server.cpp:237-248 | removing the first occurrence cuts the list at the index the pos/found search finds, keeping the order of the rest |
| Server.RemoveFirstAbsent | src/diskarbitratord/server.cpp:246-248 | removing a child that is not listed leaves the list unchanged |
| Server.RemoveFirstKeeps | src/diskarbitratord/server.cpp:231-249 | every other child stays listed |
| Server.RemoveFirstCounts | src/diskarbitratord/server.cpp:231-249 | exactly one occurrence of the child is removed, as a multiset |
| Server.RemoveFirstNoDup | src/diskarbitratord/server.cpp:231-249 | on a list without duplicates the child is gone afterwards and no duplicate appears |
| Server.UnlinkUndoesLink | src/diskarbitratord/server.cpp:216-249 | unlinking a freshly linked child restores the list it was linked into |
| Server.InterceptStepFor | src/diskarbitratord/server.hpp:165-171 | interception is stopped exactly when the new mode is NONE and started exactly when the old mode is NONE, so BLOCK to RDONLY and back takes neither step |
| Server.ArbitrateTransitions | src/diskarbitratord/server.hpp:161-183 | a request for the current mode is refused with ALREADY_EXISTS and changes nothing; the mode is stored exactly when the request is granted; ABORTED happens exactly when starting interception fails; a granted mode, requested again, is refused |
| Server.ArbitrateSpec | src/diskarbitratord/server.hpp:161-183 | defines the status and the new mode of Arbitrate from the current mode, the requested one and whether a session could be created |
| Server.RemoveFirst | src/diskarbitratord/server.cpp:231-249 | defines the children list after removeChildFromParent: the first occurrence dropped, the rest in order |
| Server.DiskArbitratorService.constructor | src/diskarbitratord/server.hpp:185-186 | an empty registry, mode NONE, no self-mounts and no approval session |
| Server.DiskArbitratorService.AddDisk | src/diskarbitratord/server.cpp:196-202 | a present key leaves the registry unchanged; otherwise exactly that key is inserted; nothing else changes |
| Server.DiskArbitratorService.RemoveDisk | src/diskarbitratord/server.cpp:204-210 | the registry loses exactly that key, and a missing key changes nothing |
| Server.DiskArbitratorService.DiskExists | src/diskarbitratord/server.cpp:212-214 | true exactly when the key is registered |
| Server.DiskArbitratorService.AddChildToParent | src/diskarbitratord/server.cpp:216-229 | fails with the source's message when the parent is absent, with the registry unchanged; otherwise only the parent's children change, linked idempotently at the end; no children list gains a duplicate |
| Server.DiskArbitratorService.RemoveChildFromParent | src/diskarbitratord/server.cpp:231-249 | fails when the parent is absent, with the registry unchanged; otherwise only the parent's children change, losing the first occurrence of the child |
| Server.DiskArbitratorService.FindChild | src/diskarbitratord/server.cpp:237-245 | found exactly when the child is listed, and then pos is its first index |
| Server.DiskArbitratorService.GetParentDisk | src/diskarbitratord/server.cpp:251-257 | fails for an unregistered disk, otherwise returns the stored parent name ("" for none) |
| Server.DiskArbitratorService.UpdateDiskDescription | src/diskarbitratord/server.cpp:259-265 | fails for an unregistered disk; otherwise replaces only that disk's description, keeping its parent, its children and every other entry |
| Server.DiskArbitratorService.StartIntercept | src/diskarbitratord/server.cpp:177-186 | fails with "Unable to create approval session" exactly when no session is created; only the session changes |
| Server.DiskArbitratorService.StopIntercept | src/diskarbitratord/server.cpp:188-194 | the session is released, cannot fail, and nothing else changes |
| Server.DiskArbitratorService.Arbitrate | src/diskarbitratord/server.hpp:161-183 | status and new mode are those of ArbitrateSpec; the registry and the self-mount marks are untouched; the session exists exactly while the mode is not NONE |
| Server.DiskArbitratorService.Shutdown | src/diskarbitratord/server.hpp:50-55 | interception is stopped if it is in place; nothing else changes |
| Server.DiskArbitratorService.MountDisk | src/diskarbitratord/server.hpp:65-98 | an unregistered id gives NOT_FOUND with no native request and no mark; otherwise the disk is marked as ours and the mark is removed only on success; failure gives ABORTED with the mount's message; the path is passed only when one was requested |
| Server.DiskArbitratorService.UnmountDisk | src/diskarbitratord/server.hpp:100-112 | NOT_FOUND with no native request for an unregistered id; otherwise the result of unmountDisk on the registered record |
| Server.DiskArbitratorService.EjectDisk | src/diskarbitratord/server.hpp:114-127 | NOT_FOUND with no native request for an unregistered id; otherwise the result of ejectDisk on the registered record |
| Server.DiskArbitratorService.AttachDisk | src/diskarbitratord/server.hpp:129-141 | attaches with the empty password, the mode options chosen as hdiutil.cpp writes them (by the value of the constant MOUNT_RDONLY); ABORTED with the attach's message on failure, otherwise OK with the device entries |
| Server.DiskArbitratorService.DiskInfo | src/diskarbitratord/server.hpp:143-150 | NOT_FOUND for an unregistered id, otherwise that disk's description |
| Server.DiskArbitratorService.ListDisks | src/diskarbitratord/server.hpp:152-159 | exactly one copy of each registered disk, in strictly ascending key order |
| Bridge.ApproveMount | src/diskarbitratord/diskarbitration.cpp:48-65 | allow exactly when arbitration is off or the mount is ours; deny exactly in BLOCK mode for a foreign mount; remount read-only exactly in RDONLY mode for a foreign mount |
| Bridge.NotPermitted | src/diskarbitratord/diskarbitration.cpp:131-144 | the dissenter carries kDAReturnNotPermitted (system ERR_LOCAL, subsystem DiskArbitration) and the given message |
| Bridge.ErrorDescriptionIdentifiesCode | src/diskarbitratord/diskarbitration.cpp:568-600 | codes 0..12 get their own text and every other code the fallback; reading the text back gives the code for a known code and nothing for an unknown one |
| Bridge.DescriptionOfNamedCode | src/diskarbitratord/diskarbitration.cpp:568-600 | a text naming a code is exactly that code's description |
| Bridge.GenErrorDescription | src/diskarbitratord/diskarbitration.cpp:568-600 | defines the error-code table: codes 0 to 12 and the fallback text |
| Bridge.DecodeCompletion | src/diskarbitratord/diskarbitration.cpp:278-316 | the decoded error is empty exactly when there is no dissenter |
| Bridge.DADecodeTier | src/diskarbitratord/diskarbitration.cpp:278-316 | a DiskArbitration status decodes to "Error (DA Error Code: N): " followed by the table text of N |
| Bridge.DecodeNamesTier | src/diskarbitratord/diskarbitration.cpp:278-316 | the prefix of the decoded text names the tier of the dissenter: status string first, then errno, then DiskArbitration, then the fallback |
| Bridge.Promise.constructor | src/diskarbitratord/diskarbitration.cpp:278-316 | a promise starts without a value |
| Bridge.Promise.SetValue | src/diskarbitratord/diskarbitration.cpp:278-316 | a promise is set once, while it has no value |
| Bridge.CheckSuccess | src/diskarbitratord/diskarbitration.cpp:278-316 | the promise is set exactly once, to the decoded error |
| Bridge.MountArguments | src/diskarbitratord/diskarbitration.cpp:188-195 | a read-write mount keeps the caller's arguments; a read-only mount appends "-j" exactly for HFS, and then "rdonly", after them |
| Bridge.MountArgv | src/diskarbitratord/diskarbitration.cpp:188-215 | the appended options and the copy loop build exactly MountArguments |
| Bridge.GenRecord | src/diskarbitratord/diskarbitration.cpp:318-566 | defines the record genDisk returns: the BSD name, the description, no children, and the whole disk's name as parent for a slice whose whole disk is reported |
| Bridge.MountSpec | src/diskarbitratord/diskarbitration.cpp:180-251 | defines mountDisk: the guards, the single mount request and the decoded completion |
| Bridge.MountGuards | src/diskarbitratord/diskarbitration.cpp:180-251 | an explicitly unmountable or already mounted disk fails before any native call; otherwise exactly one mount request is issued, with the path only when it is non-empty; success happens exactly when there is no dissenter and the re-read disk has a mount path, which is returned; a dissenter gives "Error mounting disk: ..." |
| Bridge.MountDisk | src/diskarbitratord/diskarbitration.cpp:180-251 | result and issued requests are those of MountSpec |
| Bridge.UnmountGuards | src/diskarbitratord/diskarbitration.cpp:253-276 | refuses only a mount path that is present and empty; the whole-disk option is set exactly when media_whole is true; succeeds exactly when the completion has no dissenter |
| Bridge.UnmountSpec | src/diskarbitratord/diskarbitration.cpp:253-276 | defines unmountDisk: the guard, the request and the decoded completion |
| Bridge.UnmountDisk | src/diskarbitratord/diskarbitration.cpp:253-276 | result and issued requests are those of UnmountSpec |
| Bridge.EjectIgnoresUnmount | src/diskarbitratord/diskarbitration.cpp:151-178 | an explicitly non-ejectable disk fails before any native call; otherwise the last request is the eject; an unmount is tried first only for a disk with children; the result does not depend on how that unmount went |
| Bridge.EjectSpec | src/diskarbitratord/diskarbitration.cpp:151-178 | defines ejectDisk: the guard, the optional unmount of a disk with children, then the eject |
| Bridge.EjectDisk | src/diskarbitratord/diskarbitration.cpp:151-178 | result and issued requests are those of EjectSpec |
| Events.MaterialiseKeeps | src/diskarbitratord/diskarbitration.cpp:538-563 | materialising a parent never removes a registered disk |
| Events.MaterialiseKeysConsistent | src/diskarbitratord/diskarbitration.cpp:538-563 | every entry stays stored under its own BSD name |
| Events.MaterialiseUnique | src/diskarbitratord/diskarbitration.cpp:538-563 | no children list gains a duplicate |
| Events.MaterialiseLinks | src/diskarbitratord/diskarbitration.cpp:538-563 | for a slice of a reported whole disk, the whole disk is registered afterwards and lists the slice among its children |
| Events.GenDisk | src/diskarbitratord/diskarbitration.cpp:318-566 | returns the record built from the platform handle, with its parent name set for a slice; the registry becomes the materialised one |
| Events.AppearedRegisters | src/diskarbitratord/diskarbitration.cpp:75-88 | the disk is registered afterwards, an existing entry is kept, and a whole disk is inserted only if it was absent |
| Events.AppearedIdempotent | src/diskarbitratord/diskarbitration.cpp:75-88 | a disk appearing twice leaves the registry as one appearance does |
| Events.DiskAppeared | src/diskarbitratord/diskarbitration.cpp:75-88 | the registry becomes AppearedSpec of the old one |
| Events.RemoveAll | src/diskarbitratord/diskarbitration.cpp:100-102 | exactly the given ids are removed from the registry |
| Events.DiskDisappearedAsWritten | src/diskarbitratord/diskarbitration.cpp:92-106 | fails for an unregistered disk; otherwise unlinks it from its parent and removes the children of the freshly generated record, then the disk |
| Events.DiskDisappeared | src/diskarbitratord/diskarbitration.cpp:92-106 | as written, except that the registered record's children are removed |
| Events.DisappearedLeavesNoOrphans | src/diskarbitratord/diskarbitration.cpp:92-106 | on a registry where every disk naming a registered parent is listed by it, once a whole disk has disappeared, as intended, no registered disk names it as its parent |
| Events.DisappearedAsWrittenLeavesOrphans | src/diskarbitratord/diskarbitration.cpp:100-102 | as written, a slice of a disappeared whole disk remains registered with the vanished parent; as intended it is removed |
| Events.DiskDescriptionChanged | src/diskarbitratord/diskarbitration.cpp:110-117 | the registry and the result are those of DescriptionChangedSpec |
| Events.DescriptionChangeOnlyReplacesDescription | src/diskarbitratord/diskarbitration.cpp:110-117 | for a registered whole disk, or a registered slice already listed under its registered whole disk, only the description is replaced: the registry is the old one with that entry's description updated |
| Events.TopologyLinksParents | src/diskarbitratord/server.cpp:216-257 | the registry's shape implies that every disk naming a registered parent is listed among that parent's children |
| Events.AddKeepsTopology | src/diskarbitratord/server.cpp:196-202 | registering a fresh entry that fits the shape keeps it |
| Events.LinkKeepsTopology | src/diskarbitratord/server.cpp:216-229 | listing a slice under a registered disk keeps the shape |
| Events.MaterialiseKeepsTopology | src/diskarbitratord/diskarbitration.cpp:538-563 | genDisk keeps the shape and leaves a slice listed under its registered whole disk |
| Events.AppearedKeepsTopology | src/diskarbitratord/diskarbitration.cpp:75-88 | a disk appearing keeps the shape |
| Events.RedescribeKeepsTopology | src/diskarbitratord/server.cpp:259-265 | replacing a registered disk's description keeps the shape |
| Events.DescriptionChangedKeepsTopology | src/diskarbitratord/diskarbitration.cpp:110-117 | a description change keeps the shape |
| Events.DropKeepsTopology | src/diskarbitratord/diskarbitration.cpp:92-106 | unlisting a disk from its parent and removing it with its registered children keeps the shape |
| Events.DisappearedKeepsTopology | src/diskarbitratord/diskarbitration.cpp:92-106 | a disappearance, as intended, keeps the shape |
| Events.ReplayKeepsTopology | src/diskarbitratord/diskarbitration.cpp:75-117 | any run of appearances, disappearances (as intended) and description changes keeps the shape |
| Events.NoOrphansAfterAnyRun | src/diskarbitratord/diskarbitration.cpp:75-117 | from the empty registry, after any run of events, a registered whole disk that disappears, as intended, succeeds and leaves no registered disk naming it as its parent |
| Events.Materialise | src/diskarbitratord/diskarbitration.cpp:538-563 | defines the registry after genDisk with an instance: the whole disk of a slice first, registered if absent, then the slice linked into its children |
| Events.AppearedSpec | src/diskarbitratord/diskarbitration.cpp:75-88 | defines the registry after an appearance: the materialised one, with the disk added when absent |
| Events.DisappearedSpec | src/diskarbitratord/diskarbitration.cpp:92-106 | defines the result and registry after a disappearance: failure for an unregistered disk, otherwise unlinked from its parent, the victims removed, then the disk; the victims are the registered children as intended or the generated record's children as written |
| Events.DescriptionChangedSpec | src/diskarbitratord/diskarbitration.cpp:110-117 | defines the result and registry after a description change: failure for an unregistered disk, otherwise its description replaced |
| Events.RemountRO | src/diskarbitratord/diskarbitration.cpp:67-71 | mounts read-only with no arguments and the default path; the disk stays marked as ours unless the mount succeeds |
| Events.DiskMountApprovalCallback | src/diskarbitratord/diskarbitration.cpp:122-149 | no dissenter exactly when the decision is allow; "blocked" or "forcing read-only" NotPermitted dissenters otherwise; only a read-only decision issues the remount and touches the marks |
| Hdiutil.ReturnCode | src/diskarbitratord/hdiutil.cpp:199-204 | the exit status, or the number of the terminating signal |
| Hdiutil.Argv | src/diskarbitratord/hdiutil.cpp:167-186 | the path of hdiutil, the command, the extra arguments in order, then the image unless it is empty |
| Hdiutil.BuildArgv | src/diskarbitratord/hdiutil.cpp:167-186 | the push_back loop builds exactly Argv |
| Hdiutil.RunResult | src/diskarbitratord/hdiutil.cpp:97-231 | a run fails exactly when runHdiutil throws; otherwise it carries the return code and both captured streams |
| Hdiutil.Checked | src/diskarbitratord/hdiutil.cpp:236-238 | passes a run exactly when it completed with return code 0, and otherwise fails with "hdiutil returned: N. Error: " and the stderr |
| Hdiutil.AttachModeFlags | src/diskarbitratord/hdiutil.cpp:278-282 | "-nomount" exactly for no mount, "-readonly" exactly for read-only, nothing exactly for read-write |
| Hdiutil.AttachModeIgnoresRdonly | src/diskarbitratord/hdiutil.cpp:280 | as written, read-only and read-write get the same flags whatever the enum constant's value; as intended they differ |
| Hdiutil.AttachArgsAsWritten | src/diskarbitratord/hdiutil.cpp:257-282 | as written, read-only and read-write attaches get the same options; the written options agree with the intended ones exactly for no mount, for read-only when MOUNT_RDONLY is non-zero and for read-write when it is zero; the intended options of two modes are equal exactly when the modes are |
| Hdiutil.AttachModeFlagsAsWritten | src/diskarbitratord/hdiutil.cpp:278-282 | defines the mode options as written: "-nomount" for no mount, otherwise "-readonly" exactly when the constant MOUNT_RDONLY is non-zero |
| Hdiutil.AttachArgs | src/diskarbitratord/hdiutil.cpp:261-282 | defines the attach options as written: "-plist", "-noverify", "-stdinpass" with a password, then the mode options as written |
| Hdiutil.IntendedAttachArgs | src/diskarbitratord/hdiutil.cpp:261-282 | defines the attach options with the mode options chosen by the requested mode |
| Hdiutil.AttachStdin | src/diskarbitratord/hdiutil.cpp:268-276 | defines the attach input: the password and a newline with a password, then "Y\n" for an image with an SLA |
| Hdiutil.AttachSpec | src/diskarbitratord/hdiutil.cpp:257-299 | defines attachDisk: the encryption query, the refusal without a password, the SLA query, then the attach run with the options as written |
| Hdiutil.IsImageEncrypted | src/diskarbitratord/hdiutil.cpp:234-243 | runs "isencrypted -plist" on the image with no input, then fails on a failed run or returns the flag |
| Hdiutil.ImageHasSla | src/diskarbitratord/hdiutil.cpp:246-255 | runs "imageinfo -plist" with the bare password as its input, then fails on a failed run or returns the flag |
| Hdiutil.AttachDisk | src/diskarbitratord/hdiutil.cpp:257-299 | result and runs are those of AttachSpec, whose attach options carry the mode options as written |
| Hdiutil.AddModeFlags | src/diskarbitratord/hdiutil.cpp:278-282 | as written: "-nomount" is appended exactly for no mount; for any other mode "-readonly" is appended exactly when the constant MOUNT_RDONLY is non-zero, whatever the mode; the earlier options are kept |
| Hdiutil.RunAttach | src/diskarbitratord/hdiutil.cpp:285-299 | one attach run; a nonzero code fails, otherwise the dev-entry of each system entity, in order |
| Hdiutil.AttachQueries | src/diskarbitratord/hdiutil.cpp:264-276 | an encrypted image without a password fails after the first query, before the SLA query and the attach; the SLA query gets the bare password; the attach gets the options as written and the stdin payload |
| Hdiutil.AttachRunOptions | src/diskarbitratord/hdiutil.cpp:261-282 | the attach options start with "-plist", "-noverify"; "-stdinpass" is present exactly with a password; as written they end with "-nomount" for no mount, with "-readonly" for any other mode when the constant MOUNT_RDONLY is non-zero, and hold neither flag otherwise; the image comes last |
| Hdiutil.AttachRunInput | src/diskarbitratord/hdiutil.cpp:268-276 | stdin starts with the password and a newline when there is one, ends with "Y\n" when there is an SLA, and is empty otherwise |
| Hdiutil.AttachFailureStops | src/diskarbitratord/hdiutil.cpp:236-238 | a nonzero code of the first query or of the attach fails with that code and stderr; success happens exactly when all three runs happen and the attach exits 0, and then returns the device entries |
| Hdiutil.ReadsBeforeFailure | src/diskarbitratord/hdiutil.cpp:78-95 | the number of reads before the first hard error |
| Hdiutil.StreamDataOutAsWritten | src/diskarbitratord/hdiutil.cpp:78-95 | as written, one full buffer is appended per read before a hard error, and the block a successful read appends starts with the bytes it read; the error flag is set exactly on a hard error |
| Hdiutil.StreamOutPadding | src/diskarbitratord/hdiutil.cpp:90 | the bytes actually read never exceed what the code appends, and equal it only when every read before the error was a full buffer |
| Hdiutil.StreamOutPadsShortRead | src/diskarbitratord/hdiutil.cpp:90 | a single two-byte read is collected as 2 bytes but appended as 16384 |
| Hdiutil.StreamDataOut | src/diskarbitratord/hdiutil.cpp:78-95 | as intended, the output is exactly the bytes read before a hard error; the flag is set exactly on a hard error |
| Hdiutil.SentIsSuffixPrefix | src/diskarbitratord/hdiutil.cpp:60-76 | as intended, what reaches the child is the rest of the data in order |
| Hdiutil.SentAsWritten | src/diskarbitratord/hdiutil.cpp:60-76 | defines what streamDataIn sends as written: after an interrupted write the running total drops by one |
| Hdiutil.StreamInResendsAfterInterrupt | src/diskarbitratord/hdiutil.cpp:72 | as written, "ab" written 1 byte, interrupted, then 2 bytes reaches the child as "aab"; as intended as "ab" |
| Hdiutil.StreamDataIn | src/diskarbitratord/hdiutil.cpp:60-76 | as intended, a prefix of the data is sent, retrying interrupted writes; the flag is set exactly on a hard error |
| CFTypes.HexDigit | src/diskarbitratord/cftypes.cpp:64-68 | a lowercase hex digit |
| CFTypes.HexString | src/diskarbitratord/cftypes.cpp:60-70 | twice as many characters as bytes, all lowercase hex digits |
| CFTypes.HexRoundTrip | src/diskarbitratord/cftypes.cpp:64-68 | decoding the digit pairs gives back the bytes |
| CFTypes.HexStringInjective | src/diskarbitratord/cftypes.cpp:60-70 | different byte strings render differently |
| CFTypes.CFDataToStr | src/diskarbitratord/cftypes.cpp:60-70 | the loop renders exactly HexString |
| CFTypes.GuidLayout | src/diskarbitratord/cftypes.cpp:130-133 | out_of_range exactly below 20 characters; otherwise dashes at 8, 13, 18 and 23, the last group truncated to the input, and removing the dashes gives the first 32 characters back |
| CFTypes.Substr | src/diskarbitratord/cftypes.cpp:132 | defines std::string::substr: out_of_range past the end, otherwise at most count characters |
| CFTypes.FormatStringAsGUID | src/diskarbitratord/cftypes.cpp:130-133 | defines formatStringAsGUID: groups of 8, 4, 4, 4 and 12 characters joined by dashes, out_of_range from any substr |
| CFTypes.DeviceGuidForm | src/diskarbitratord/cftypes.cpp:60-70 | for 16 bytes, 36 characters with a dash exactly at 8, 13, 18 and 23, and the hex string back once the dashes are removed |
| CFTypes.TimeIntervalToEpoch | src/diskarbitratord/cftypes.cpp:119-121 | a value in the uint64_t range |
| CFTypes.TimeIntervalShift | src/diskarbitratord/cftypes.cpp:28 | the truncated interval plus 978307200, where that does not wrap |
| CFTypes.TimeIntervalWraps | src/diskarbitratord/cftypes.cpp:119-121 | intervals near the top of the range wrap modulo 2^64 |
| Commands.FindCommand | src/diskarbitratorctl/commands.hpp:44-51 | the argument when it is listed, "" otherwise |
| Commands.ParseCommand | src/diskarbitratorctl/commands.hpp:33-52 | "" or one of the seven commands |
| Commands.ParseCommandRecognises | src/diskarbitratorctl/commands.hpp:34-51 | an argument is recognised exactly when it is one of the seven commands, and then returned unchanged; anything else gives "" |
| Commands.HelpIsNotACommand | src/diskarbitratorctl/commands.hpp:34-42 | "-h" and "--help" give "" |
| Commands.ParseCommandIdempotent | src/diskarbitratorctl/commands.hpp:33-52 | parsing a parsed command changes nothing |
| Common.MountModeAccepts | src/diskarbitratorctl/common.cpp:27-29 | true exactly for "ro", "rw" and "nomount" |
| Common.ArbitrationModeAccepts | src/diskarbitratorctl/common.cpp:31-33 | true exactly for "block", "ro" and "off" |
| Common.ValidateMountMode | src/diskarbitratorctl/common.cpp:27-29 | defines the accepted mount mode names |
| Common.ValidateArbitrationMode | src/diskarbitratorctl/common.cpp:31-33 | defines the accepted arbitration mode names |
| Common.MountCommandMode | src/diskarbitratorctl/mount.cpp:95-98 | read-write exactly for "rw", never no-mount |
| Common.AttachCommandMode | src/diskarbitratorctl/attach.cpp:82-87 | read-only exactly for "ro", read-write exactly for "rw" |
| Common.ArbitrateCommandMode | src/diskarbitratorctl/arbitrate.cpp:74-79 | RDONLY exactly for "ro", NONE exactly for "off" |
| Common.ArbitrationModeName | src/diskarbitratorctl/arbitrate.cpp:74-79 | every mode has a name the validator accepts |
| Common.ArbitrateModeBijective | src/diskarbitratorctl/arbitrate.cpp:74-79 | on validated names the mapping is a bijection onto the three modes |
| Common.AttachModeBijective | src/diskarbitratorctl/attach.cpp:82-87 | on validated names the mapping is injective, and no mount exactly for "nomount" |
| Common.MountCommandNoMountIsReadOnly | src/diskarbitratorctl/mount.cpp:95-98 | "nomount" is accepted and mounts read-only, like "ro" |
| Common.SizeToHuman | src/diskarbitratorctl/common.cpp:35-50 | never empty |
| Common.SuffixedReadsBack | src/diskarbitratorctl/common.cpp:36-47 | a numeral n in a suffixed band reads back to n units bracketing the size |
| Common.SizeToHumanReadsBack | src/diskarbitratorctl/common.cpp:35-50 | numeral times unit is at most the size, which is below numeral plus one times unit (truncation); a suffix is used exactly from 1000 on; K, M and G numerals lie in 1..999; T has no upper bound; below 1000 the plain decimal |
| Common.SizeToHumanMonotoneUnit | src/diskarbitratorctl/common.cpp:35-50 | a larger size never gets a smaller unit |
| Common.WidenChar | src/diskarbitratorctl/common.cpp:60-62 | a signed char: ASCII keeps its code, bytes from 128 on become negative |
| Common.StrToWstr | src/diskarbitratorctl/common.cpp:60-62 | same length, one wide character per byte |
| Common.WstrToStr | src/diskarbitratorctl/common.cpp:60-62 | same length |
| Common.StrToWstrAt | src/diskarbitratorctl/common.cpp:60-62 | position i is the widened byte i |
| Common.StrToWstrRoundTrip | src/diskarbitratorctl/common.cpp:60-62 | the bytes are recovered from the wide string |
| Common.StrToWstrAscii | src/diskarbitratorctl/common.cpp:60-62 | an ASCII string widens to the same code points |
| DiskList.WholeDisks | src/diskarbitratorctl/list.cpp:81-85 | exactly the whole disks of the input |
| DiskList.FirstWithId | src/diskarbitratorctl/list.cpp:97-102 | a disk of the input with that id, and none exactly when no disk has it |
| DiskList.ChildRows | src/diskarbitratorctl/list.cpp:96-103 | at most one row per child id, each a disk of the input with a listed id |
| DiskList.Groups | src/diskarbitratorctl/list.cpp:87-104 | one group per whole disk, in order |
| DiskList.OrderedDisks | src/diskarbitratorctl/list.cpp:78-106 | defines the hierarchical order: each whole disk, then its child rows |
| DiskList.FindDisk | src/diskarbitratorctl/list.cpp:97-102 | the search with early exit finds the first disk with the id |
| DiskList.AppendChildren | src/diskarbitratorctl/list.cpp:96-103 | the inner loops build exactly ChildRows |
| DiskList.SortedChildren | src/diskarbitratorctl/list.cpp:90-94 | the copied and sorted children are exactly SortStrings of the children |
| DiskList.OrderDisks | src/diskarbitratorctl/list.cpp:78-106 | the nested loops build exactly OrderedDisks |
| DiskList.FirstWithIdFirst | src/diskarbitratorctl/list.cpp:97-102 | when several disks match, the first one is taken |
| DiskList.ConcatBlock | src/diskarbitratorctl/list.cpp:87-104 | the group of each whole disk sits contiguously in the output |
| DiskList.NextBlockStart | src/diskarbitratorctl/list.cpp:87-104 | the row after a group is the head of the next group |
| DiskList.OrderedRows | src/diskarbitratorctl/list.cpp:81-104 | every output row is a whole disk or a child row of one |
| DiskList.OrderedDisksCoverWhole | src/diskarbitratorctl/list.cpp:81-104 | every whole disk appears, and only disks of the input do |
| DiskList.OrphansExcluded | src/diskarbitratorctl/list.cpp:81-104 | a non-whole disk named by no whole disk's children does not appear |
| DiskList.OrderedDisksGroups | src/diskarbitratorctl/list.cpp:87-104 | group k is whole disk k, in input order, immediately followed by its child rows |
| DiskList.ChildRowsSorted | src/diskarbitratorctl/list.cpp:90-103 | child rows of sorted ids are in lexicographic order |
| DiskList.GroupChildrenSorted | src/diskarbitratorctl/list.cpp:90-103 | each whole disk's children are emitted in lexicographic order |
| DiskList.ChildRowsFirstMatch | src/diskarbitratorctl/list.cpp:96-103 | each child row is the first input disk with its id; a child with no matching disk is skipped, and one with a match appears |
| DiskList.TreePrefix | src/diskarbitratorctl/list.cpp:119-128 | "" exactly for whole disks; the last-branch mark exactly for a non-whole row that is last or whose next row has another parent; the mid-branch mark otherwise |
| DiskList.BlockPrefixes | src/diskarbitratorctl/list.cpp:119-128 | in a listing of groups, the last child of a group gets the last-branch mark and every earlier child the mid-branch mark |
| DiskList.MaxFieldIsMax | src/diskarbitratorctl/list.cpp:46-53 | the running maximum bounds every value's length and is attained |
| DiskList.ColumnWidthIsLeastBound | src/diskarbitratorctl/list.cpp:41-55 | the width is the least bound of the column name and every value |
| DiskList.MaxFieldLength | src/diskarbitratorctl/list.cpp:46-53 | the loop computes the maximum value length |
| DiskList.GetColumnWidths | src/diskarbitratorctl/list.cpp:36-58 | one width per column of the first row, each the column's least bound |
| DiskList.Spaces | src/diskarbitratorctl/list.cpp:60-75 | n spaces |
| DiskList.PrintValue | src/diskarbitratorctl/list.cpp:60-75 | a missing column is added with width 0; the output is the padded value |
| DiskList.PrintedValue | src/diskarbitratorctl/list.cpp:60-75 | defines what printValue writes: the value and its padding, left- or right-aligned |
| DiskList.PrintedValueLayout | src/diskarbitratorctl/list.cpp:60-75 | left-aligned, max(|v|, w+2) characters with the value first; right-aligned, max(|v|, w)+2 characters with the value right before the two-space separation; the rest spaces |
| DiskList.PrintedValuesAlign | src/diskarbitratorctl/list.cpp:60-75 | values that fit the width print to the same length, so columns line up |
| Strings.NatToString | src/diskarbitratorctl/common.cpp:37-49 | decimal digits without a leading zero |
| Strings.NatToStringRoundTrip | src/diskarbitratorctl/common.cpp:37-49 | the decimal reads back to the number |
| Strings.NatToStringInjective | src/diskarbitratorctl/common.cpp:37-49 | different numbers render differently |
| Strings.IntToString | src/diskarbitratord/diskarbitration.cpp:294 | std::to_string of an int: a leading minus sign exactly for a negative number |
| Strings.SortStringsSorted | src/diskarbitratorctl/list.cpp:94 | the sort is sorted in std::string order |
| Strings.SortStrings | src/diskarbitratorctl/list.cpp:94 | the sort is a permutation |
| Strings.SortedUnique | src/diskarbitratorctl/list.cpp:94 | two sorted permutations of the same strings are equal |
| Strings.SortedPermutationIsSortStrings | src/diskarbitratorctl/list.cpp:94 | any sorted permutation is the sort |
| Strings.SortInPlace | src/diskarbitratorctl/list.cpp:94 | the array becomes sorted and stays a permutation |
| Strings.StrLess | src/diskarbitratorctl/list.cpp:94 | defines the std::string order: byte by byte, a proper prefix first |
| Strings.StrLessTransitive | src/diskarbitratord/server.hpp:154 | the std::string order is transitive |
| Strings.StrLessTotal | src/diskarbitratord/server.hpp:154 | the std::string order is total |

## Left out

- Threads and locking are left out. This covers the CF run-loop thread, the detached remount thread, the RPC worker threads, the stream threads and their mutexes. Each call is modelled as synchronous, and the unlocked sharing of the registry, the marks and the mode is not modelled.
- Events.RemountRO: the remount runs synchronously inside the approval callback. The promise and future hand-off of the completion is modelled only by Bridge.CheckSuccess.
- Events.RemountRO: in the source the remount runs on a detached std::thread, so a runtime_error from mountDisk leaves the thread and calls std::terminate, ending the daemon. The model instead returns the failure and goes on, with the disk still marked in ourMounts.
- Events.DiskDisappeared and Events.DiskDisappearedAsWritten: in the source getParentDisk throws for an unregistered disk, the exception escapes the DiskArbitration C callback, and the process terminates. The model instead returns the failure with the registry materialised and goes on.
- Events.NoOrphansAfterAnyRun: the shape invariant assumes that over the run every reported BSD name is non-empty and stays either a whole disk or a slice of a whole disk (the set `wholeNames`); a disk that changes between whole and slice is not covered.
- DiskArbitration and CoreFoundation calls are not modelled: sessions, callbacks registration, run-loop scheduling and the native mount, unmount and eject. They are oracles: the completion's dissenter and the re-read description are parameters.
- The per-key extraction of the description in genDisk (`src/diskarbitratord/diskarbitration.cpp:321-534`) is not modelled. The description is given, as the platform reports it.
- The Mach error macros, strerror, mach_error_type and mach_error_string are not modelled. The dissenter carries its system, subsystem and code, and the foreign texts are given strings.
- plist.cpp and plist.hpp are not part of this model. The hdiutil output is given as a flag, or as the list of dev-entry values.
- Pipes, posix_spawn and waitpid in runHdiutil are not modelled. A run is a given outcome: it fails with a message, or ends with a status and two captured streams.
- Server lifecycle is not modelled: RunServer, shutdownServer, openSocket, mkpath, StartArbitration and StopArbitration. These are sockets, signals, the filesystem and gRPC.
- The CLI front end is not modelled, beyond the option-to-mode mappings: cxxopts parsing, gRPC stubs, stat calls and printing.
- unixTimeToString is not modelled (gmtime and put_time). The CF conversions CFStrToStr, CFURLToStr, CFNumberTo* and getKey are not modelled either (foreign, partly floating point).
- printDiskList's locale handling and wcout output are I/O. Only the prefix rule, the widths and the padding of each value are modelled.
- CFTypes.TimeIntervalToEpoch: the double is modelled as a real. Rounding of the double itself is not modelled, and the cast is defined only for values that truncate into the uint64_t range.
- DiskList.GetColumnWidths: `it[col]` on a row without the column inserts an empty value into that row; the model reads the width 0 without changing the rows.
- DiskList.PrintValue: the padding counters are `unsigned int`; their truncation for widths of 2^32 or more is not modelled.
- DiskList.BlockPrefixes: the tree-prefix property is stated over any listing made of groups whose child rows share the group's parent. It is tied to the ordering by DiskList.OrderedDisksGroups rather than by one lemma about OrderedDisks.
- Hdiutil.SentAsWritten: a running total that an interrupted write would drive below zero wraps around in size_t and points outside the data; the model stops sending there.
- Hdiutil.StreamDataIn: the loop only follows the write results it is given; when they run out before all data is sent, the model stops, where the source would block in write.
- Server.DiskArbitratorService.ListDisks: the ordering is the std::string order; the map's iteration order is taken as the ascending key order that std::map guarantees.
- The MountMode numbering of `diskarbitrator.proto` is not part of this model. The numeric value of the constant MOUNT_RDONLY, which attachDisk tests in place of the mode, is a parameter (`rdonlyValue`) of Hdiutil.AttachDisk and Server.DiskArbitratorService.AttachDisk, and the attach finding is stated for every value of it.
- Protobuf field access by `has_` accessors is modelled by Option fields with getters that return the protobuf default when a field is absent.

## Findings

| source | as written | input that shows it | evidently intended | confidence | as-written member | corrected member |
|---|---|---|---|---|---|---|
| src/diskarbitratord/hdiutil.cpp:280 | the read-only branch tests the enum constant MOUNT_RDONLY instead of the requested mode | attach with MOUNT_RDWR gets "-readonly" when the constant is non-zero; with MOUNT_RDONLY it gets no flag when the constant is zero | "-readonly" exactly for a read-only attach | not executed | Hdiutil.AttachModeIgnoresRdonly | Hdiutil.AttachModeFlags |
| src/diskarbitratord/hdiutil.cpp:90 | every read appends a whole READ_BUFFER_SIZE buffer, whatever the count returned, and so does an interrupted read | a child that writes "ok" yields 16384 characters of output instead of 2 | append exactly the bytes read, nothing for an interrupted read | not executed | Hdiutil.StreamDataOutAsWritten | Hdiutil.StreamDataOut |
| src/diskarbitratord/hdiutil.cpp:72 | after an interrupted write, -1 is added to the running total | data "ab": 1 byte written, then an interruption, then 2 bytes written; the child receives "aab" | retry from the same offset | not executed | Hdiutil.StreamInResendsAfterInterrupt | Hdiutil.StreamDataIn |
| src/diskarbitratord/diskarbitration.cpp:101 | the cascade loops over the children of the freshly generated record, which genDisk never fills | whole disk "disk2" with registered slice "disk2s1" disappears; "disk2s1" stays registered, naming "disk2" as its parent | remove the registered children of the disappearing disk | not executed | Events.DisappearedAsWrittenLeavesOrphans | Events.DisappearedLeavesNoOrphans |
