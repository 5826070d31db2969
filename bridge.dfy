/** The platform-facing half of diskarbitration.cpp that does not touch the
    service object: the mount-approval decision, decoding of a completion's
    dissenter into an error text (checkSuccess, genErrorDescription), and the
    mount, unmount and eject operations with their guards.

    Each native DiskArbitration call is replaced by an oracle: the operation is
    given the dissenter its completion callback would receive (None for NULL,
    i.e. success) and returns, next to its result, the list of native requests it
    issued, so that "fails before any native call" reads "issued == []". */
module Bridge {
  import opened Wrappers
  import opened Strings
  import opened DiskTypes

  // XNU error systems
  const ERR_KERN: int := 0x00
  const ERR_US: int := 0x01
  const ERR_SERVER: int := 0x02
  const ERR_IPC: int := 0x03
  const ERR_MACH_IPC: int := 0x04
  const ERR_DIPC: int := 0x07
  const ERR_LOCAL: int := 0x3E
  const ERR_IPC_COMPAT: int := 0x3F

  // XNU error subsystems
  const SUB_UNIX: int := 0x03
  const SUB_DISKARBITRATION: int := 0x368

  // DiskArbitration error codes
  const ERROR_SUCCESS: int := 0x00
  const ERROR_ERROR: int := 0x01
  const ERROR_BUSY: int := 0x02
  const ERROR_BAD_ARGUMENT: int := 0x03
  const ERROR_EXCLUSIVE_ACCESS: int := 0x04
  const ERROR_NO_RESOURCES: int := 0x05
  const ERROR_NOT_FOUND: int := 0x06
  const ERROR_NOT_MOUNTED: int := 0x07
  const ERROR_NOT_PERMITTED: int := 0x08
  const ERROR_NOT_PRIVILEGED: int := 0x09
  const ERROR_NOT_READY: int := 0x0A
  const ERROR_NOT_WRITABLE: int := 0x0B
  const ERROR_UNSUPPORTED: int := 0x0C

  // ---------------------------------------------------------------------------
  // Mount approval

  datatype Decision = Allow | Deny | RemountRo

  /** approveMount: allow when arbitration is off or the mount is one of ours;
      otherwise deny (BLOCK) or deny and remount read-only (RDONLY). */
  function ApproveMount(mode: ArbitrationMode, ourMount: bool): (d: Decision)
    ensures d == Allow <==> (mode == ArbitratorNone || ourMount)
    ensures d == Deny <==> (mode == ArbitratorBlock && !ourMount)
    ensures d == RemountRo <==> (mode == ArbitratorRdonly && !ourMount)
  {
    if ourMount then Allow
    else match mode
      case ArbitratorNone => Allow
      case ArbitratorBlock => Deny
      case ArbitratorRdonly => RemountRo
  }

  const BLOCKED_MESSAGE := "Mounts in this system are currently blocked"
  const FORCED_RDONLY_MESSAGE := "Forcing mount read-only"

  // ---------------------------------------------------------------------------
  // Dissenters and their decoding

  /** A DAReturn status as checkSuccess sees it: the value itself (as an int),
      its decomposition by err_get_system / err_get_sub / err_get_code, and the
      texts strerror(code), mach_error_type(status) and mach_error_string(status)
      (None for a NULL result), all taken as given. */
  datatype DAStatus = DAStatus(
    raw: int, system: int, subsystem: int, code: int,
    strerrorText: string, machErrorType: Option<string>, machErrorString: Option<string>)

  /** A DADissenterRef: its status and its optional status string. */
  datatype Dissenter = Dissenter(status: DAStatus, statusString: Option<string>)

  /** The dissenter the approval callback creates to refuse a mount:
      kDAReturnNotPermitted, i.e. (local/diskarbitration) code ERROR_NOT_PERMITTED. */
  function NotPermitted(message: string): (d: Dissenter)
    ensures d.status.system == ERR_LOCAL && d.status.subsystem == SUB_DISKARBITRATION
    ensures d.status.code == ERROR_NOT_PERMITTED
    ensures d.statusString == Some(message)
  {
    Dissenter(DAStatus(0xF8DA0008 - 0x1_0000_0000, ERR_LOCAL, SUB_DISKARBITRATION, ERROR_NOT_PERMITTED,
                       "", None, None),
              Some(message))
  }

  /** genErrorDescription: the fixed texts of the DiskArbitration codes. */
  function GenErrorDescription(errCode: int): string {
    if errCode == ERROR_SUCCESS then "Success"
    else if errCode == ERROR_ERROR then "Undetermined error"
    else if errCode == ERROR_BUSY then "Resource is busy"
    else if errCode == ERROR_BAD_ARGUMENT then "Bad argument"
    else if errCode == ERROR_EXCLUSIVE_ACCESS then "Exclusive access to resource denied"
    else if errCode == ERROR_NO_RESOURCES then "No resources available"
    else if errCode == ERROR_NOT_FOUND then "Not found"
    else if errCode == ERROR_NOT_MOUNTED then "Not mounted"
    else if errCode == ERROR_NOT_PERMITTED then "Not permitted"
    else if errCode == ERROR_NOT_PRIVILEGED then "Not enough privileges for this request"
    else if errCode == ERROR_NOT_READY then "Resource not ready"
    else if errCode == ERROR_NOT_WRITABLE then "Resource is not writable"
    else if errCode == ERROR_UNSUPPORTED then "Unsupported"
    else "UNKNOWN ERROR CODE"
  }

  /** The reading direction of the table: which code a description names.
      Each text is recognised by its length first, then by its characters. */
  function ErrorCodeOfDescription(text: string): Option<int> {
    if |text| == 7 && text == "Success" then Some(ERROR_SUCCESS)
    else if |text| == 18 && text == "Undetermined error" then Some(ERROR_ERROR)
    else if |text| == 16 && text == "Resource is busy" then Some(ERROR_BUSY)
    else if |text| == 12 && text == "Bad argument" then Some(ERROR_BAD_ARGUMENT)
    else if |text| == 35 && text == "Exclusive access to resource denied" then Some(ERROR_EXCLUSIVE_ACCESS)
    else if |text| == 22 && text == "No resources available" then Some(ERROR_NO_RESOURCES)
    else if |text| == 9 && text == "Not found" then Some(ERROR_NOT_FOUND)
    else if |text| == 11 && text == "Not mounted" then Some(ERROR_NOT_MOUNTED)
    else if |text| == 13 && text == "Not permitted" then Some(ERROR_NOT_PERMITTED)
    else if |text| == 38 && text == "Not enough privileges for this request" then Some(ERROR_NOT_PRIVILEGED)
    else if |text| == 18 && text == "Resource not ready" then Some(ERROR_NOT_READY)
    else if |text| == 24 && text == "Resource is not writable" then Some(ERROR_NOT_WRITABLE)
    else if |text| == 11 && text == "Unsupported" then Some(ERROR_UNSUPPORTED)
    else None
  }

  /** The table gives each of the 13 codes its own text and every other code the
      fallback text, so the description identifies the code: reading it back
      gives the code for a known one and nothing for an unknown one. */
  lemma ErrorDescriptionIdentifiesCode(errCode: int)
    ensures (0 <= errCode <= 12) <==> GenErrorDescription(errCode) != "UNKNOWN ERROR CODE"
    ensures ErrorCodeOfDescription(GenErrorDescription(errCode))
            == if 0 <= errCode <= 12 then Some(errCode) else None
  {
    if errCode < 0 || errCode > 12 {
      assert GenErrorDescription(errCode) == "UNKNOWN ERROR CODE";
    } else if errCode <= 3 {
      CodesZeroToThreeReadBack(errCode);
    } else if errCode <= 6 {
      CodesFourToSixReadBack(errCode);
    } else if errCode <= 9 {
      CodesSevenToNineReadBack(errCode);
    } else {
      CodesTenToTwelveReadBack(errCode);
    }
  }

  lemma CodesZeroToThreeReadBack(errCode: int)
    requires 0 <= errCode <= 3
    ensures GenErrorDescription(errCode) != "UNKNOWN ERROR CODE"
    ensures ErrorCodeOfDescription(GenErrorDescription(errCode)) == Some(errCode)
  {
    if errCode == 0 {
      assert GenErrorDescription(0) == "Success";
    } else if errCode == 1 {
      assert GenErrorDescription(1) == "Undetermined error";
    } else if errCode == 2 {
      assert GenErrorDescription(2) == "Resource is busy";
    } else {
      assert GenErrorDescription(3) == "Bad argument";
    }
  }

  lemma CodesFourToSixReadBack(errCode: int)
    requires 4 <= errCode <= 6
    ensures GenErrorDescription(errCode) != "UNKNOWN ERROR CODE"
    ensures ErrorCodeOfDescription(GenErrorDescription(errCode)) == Some(errCode)
  {
    if errCode == 4 {
      assert GenErrorDescription(4) == "Exclusive access to resource denied";
    } else if errCode == 5 {
      assert GenErrorDescription(5) == "No resources available";
    } else {
      assert GenErrorDescription(6) == "Not found";
    }
  }

  lemma CodesSevenToNineReadBack(errCode: int)
    requires 7 <= errCode <= 9
    ensures GenErrorDescription(errCode) != "UNKNOWN ERROR CODE"
    ensures ErrorCodeOfDescription(GenErrorDescription(errCode)) == Some(errCode)
  {
    if errCode == 7 {
      assert GenErrorDescription(7) == "Not mounted";
    } else if errCode == 8 {
      assert GenErrorDescription(8) == "Not permitted";
    } else {
      assert GenErrorDescription(9) == "Not enough privileges for this request";
    }
  }

  lemma CodesTenToTwelveReadBack(errCode: int)
    requires 10 <= errCode <= 12
    ensures GenErrorDescription(errCode) != "UNKNOWN ERROR CODE"
    ensures ErrorCodeOfDescription(GenErrorDescription(errCode)) == Some(errCode)
  {
    if errCode == 10 {
      assert GenErrorDescription(10) == "Resource not ready";
    } else if errCode == 11 {
      assert GenErrorDescription(11) == "Resource is not writable";
    } else {
      assert GenErrorDescription(12) == "Unsupported";
    }
  }

  /** Conversely, a text that names a code is that code's description. */
  lemma DescriptionOfNamedCode(text: string)
    ensures ErrorCodeOfDescription(text).Some? ==>
              GenErrorDescription(ErrorCodeOfDescription(text).value) == text
  {
    if |text| == 7 && text == "Success" {
      assert GenErrorDescription(0) == text;
    } else if |text| == 18 && text == "Undetermined error" {
      assert GenErrorDescription(1) == text;
    } else if |text| == 16 && text == "Resource is busy" {
      assert GenErrorDescription(2) == text;
    } else if |text| == 12 && text == "Bad argument" {
      assert GenErrorDescription(3) == text;
    } else if |text| == 35 && text == "Exclusive access to resource denied" {
      assert GenErrorDescription(4) == text;
    } else if |text| == 22 && text == "No resources available" {
      assert GenErrorDescription(5) == text;
    } else if |text| == 9 && text == "Not found" {
      assert GenErrorDescription(6) == text;
    } else if |text| == 11 && text == "Not mounted" {
      assert GenErrorDescription(7) == text;
    } else if |text| == 13 && text == "Not permitted" {
      assert GenErrorDescription(8) == text;
    } else if |text| == 38 && text == "Not enough privileges for this request" {
      assert GenErrorDescription(9) == text;
    } else if |text| == 18 && text == "Resource not ready" {
      assert GenErrorDescription(10) == text;
    } else if |text| == 24 && text == "Resource is not writable" {
      assert GenErrorDescription(11) == text;
    } else if |text| == 11 && text == "Unsupported" {
      assert GenErrorDescription(12) == text;
    } else {
      assert ErrorCodeOfDescription(text) == None;
    }
  }

  /** The three-tier decoding of checkSuccess: "" for success, the status
      string when the dissenter has one, otherwise by (system, subsystem). */
  function DecodeCompletion(dissenter: Option<Dissenter>): (r: string)
    ensures r == "" <==> dissenter.None?
  {
    match dissenter
    case None => ""
    case Some(d) =>
      var s := d.status;
      match d.statusString
      case Some(str) => "Error (Code: " + IntToString(s.raw) + "): " + str
      case None =>
        if s.system == ERR_KERN && s.subsystem == SUB_UNIX then
          "Error (errno: " + IntToString(s.code) + "): " + s.strerrorText
        else if s.system == ERR_LOCAL && s.subsystem == SUB_DISKARBITRATION then
          "Error (DA Error Code: " + IntToString(s.code) + "): " + GenErrorDescription(s.code)
        else
          "Unknown error (Code: " + UnknownErrorDetail(s)
  }

  /** The rest of the last-resort message: the status, its triple and the Mach
      error type and string where the platform has them. */
  function UnknownErrorDetail(s: DAStatus): string {
    var errMessage := s.machErrorType.GetOr("")
                      + (if s.machErrorString.Some? then " " + s.machErrorString.value else "");
    IntToString(s.raw) + "): System: " + IntToString(s.system)
    + ", Subsystem: " + IntToString(s.subsystem) + ", Code: " + IntToString(s.code) + " " + errMessage
  }

  /** The tiers of the decoding, as a classification of the dissenter ... */
  datatype ErrorTier = NoError | StatusText | Errno | DAError | UnknownError

  function TierOf(dissenter: Option<Dissenter>): ErrorTier {
    match dissenter
    case None => NoError
    case Some(d) =>
      if d.statusString.Some? then StatusText
      else if d.status.system == ERR_KERN && d.status.subsystem == SUB_UNIX then Errno
      else if d.status.system == ERR_LOCAL && d.status.subsystem == SUB_DISKARBITRATION then DAError
      else UnknownError
  }

  predicate StartsWith(s: string, prefix: string) {
    |prefix| <= |s| && s[..|prefix|] == prefix
  }

  /** ... and as a classification of the decoded text, by its prefix. */
  function TierOfText(text: string): ErrorTier {
    if text == "" then NoError
    else if StartsWith(text, "Error (Code: ") then StatusText
    else if StartsWith(text, "Error (errno: ") then Errno
    else if StartsWith(text, "Error (DA Error Code: ") then DAError
    else if StartsWith(text, "Unknown error (Code: ") then UnknownError
    else NoError
  }

  lemma StatusTextTier(tail: string)
    ensures TierOfText("Error (Code: " + tail) == StatusText
  {
    var r := "Error (Code: " + tail;
    assert r[..13] == "Error (Code: ";
  }

  lemma ErrnoTier(tail: string)
    ensures TierOfText("Error (errno: " + tail) == Errno
  {
    var r := "Error (errno: " + tail;
    assert r[..14] == "Error (errno: ";
    assert r[7] == 'e';
  }

  lemma DAErrorTier(tail: string)
    ensures TierOfText("Error (DA Error Code: " + tail) == DAError
  {
    var r := "Error (DA Error Code: " + tail;
    assert r[..22] == "Error (DA Error Code: ";
    assert r[7] == 'D';
  }

  lemma UnknownErrorTier(tail: string)
    ensures TierOfText("Unknown error (Code: " + tail) == UnknownError
  {
    var r := "Unknown error (Code: " + tail;
    assert r[..21] == "Unknown error (Code: ";
    assert r[0] == 'U';
  }

  lemma DADecodeTier(d: Dissenter)
    requires TierOf(Some(d)) == DAError
    ensures TierOfText(DecodeCompletion(Some(d))) == DAError
    ensures DecodeCompletion(Some(d))
            == "Error (DA Error Code: " + IntToString(d.status.code) + "): " + GenErrorDescription(d.status.code)
  {
    var tail := IntToString(d.status.code) + "): " + GenErrorDescription(d.status.code);
    assert DecodeCompletion(Some(d)) == "Error (DA Error Code: " + tail;
    DAErrorTier(tail);
  }

  /** Every decoded error names its own tier: a caller can tell from the text
      alone which branch of checkSuccess produced it, and the DA tier ends with
      the table's description of the code. */
  lemma DecodeNamesTier(dissenter: Option<Dissenter>)
    ensures TierOfText(DecodeCompletion(dissenter)) == TierOf(dissenter)
    ensures TierOf(dissenter) == DAError ==>
              exists p :: DecodeCompletion(dissenter) == p + GenErrorDescription(dissenter.value.status.code)
  {
    if dissenter.Some? {
      var d := dissenter.value;
      var s := d.status;
      match TierOf(dissenter)
      case StatusText =>
        var tail := IntToString(s.raw) + "): " + d.statusString.value;
        assert DecodeCompletion(dissenter) == "Error (Code: " + tail;
        StatusTextTier(tail);
      case Errno =>
        var tail := IntToString(s.code) + "): " + s.strerrorText;
        assert DecodeCompletion(dissenter) == "Error (errno: " + tail;
        ErrnoTier(tail);
      case DAError =>
        DADecodeTier(d);
        var p := "Error (DA Error Code: " + IntToString(s.code) + "): ";
        assert DecodeCompletion(dissenter) == p + GenErrorDescription(s.code);
      case UnknownError =>
        UnknownErrorTier(UnknownErrorDetail(s));
    }
  }

  /** The one-shot channel (std::promise / std::future) that carries an
      operation's decoded error from its completion callback to the caller. */
  class Promise {
    var value: Option<string>

    constructor ()
      ensures value == None
    {
      value := None;
    }

    method SetValue(v: string)
      requires value.None?
      modifies this
      ensures value == Some(v)
    {
      value := Some(v);
    }
  }

  /** checkSuccess: the completion callback; sets the promise exactly once. */
  method CheckSuccess(dissenter: Option<Dissenter>, promise: Promise)
    requires promise.value.None?
    modifies promise
    ensures promise.value == Some(DecodeCompletion(dissenter))
  {
    var errorString := "";
    if dissenter.Some? {
      errorString := DecodeCompletion(dissenter);
    }
    promise.SetValue(errorString);
  }

  // ---------------------------------------------------------------------------
  // genDisk without a service instance

  /** genDisk(disk) with no instance: the record of the disk, its parent's name
      set for a non-whole disk whose whole disk the platform reports. The
      children are never filled in. */
  function GenRecord(raw: RawDisk): Disk {
    var parent := if !raw.description.IsWhole() && raw.wholeDisk.Some? then raw.wholeDisk.value.bsdName else "";
    Disk(raw.bsdName, parent, [], raw.description)
  }

  // ---------------------------------------------------------------------------
  // Mount, unmount and eject

  /** A native request issued to DiskArbitration: DADiskMountWithArguments
      (with its URL, None for NULL, and its argument vector), DADiskUnmount
      (with kDADiskUnmountOptionWhole or not) and DADiskEject. */
  datatype NativeRequest =
    | MountRequest(disk: string, url: Option<string>, arguments: seq<string>)
    | UnmountRequest(disk: string, whole: bool)
    | EjectRequest(disk: string)

  /** What the platform does during one mountDisk: whether DADiskCreateFromBSDName
      succeeds before and after the mount, the completion's dissenter, and the
      description genDisk reads back after the mount. */
  datatype MountPlatform = MountPlatform(
    diskRefOk: bool, completion: Option<Dissenter>, rereadOk: bool, remounted: Description)

  /** The argument vector of a mount: the caller's, then for a read-only mount
      "-j" (HFS only) and "rdonly". */
  function MountArguments(mode: MountMode, volumeKind: string, args: seq<string>): (r: seq<string>)
    ensures mode != MountRdonly ==> r == args
    ensures mode == MountRdonly ==> |r| == |args| + (if volumeKind == "hfs" then 2 else 1)
    ensures r[..|args|] == args
    ensures mode == MountRdonly ==> r[|r| - 1] == "rdonly"
    ensures mode == MountRdonly ==> ("-j" in r[|args|..] <==> volumeKind == "hfs")
  {
    if mode == MountRdonly then
      var r := args + (if volumeKind == "hfs" then ["-j"] else []) + ["rdonly"];
      assert r[|args|..] == (if volumeKind == "hfs" then ["-j", "rdonly"] else ["rdonly"]);
      r
    else args
  }

  datatype MountOutcome = MountOutcome(result: Result<string, string>, issued: seq<NativeRequest>)

  /** The specification of mountDisk. */
  function MountSpec(disk: Disk, mode: MountMode, args: seq<string>, path: string, platform: MountPlatform): MountOutcome {
    var desc := disk.description;
    if desc.volumeMountable == Some(false) then
      MountOutcome(Failure("Disk is not mountable"), [])
    else if desc.volumePath.Some? && |desc.volumePath.value| > 0 then
      MountOutcome(Failure("Disk is already mounted"), [])
    else if !platform.diskRefOk then
      MountOutcome(Failure("Unable to obtain disk reference"), [])
    else
      var request := MountRequest(disk.id, if |path| > 0 then Some(path) else None,
                                  MountArguments(mode, desc.VolumeKind(), args));
      MountOutcome(MountCompletion(platform), [request])
  }

  /** The result of a mount once the native request is issued: the decoded
      completion, then the re-read of the disk and its mount path. */
  function MountCompletion(platform: MountPlatform): Result<string, string> {
    var error := DecodeCompletion(platform.completion);
    if |error| > 0 then Failure("Error mounting disk: " + error)
    else if !platform.rereadOk then Failure("Unable to obtain disk reference after mount")
    else if platform.remounted.volumePath.None? then
      Failure("Disk has no mountpoint even after mount operation completed")
    else Success(platform.remounted.volumePath.value)
  }

  /** The guards of mountDisk: an explicitly unmountable or already mounted disk
      is refused before any native call; otherwise exactly one mount request is
      issued, and the mount succeeds exactly when the completion reports no
      dissenter and the re-read disk has a mount path, which is then returned. */
  lemma MountGuards(disk: Disk, mode: MountMode, args: seq<string>, path: string, platform: MountPlatform)
    ensures var o := MountSpec(disk, mode, args, path, platform);
      && (disk.description.volumeMountable == Some(false) ==> o.result.Failure? && o.issued == [])
      && (disk.description.volumePath.Some? && disk.description.volumePath.value != "" ==>
            o.result.Failure? && o.issued == [])
      && (o.issued != [] ==> o.issued == [MountRequest(disk.id, if path == "" then None else Some(path),
                                      MountArguments(mode, disk.description.VolumeKind(), args))])
      && (o.result.Success? <==>
            (o.issued != [] && platform.completion.None? && platform.rereadOk
             && platform.remounted.volumePath.Some?))
      && (o.result.Success? ==> o.result.value == platform.remounted.volumePath.value)
      && (o.issued != [] && platform.completion.Some? ==>
            o.result == Failure("Error mounting disk: " + DecodeCompletion(platform.completion)))
  {
    var desc := disk.description;
    if desc.volumeMountable != Some(false) && !(desc.volumePath.Some? && |desc.volumePath.value| > 0)
       && platform.diskRefOk {
      var error := DecodeCompletion(platform.completion);
      assert |error| > 0 <==> platform.completion.Some?;
      assert (if |path| > 0 then Some(path) else None) == (if path == "" then None else Some(path));
    }
  }

  /** mountDisk. */
  method MountDisk(disk: Disk, mode: MountMode, args: seq<string>, path: string, platform: MountPlatform)
    returns (r: Result<string, string>, issued: seq<NativeRequest>)
    ensures MountOutcome(r, issued) == MountSpec(disk, mode, args, path, platform)
  {
    issued := [];
    if disk.description.volumeMountable.Some? && !disk.description.volumeMountable.value {
      return Failure("Disk is not mountable"), issued;
    }
    if disk.description.volumePath.Some? && |disk.description.volumePath.value| > 0 {
      return Failure("Disk is already mounted"), issued;
    }
    var argv := MountArgv(mode, disk.description.VolumeKind(), args);
    if !platform.diskRefOk {
      return Failure("Unable to obtain disk reference"), issued;
    }
    var url: Option<string> := if |path| > 0 then Some(path) else None;
    issued := [MountRequest(disk.id, url, argv)];
    r := AwaitMount(platform);
  }

  /** The argument vector of mountDisk: the options appended for a read-only
      mount, then copied one by one into the vector handed to the platform. */
  method MountArgv(mode: MountMode, volumeKind: string, args: seq<string>) returns (argv: seq<string>)
    ensures argv == MountArguments(mode, volumeKind, args)
  {
    var mountArgs := args;
    if mode == MountRdonly {
      if volumeKind == "hfs" {
        mountArgs := mountArgs + ["-j"];
      }
      mountArgs := mountArgs + ["rdonly"];
    }
    argv := [];
    for i := 0 to |mountArgs|
      invariant argv == mountArgs[..i]
    {
      argv := argv + [mountArgs[i]];
    }
    assert mountArgs[..|mountArgs|] == mountArgs;
  }

  /** The tail of mountDisk: wait for the completion through the promise, then
      read the disk back and return its mount path. */
  method AwaitMount(platform: MountPlatform) returns (r: Result<string, string>)
    ensures r == MountCompletion(platform)
  {
    var errorPromise := new Promise();
    CheckSuccess(platform.completion, errorPromise);
    var error := errorPromise.value.value;
    if |error| > 0 {
      return Failure("Error mounting disk: " + error);
    }
    if !platform.rereadOk {
      return Failure("Unable to obtain disk reference after mount");
    }
    if platform.remounted.volumePath.None? {
      return Failure("Disk has no mountpoint even after mount operation completed");
    }
    r := Success(platform.remounted.volumePath.value);
  }


  datatype VoidOutcome = VoidOutcome(result: Outcome<string>, issued: seq<NativeRequest>)

  /** The specification of unmountDisk. */
  function UnmountSpec(disk: Disk, completion: Option<Dissenter>): VoidOutcome {
    if disk.description.volumePath == Some("") then
      VoidOutcome(Fail("Disk is not mounted"), [])
    else
      var error := DecodeCompletion(completion);
      VoidOutcome(if |error| > 0 then Fail("Error unmounting disk: " + error) else Pass,
                  [UnmountRequest(disk.id, disk.description.IsWhole())])
  }

  /** unmountDisk refuses only a disk whose mount path is present and empty (an
      absent one proceeds), and unmounts the whole disk exactly when media_whole
      is true; it succeeds exactly when the completion has no dissenter. */
  lemma UnmountGuards(disk: Disk, completion: Option<Dissenter>)
    ensures var o := UnmountSpec(disk, completion);
      && (o.issued == [] <==> disk.description.volumePath == Some(""))
      && (o.issued != [] ==> o.issued == [UnmountRequest(disk.id, disk.description.mediaWhole == Some(true))])
      && (o.result.Pass? <==> (o.issued != [] && completion.None?))
  {
  }

  /** unmountDisk. */
  method UnmountDisk(disk: Disk, completion: Option<Dissenter>) returns (r: Outcome<string>, issued: seq<NativeRequest>)
    ensures VoidOutcome(r, issued) == UnmountSpec(disk, completion)
  {
    if disk.description.volumePath.Some? && |disk.description.volumePath.value| == 0 {
      return Fail("Disk is not mounted"), [];
    }
    var whole := disk.description.IsWhole();
    var errorPromise := new Promise();
    issued := [UnmountRequest(disk.id, whole)];
    CheckSuccess(completion, errorPromise);
    var error := errorPromise.value.value;
    if |error| > 0 {
      return Fail("Error unmounting disk: " + error), issued;
    }
    r := Pass;
  }

  /** The specification of ejectDisk: unmountCompletion is the completion of the
      preliminary unmount, ejectCompletion that of the eject. */
  function EjectSpec(disk: Disk, unmountCompletion: Option<Dissenter>, ejectCompletion: Option<Dissenter>): VoidOutcome {
    if disk.description.mediaEjectable == Some(false) then
      VoidOutcome(Fail("Disk is not ejectable"), [])
    else
      var pre := if |disk.children| > 0 then UnmountSpec(disk, unmountCompletion).issued else [];
      var error := DecodeCompletion(ejectCompletion);
      VoidOutcome(if |error| > 0 then Fail("Error ejecting disk: " + error) else Pass,
                  pre + [EjectRequest(disk.id)])
  }

  /** ejectDisk refuses an explicitly non-ejectable disk before any native call;
      otherwise it always ends with the eject request, tries the unmount first
      only for a disk with children, and its result does not depend on how that
      unmount went. */
  lemma EjectIgnoresUnmount(disk: Disk, u1: Option<Dissenter>, u2: Option<Dissenter>, e: Option<Dissenter>)
    ensures var o := EjectSpec(disk, u1, e);
      && (disk.description.mediaEjectable == Some(false) <==> o.issued == [])
      && (o.issued != [] ==> o.issued[|o.issued| - 1] == EjectRequest(disk.id))
      && (|o.issued| > 1 <==> (o.issued != [] && |disk.children| > 0 && disk.description.volumePath != Some("")))
      && EjectSpec(disk, u2, e).result == o.result
      && (o.issued != [] ==> (o.result.Pass? <==> e.None?))
  {
  }

  /** ejectDisk. */
  method EjectDisk(disk: Disk, unmountCompletion: Option<Dissenter>, ejectCompletion: Option<Dissenter>)
    returns (r: Outcome<string>, issued: seq<NativeRequest>)
    ensures VoidOutcome(r, issued) == EjectSpec(disk, unmountCompletion, ejectCompletion)
  {
    if disk.description.mediaEjectable.Some? && !disk.description.mediaEjectable.value {
      return Fail("Disk is not ejectable"), [];
    }
    issued := [];
    if |disk.children| > 0 {
      var unmounted, unmountIssued := UnmountDisk(disk, unmountCompletion);
      // a failure of the preliminary unmount is ignored
      issued := unmountIssued;
    }
    var errorPromise := new Promise();
    issued := issued + [EjectRequest(disk.id)];
    CheckSuccess(ejectCompletion, errorPromise);
    var error := errorPromise.value.value;
    if |error| > 0 {
      return Fail("Error ejecting disk: " + error), issued;
    }
    r := Pass;
  }
}
