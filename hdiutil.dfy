/** hdiutil.cpp: attaching a disk image by running hdiutil(1).

    The child process is an oracle: each run is described by a RunOutcome
    (a failure of the pipe/spawn/wait/stream machinery, or the wait status and
    the captured output), and the values the plist parser would extract from
    the output (the "encrypted" flag, the SLA flag, the dev-entry strings of the
    system-entities array) are given with it. An operation returns, next to its
    result, the list of hdiutil invocations it made. */
module Hdiutil {
  import opened Wrappers
  import opened Strings
  import opened DiskTypes

  const HDIUTIL_PATH := "/usr/bin/hdiutil"
  /** The size of the stream buffer, that of the XNU pipe buffer. */
  const READ_BUFFER_SIZE: nat := 16384

  // ---------------------------------------------------------------------------
  // runHdiutil

  /** How waitpid reports the end of the child. */
  datatype WaitStatus = Exited(exitStatus: int) | Signaled(termSignal: int)

  /** The return code of a run: the exit status, or the number of the signal
      that terminated the child. */
  function ReturnCode(w: WaitStatus): (code: int)
    ensures w.Exited? ==> code == w.exitStatus
    ensures w.Signaled? ==> code == w.termSignal
  {
    match w
    case Exited(s) => s
    case Signaled(sig) => sig
  }

  datatype CommandOutput = CommandOutput(retCode: int, stdout: string, stderr: string)

  /** What happens to one run of the child: runHdiutil throws (pipe, spawn,
      wait or stream failure, with its message), or the child ends. */
  datatype RunOutcome =
    | RunFailed(message: string)
    | RunCompleted(status: WaitStatus, stdout: string, stderr: string)

  /** One invocation of hdiutil: its argument vector (without the closing NULL)
      and the data written to its standard input. */
  datatype Invocation = Invocation(argv: seq<string>, stdinData: string)

  /** The argument vector of runHdiutil: the executable path, the command, the
      extra arguments, and the image path unless it is empty. */
  function Argv(command: string, image: string, extraArgs: seq<string>): (argv: seq<string>)
    ensures |argv| == 2 + |extraArgs| + (if image != "" then 1 else 0)
    ensures argv[0] == HDIUTIL_PATH && argv[1] == command
    ensures argv[2..2 + |extraArgs|] == extraArgs
    ensures image != "" ==> argv[|argv| - 1] == image
  {
    [HDIUTIL_PATH, command] + extraArgs + (if image != "" then [image] else [])
  }

  /** The argv construction of runHdiutil, push_back by push_back. */
  method BuildArgv(command: string, image: string, extraArgs: seq<string>) returns (argv: seq<string>)
    ensures argv == Argv(command, image, extraArgs)
  {
    argv := [HDIUTIL_PATH];
    argv := argv + [command];
    for i := 0 to |extraArgs|
      invariant argv == [HDIUTIL_PATH, command] + extraArgs[..i]
    {
      argv := argv + [extraArgs[i]];
    }
    assert extraArgs[..|extraArgs|] == extraArgs;
    if |image| > 0 {
      argv := argv + [image];
    }
  }

  /** runHdiutil's result for a given outcome of the child. */
  function RunResult(outcome: RunOutcome): (r: Result<CommandOutput, string>)
    ensures outcome.RunFailed? <==> r.Failure?
    ensures r.Success? ==> r.value.retCode == ReturnCode(outcome.status)
                           && r.value.stdout == outcome.stdout && r.value.stderr == outcome.stderr
  {
    match outcome
    case RunFailed(message) => Failure(message)
    case RunCompleted(status, out, err) => Success(CommandOutput(ReturnCode(status), out, err))
  }

  /** The check every caller makes: a non-zero return code is an error naming
      the code and the captured standard error. */
  function Checked(r: Result<CommandOutput, string>): (c: Result<CommandOutput, string>)
    ensures c.Success? <==> (r.Success? && r.value.retCode == 0)
    ensures c.Success? ==> c == r
    ensures r.Success? && r.value.retCode != 0 ==>
              c == Failure("hdiutil returned: " + IntToString(r.value.retCode) + ". Error: " + r.value.stderr)
  {
    if r.Success? && r.value.retCode != 0 then
      Failure("hdiutil returned: " + IntToString(r.value.retCode) + ". Error: " + r.value.stderr)
    else r
  }

  // ---------------------------------------------------------------------------
  // attachDisk

  /** What happens to the three runs of an attach, and what the plist parser
      reads from their output. */
  datatype AttachPlatform = AttachPlatform(
    encryptedRun: RunOutcome, encrypted: bool,
    imageInfoRun: RunOutcome, hasSla: bool,
    attachRun: RunOutcome, devEntries: seq<string>)

  /** The mode options of the attach, as the code is evidently meant to choose
      them: only attach for MOUNT_NONE, read-only for MOUNT_RDONLY. */
  function AttachModeFlags(mode: MountMode): (flags: seq<string>)
    ensures flags == ["-nomount"] <==> mode == MountNone
    ensures flags == ["-readonly"] <==> mode == MountRdonly
    ensures flags == [] <==> mode == MountRdwr
  {
    match mode
    case MountNone => ["-nomount"]
    case MountRdonly => ["-readonly"]
    case MountRdwr => []
  }

  /** The mode options as written: the else-branch tests the enum constant
      MOUNT_RDONLY (whose numeric value is rdonlyValue) instead of the mode. */
  function AttachModeFlagsAsWritten(mode: MountMode, rdonlyValue: int): seq<string> {
    if mode == MountNone then ["-nomount"]
    else if rdonlyValue != 0 then ["-readonly"]
    else []
  }

  /** Whatever the value of the constant, the code as written cannot tell a
      read-only from a read-write attach; the intended choice can. */
  lemma AttachModeIgnoresRdonly(rdonlyValue: int)
    ensures AttachModeFlagsAsWritten(MountRdonly, rdonlyValue) == AttachModeFlagsAsWritten(MountRdwr, rdonlyValue)
    ensures AttachModeFlags(MountRdonly) != AttachModeFlags(MountRdwr)
  {
  }

  /** The input of the attach run: the password line when there is a password,
      then the answer to the licence prompt when the image has an SLA. */
  function AttachStdin(password: string, hasSla: bool): string {
    (if password != "" then password + "\n" else "") + (if hasSla then "Y\n" else "")
  }

  /** The options of the attach run, as written: the mode options are those
      of AttachModeFlagsAsWritten for the enum constant's value rdonlyValue. */
  function AttachArgs(password: string, mode: MountMode, rdonlyValue: int): seq<string> {
    ["-plist", "-noverify"] + (if password != "" then ["-stdinpass"] else [])
      + AttachModeFlagsAsWritten(mode, rdonlyValue)
  }

  /** The options of the attach run with the mode options as intended. */
  function IntendedAttachArgs(password: string, mode: MountMode): seq<string> {
    ["-plist", "-noverify"] + (if password != "" then ["-stdinpass"] else []) + AttachModeFlags(mode)
  }

  /** As written, the attach options of a read-only and of a read-write attach
      are the same; they agree with the intended options exactly for no mount,
      for read-only when the constant is non-zero and for read-write when it is
      zero. As intended, different modes give different options. */
  lemma AttachArgsAsWritten(password: string, mode: MountMode, rdonlyValue: int)
    ensures AttachArgs(password, MountRdonly, rdonlyValue) == AttachArgs(password, MountRdwr, rdonlyValue)
    ensures AttachArgs(password, mode, rdonlyValue) == IntendedAttachArgs(password, mode) <==>
      mode == MountNone || (mode == MountRdonly && rdonlyValue != 0) || (mode == MountRdwr && rdonlyValue == 0)
    ensures forall other: MountMode ::
      IntendedAttachArgs(password, mode) == IntendedAttachArgs(password, other) <==> mode == other
  {
    var prefix := ["-plist", "-noverify"] + (if password != "" then ["-stdinpass"] else []);
    forall other: MountMode
      ensures IntendedAttachArgs(password, mode) == IntendedAttachArgs(password, other) ==> mode == other
    {
      if IntendedAttachArgs(password, mode) == IntendedAttachArgs(password, other) {
        assert IntendedAttachArgs(password, mode)[|prefix|..] == AttachModeFlags(mode);
        assert IntendedAttachArgs(password, other)[|prefix|..] == AttachModeFlags(other);
      }
    }
    var written := AttachArgs(password, mode, rdonlyValue);
    var intended := IntendedAttachArgs(password, mode);
    if written == intended {
      assert written[|prefix|..] == AttachModeFlagsAsWritten(mode, rdonlyValue);
      assert intended[|prefix|..] == AttachModeFlags(mode);
    }
  }

  datatype AttachOutcome = AttachOutcome(result: Result<seq<string>, string>, runs: seq<Invocation>)

  /** The specification of attachDisk: isencrypted, then imageinfo, then attach;
      the first failure ends it. */
  function AttachSpec(path: string, mode: MountMode, rdonlyValue: int, password: string, platform: AttachPlatform): AttachOutcome {
    var encryptedQuery := Invocation(Argv("isencrypted", path, ["-plist"]), "");
    var r1 := Checked(RunResult(platform.encryptedRun));
    if r1.Failure? then AttachOutcome(Failure(r1.error), [encryptedQuery])
    else if platform.encrypted && password == "" then
      AttachOutcome(Failure("Image is encrypted and a password was not provided"), [encryptedQuery])
    else
      var rest := UnlockedAttachSpec(path, mode, rdonlyValue, password, platform);
      AttachOutcome(rest.result, [encryptedQuery] + rest.runs)
  }

  /** The part of attachDisk after the encryption check: the SLA query, then
      the attach run. */
  function UnlockedAttachSpec(path: string, mode: MountMode, rdonlyValue: int, password: string, platform: AttachPlatform): AttachOutcome {
    var slaQuery := Invocation(Argv("imageinfo", path, ["-plist"]), password);
    var attach := Invocation(Argv("attach", path, AttachArgs(password, mode, rdonlyValue)), AttachStdin(password, platform.hasSla));
    var r2 := Checked(RunResult(platform.imageInfoRun));
    if r2.Failure? then AttachOutcome(Failure(r2.error), [slaQuery])
    else AttachOutcome(AttachResult(platform), [slaQuery, attach])
  }

  /** The result of the attach run itself. */
  function AttachResult(platform: AttachPlatform): Result<seq<string>, string> {
    var r3 := Checked(RunResult(platform.attachRun));
    if r3.Failure? then Failure(r3.error) else Success(platform.devEntries)
  }

  /** isImageEncrypted: the query run and its flag. */
  method IsImageEncrypted(path: string, platform: AttachPlatform) returns (r: Result<bool, string>, run: Invocation)
    ensures run == Invocation(Argv("isencrypted", path, ["-plist"]), "")
    ensures var c := Checked(RunResult(platform.encryptedRun));
            r == if c.Failure? then Failure(c.error) else Success(platform.encrypted)
  {
    var argv := BuildArgv("isencrypted", path, ["-plist"]);
    run := Invocation(argv, "");
    var output := RunResult(platform.encryptedRun);
    if output.Failure? {
      return Failure(output.error), run;
    }
    if output.value.retCode != 0 {
      return Failure("hdiutil returned: " + IntToString(output.value.retCode) + ". Error: " + output.value.stderr), run;
    }
    r := Success(platform.encrypted);
  }

  /** imageHasSLA: the query run, fed the bare password, and its flag. */
  method ImageHasSla(path: string, password: string, platform: AttachPlatform) returns (r: Result<bool, string>, run: Invocation)
    ensures run == Invocation(Argv("imageinfo", path, ["-plist"]), password)
    ensures var c := Checked(RunResult(platform.imageInfoRun));
            r == if c.Failure? then Failure(c.error) else Success(platform.hasSla)
  {
    var argv := BuildArgv("imageinfo", path, ["-plist"]);
    run := Invocation(argv, password);
    var output := RunResult(platform.imageInfoRun);
    if output.Failure? {
      return Failure(output.error), run;
    }
    if output.value.retCode != 0 {
      return Failure("hdiutil returned: " + IntToString(output.value.retCode) + ". Error: " + output.value.stderr), run;
    }
    r := Success(platform.hasSla);
  }

  /** attachDisk. */
  method AttachDisk(path: string, mode: MountMode, rdonlyValue: int, password: string, platform: AttachPlatform)
    returns (r: Result<seq<string>, string>, runs: seq<Invocation>)
    ensures AttachOutcome(r, runs) == AttachSpec(path, mode, rdonlyValue, password, platform)
  {
    var args := ["-plist"];
    args := args + ["-noverify"];

    var encrypted, run1 := IsImageEncrypted(path, platform);
    runs := [run1];
    if encrypted.Failure? {
      return Failure(encrypted.error), runs;
    }
    if encrypted.value && password == "" {
      return Failure("Image is encrypted and a password was not provided"), runs;
    }
    var rest;
    r, rest := AttachUnlocked(path, mode, rdonlyValue, password, args, platform);
    runs := runs + rest;
  }

  /** attachDisk once the image is known to be usable: the password input and
      option, the SLA query and its answer, the mode's flags, then the run. */
  method AttachUnlocked(path: string, mode: MountMode, rdonlyValue: int, password: string, args0: seq<string>,
                        platform: AttachPlatform)
    returns (r: Result<seq<string>, string>, runs: seq<Invocation>)
    requires args0 == ["-plist", "-noverify"]
    ensures AttachOutcome(r, runs) == UnlockedAttachSpec(path, mode, rdonlyValue, password, platform)
  {
    var args := args0;
    var stdinData := "";
    if password != "" {
      stdinData := password + "\n";
      args := args + ["-stdinpass"];
    }
    assert args == ["-plist", "-noverify"] + (if password != "" then ["-stdinpass"] else []);
    var sla, run2 := ImageHasSla(path, password, platform);
    runs := [run2];
    if sla.Failure? {
      return Failure(sla.error), runs;
    }
    assert sla.value == platform.hasSla;
    if sla.value {
      stdinData := stdinData + "Y\n";
    }
    assert stdinData == AttachStdin(password, platform.hasSla);
    args := AddModeFlags(args, mode, rdonlyValue);
    assert args == AttachArgs(password, mode, rdonlyValue);
    var attachRun;
    r, attachRun := RunAttach(path, args, stdinData, platform);
    runs := runs + [attachRun];
  }


  /** The mode option of the attach run, as written: "-nomount" for no mount,
      otherwise "-readonly" exactly when the constant MOUNT_RDONLY is non-zero,
      whatever the requested mode. */
  method AddModeFlags(args: seq<string>, mode: MountMode, rdonlyValue: int) returns (r: seq<string>)
    ensures r == args + AttachModeFlagsAsWritten(mode, rdonlyValue)
    ensures mode == MountNone ==> r == args + ["-nomount"]
    ensures mode != MountNone ==> (r == args + ["-readonly"] <==> rdonlyValue != 0) && r[..|args|] == args
  {
    r := args;
    if mode == MountNone {
      r := r + ["-nomount"];
    } else if rdonlyValue != 0 {
      r := r + ["-readonly"];
    }
  }

  /** The attach run of attachDisk and the collection of the dev-entry of each
      system entity. */
  method RunAttach(path: string, args: seq<string>, stdinData: string, platform: AttachPlatform)
    returns (r: Result<seq<string>, string>, run: Invocation)
    ensures run == Invocation(Argv("attach", path, args), stdinData)
    ensures r == AttachResult(platform)
  {
    var argv := BuildArgv("attach", path, args);
    run := Invocation(argv, stdinData);
    var output := RunResult(platform.attachRun);
    if output.Failure? {
      return Failure(output.error), run;
    }
    if output.value.retCode != 0 {
      return Failure("hdiutil returned: " + IntToString(output.value.retCode) + ". Error: " + output.value.stderr), run;
    }
    var disks: seq<string> := [];
    for i := 0 to |platform.devEntries|
      invariant disks == platform.devEntries[..i]
    {
      disks := disks + [platform.devEntries[i]];
    }
    assert platform.devEntries[..|platform.devEntries|] == platform.devEntries;
    r := Success(disks);
  }

  /** The query order: an encrypted image without a password fails after the
      first query, with neither the SLA query nor the attach run, and the SLA
      query receives the bare password as its input. */
  lemma AttachQueries(path: string, mode: MountMode, rdonlyValue: int, password: string, platform: AttachPlatform)
    ensures var o := AttachSpec(path, mode, rdonlyValue, password, platform);
      && (Checked(RunResult(platform.encryptedRun)).Success? && platform.encrypted && password == "" ==>
            o.result == Failure("Image is encrypted and a password was not provided") && |o.runs| == 1)
      && (|o.runs| >= 2 ==> o.runs[1] == Invocation(Argv("imageinfo", path, ["-plist"]), password))
      && (|o.runs| == 3 ==> o.runs[2] == Invocation(Argv("attach", path, AttachArgs(password, mode, rdonlyValue)),
                                                    AttachStdin(password, platform.hasSla)))
  {
  }

  /** The attach run's options start with "-plist", "-noverify", carry
      "-stdinpass" exactly when there is a password and end with the mode
      option as written: "-nomount" for no mount, otherwise "-readonly" exactly
      when the constant is non-zero; the image path comes last. */
  lemma AttachRunOptions(path: string, mode: MountMode, rdonlyValue: int, password: string)
    ensures var argv := Argv("attach", path, AttachArgs(password, mode, rdonlyValue));
      var options := argv[2..|argv| - (if path != "" then 1 else 0)];
      && argv[..4] == [HDIUTIL_PATH, "attach", "-plist", "-noverify"]
      && options == AttachArgs(password, mode, rdonlyValue)
      && ("-stdinpass" in options <==> password != "")
      && (mode == MountNone ==> options[|options| - 1] == "-nomount")
      && (mode != MountNone && rdonlyValue != 0 ==> options[|options| - 1] == "-readonly")
      && (mode != MountNone && rdonlyValue == 0 ==> "-readonly" !in options && "-nomount" !in options)
      && (path != "" ==> argv[|argv| - 1] == path)
  {
    var args := AttachArgs(password, mode, rdonlyValue);
    var argv := Argv("attach", path, args);
    assert argv[2..|argv| - (if path != "" then 1 else 0)] == args;
    if password != "" {
      assert args[2] == "-stdinpass";
    }
  }

  /** The attach run's input: the password line first, the SLA answer last. */
  lemma AttachRunInput(password: string, hasSla: bool)
    ensures var stdin := AttachStdin(password, hasSla);
      && (password != "" ==> stdin[..|password| + 1] == password + "\n")
      && (password == "" && !hasSla <==> stdin == "")
      && (hasSla ==> stdin[|stdin| - 2..] == "Y\n")
  {
  }

  /** A run that ends with a non-zero return code stops the attach there with
      that code and the captured error output, and no disks are returned; a
      successful attach returns the dev-entry of every system entity, in order. */
  lemma AttachFailureStops(path: string, mode: MountMode, rdonlyValue: int, password: string, platform: AttachPlatform)
    ensures var o := AttachSpec(path, mode, rdonlyValue, password, platform);
      && (platform.encryptedRun.RunCompleted? && ReturnCode(platform.encryptedRun.status) != 0 ==>
            o.runs == [Invocation(Argv("isencrypted", path, ["-plist"]), "")]
            && o.result == Failure("hdiutil returned: " + IntToString(ReturnCode(platform.encryptedRun.status))
                                   + ". Error: " + platform.encryptedRun.stderr))
      && (|o.runs| == 3 && platform.attachRun.RunCompleted? && ReturnCode(platform.attachRun.status) != 0 ==>
            o.result == Failure("hdiutil returned: " + IntToString(ReturnCode(platform.attachRun.status))
                                + ". Error: " + platform.attachRun.stderr))
      && (o.result.Success? <==>
            (|o.runs| == 3 && platform.attachRun.RunCompleted? && ReturnCode(platform.attachRun.status) == 0))
      && (o.result.Success? ==> o.result.value == platform.devEntries)
  {
    var r1 := Checked(RunResult(platform.encryptedRun));
    if r1.Success? && !(platform.encrypted && password == "") {
      var rest := UnlockedAttachSpec(path, mode, rdonlyValue, password, platform);
      assert |rest.runs| == 2 <==> Checked(RunResult(platform.imageInfoRun)).Success?;
      assert rest.result.Success? <==> |rest.runs| == 2 && Checked(RunResult(platform.attachRun)).Success?;
    }
  }

  // ---------------------------------------------------------------------------
  // Streaming to and from the child (streamDataOut, streamDataIn)

  /** What one read(2) on an output pipe returns: some bytes (at most a buffer
      full), -1 with EINTR, or -1 with another errno. End of file is the end of
      the sequence. */
  datatype ReadResult = ReadData(bytes: string) | ReadInterrupted | ReadFailed

  predicate WellFormedChunks(chunks: seq<ReadResult>) {
    forall i :: 0 <= i < |chunks| && chunks[i].ReadData? ==> 0 < |chunks[i].bytes| <= READ_BUFFER_SIZE
  }

  /** The number of chunks before the first hard error (all of them if none). */
  function ReadsBeforeFailure(chunks: seq<ReadResult>): (n: nat)
    ensures n <= |chunks|
    ensures forall i :: 0 <= i < n ==> !chunks[i].ReadFailed?
    ensures n < |chunks| ==> chunks[n].ReadFailed?
  {
    if chunks == [] || chunks[0].ReadFailed? then 0 else 1 + ReadsBeforeFailure(chunks[1..])
  }

  /** The data the child wrote to the pipe, up to the first hard error. */
  function Collected(chunks: seq<ReadResult>): string {
    if chunks == [] || chunks[0].ReadFailed? then ""
    else (if chunks[0].ReadData? then chunks[0].bytes else "") + Collected(chunks[1..])
  }

  predicate HasReadFailure(chunks: seq<ReadResult>) {
    exists i :: 0 <= i < |chunks| && chunks[i].ReadFailed?
  }

  /** Block k of the output, READ_BUFFER_SIZE characters from
      READ_BUFFER_SIZE * k on, starts with bytes. */
  predicate BlockStartsWith(out: string, k: nat, bytes: string) {
    READ_BUFFER_SIZE * k + |bytes| <= |out| &&
    out[READ_BUFFER_SIZE * k .. READ_BUFFER_SIZE * k + |bytes|] == bytes
  }

  /** streamDataOut as written: every read before a hard error, an interrupted
      one included, appends the whole buffer, whatever the read returned; the
      block a successful read appends starts with the bytes it returned. */
  method StreamDataOutAsWritten(chunks: seq<ReadResult>) returns (out: string, err: bool)
    requires WellFormedChunks(chunks)
    ensures |out| == READ_BUFFER_SIZE * ReadsBeforeFailure(chunks)
    ensures err == HasReadFailure(chunks)
    ensures forall k :: 0 <= k < ReadsBeforeFailure(chunks) && chunks[k].ReadData? ==>
      BlockStartsWith(out, k, chunks[k].bytes)
  {
    var buffer := new char[READ_BUFFER_SIZE];
    out := "";
    err := false;
    var i := 0;
    while i < |chunks|
      invariant 0 <= i <= |chunks|
      invariant forall j :: 0 <= j < i ==> !chunks[j].ReadFailed?
      invariant |out| == READ_BUFFER_SIZE * i
      invariant forall j :: 0 <= j < i && chunks[j].ReadData? ==> BlockStartsWith(out, j, chunks[j].bytes)
    {
      if chunks[i].ReadFailed? {
        err := true;
        break;
      }
      if chunks[i].ReadData? {
        FillBuffer(buffer, chunks[i].bytes);
      }
      ghost var before := out;
      var block := buffer[..];
      out := out + block;
      forall j | 0 <= j < i && chunks[j].ReadData?
        ensures BlockStartsWith(out, j, chunks[j].bytes)
      {
        assert READ_BUFFER_SIZE * j + |chunks[j].bytes| <= |before|;
        assert out[READ_BUFFER_SIZE * j .. READ_BUFFER_SIZE * j + |chunks[j].bytes|]
            == before[READ_BUFFER_SIZE * j .. READ_BUFFER_SIZE * j + |chunks[j].bytes|];
      }
      if chunks[i].ReadData? {
        assert out[READ_BUFFER_SIZE * i .. READ_BUFFER_SIZE * i + |chunks[i].bytes|] == block[..|chunks[i].bytes|];
      }
      i := i + 1;
    }
  }

  /** The padding the code as written adds: its output is never shorter than
      the data, and equals it in length only when every read before the first
      hard error filled the buffer, so a single short read already corrupts it. */
  lemma {:induction false} StreamOutPadding(chunks: seq<ReadResult>)
    requires WellFormedChunks(chunks)
    ensures |Collected(chunks)| <= READ_BUFFER_SIZE * ReadsBeforeFailure(chunks)
    ensures |Collected(chunks)| == READ_BUFFER_SIZE * ReadsBeforeFailure(chunks) <==>
              forall i :: 0 <= i < ReadsBeforeFailure(chunks) ==>
                chunks[i].ReadData? && |chunks[i].bytes| == READ_BUFFER_SIZE
  {
    if chunks != [] && !chunks[0].ReadFailed? {
      var rest := chunks[1..];
      assert WellFormedChunks(rest) by {
        forall i | 0 <= i < |rest| && rest[i].ReadData?
          ensures 0 < |rest[i].bytes| <= READ_BUFFER_SIZE
        {
          assert rest[i] == chunks[i + 1];
        }
      }
      StreamOutPadding(rest);
      assert forall i :: 1 <= i < |chunks| ==> chunks[i] == rest[i - 1];
    }
  }

  /** A one-read counterexample: two bytes of output become a full buffer. */
  lemma StreamOutPadsShortRead()
    ensures Collected([ReadData("ok")]) == "ok"
    ensures READ_BUFFER_SIZE * ReadsBeforeFailure([ReadData("ok")]) == 16384
  {
  }

  /** One read(2) into the buffer: its first |bytes| cells hold the bytes. */
  method FillBuffer(buffer: array<char>, bytes: string)
    requires |bytes| <= buffer.Length
    modifies buffer
    ensures buffer[..|bytes|] == bytes
  {
    forall k | 0 <= k < |bytes| {
      buffer[k] := bytes[k];
    }
  }

  /** streamDataOut as intended: each read appends exactly the bytes it
      returned, and an interrupted read appends nothing. */
  method StreamDataOut(chunks: seq<ReadResult>) returns (out: string, err: bool)
    requires WellFormedChunks(chunks)
    ensures out == Collected(chunks)
    ensures err == HasReadFailure(chunks)
  {
    var buffer := new char[READ_BUFFER_SIZE];
    out := "";
    err := false;
    var i := 0;
    while i < |chunks|
      invariant 0 <= i <= |chunks|
      invariant forall j :: 0 <= j < i ==> !chunks[j].ReadFailed?
      invariant out + Collected(chunks[i..]) == Collected(chunks)
    {
      if chunks[i].ReadFailed? {
        err := true;
        assert Collected(chunks[i..]) == "";
        break;
      }
      ghost var step := if chunks[i].ReadData? then chunks[i].bytes else "";
      assert Collected(chunks[i..]) == step + Collected(chunks[i + 1..]) by {
        assert chunks[i..][1..] == chunks[i + 1..];
      }
      if chunks[i].ReadData? {
        var bytes := chunks[i].bytes;
        FillBuffer(buffer, bytes);
        out := out + buffer[..|bytes|];
      }
      assert out + Collected(chunks[i + 1..]) == Collected(chunks);
      i := i + 1;
    }
    assert i == |chunks| ==> Collected(chunks[i..]) == "";
  }

  /** What one write(2) on the input pipe returns. */
  datatype WriteResult = Wrote(count: nat) | WriteInterrupted | WriteFailed

  /** The bytes a write of count bytes at offset total sends (write never sends
      more than it was asked to). */
  function Sendable(data: string, total: nat, count: nat): nat
    requires total <= |data|
  {
    if count <= |data| - total then count else |data| - total
  }

  /** The bytes streamDataIn sends as written: after an interrupted write,
      -1 is added to the running total, so the previous byte is sent again.
      (A total that would drop below zero wraps around and points outside the
      data; the model stops there.) The loop is followed for as many write
      results as are given. */
  function SentAsWritten(data: string, writes: seq<WriteResult>, total: int): string
    decreases |writes|
  {
    if writes == [] || total == |data| || !(0 <= total <= |data|) then ""
    else match writes[0]
      case WriteFailed => ""
      case WriteInterrupted => SentAsWritten(data, writes[1..], total - 1)
      case Wrote(n) =>
        var k := Sendable(data, total, n);
        data[total..total + k] + SentAsWritten(data, writes[1..], total + k)
  }

  /** The bytes streamDataIn is meant to send: an interrupted write is retried
      from where it was. */
  function Sent(data: string, writes: seq<WriteResult>, total: nat): string
    requires total <= |data|
    decreases |writes|
  {
    if writes == [] || total == |data| then ""
    else match writes[0]
      case WriteFailed => ""
      case WriteInterrupted => Sent(data, writes[1..], total)
      case Wrote(n) =>
        var k := Sendable(data, total, n);
        data[total..total + k] + Sent(data, writes[1..], total + k)
  }

  /** As intended, the child receives the rest of the data in order, a prefix
      of it at every point. */
  lemma {:induction false} SentIsSuffixPrefix(data: string, writes: seq<WriteResult>, total: nat)
    requires total <= |data|
    ensures total + |Sent(data, writes, total)| <= |data|
    ensures Sent(data, writes, total) == data[total..total + |Sent(data, writes, total)|]
  {
    if writes != [] && total != |data| {
      match writes[0]
      case WriteFailed =>
      case WriteInterrupted => SentIsSuffixPrefix(data, writes[1..], total);
      case Wrote(n) =>
        var k := Sendable(data, total, n);
        SentIsSuffixPrefix(data, writes[1..], total + k);
        var rest := Sent(data, writes[1..], total + k);
        assert data[total..total + k] + data[total + k..total + k + |rest|] == data[total..total + k + |rest|];
    }
  }

  /** The code as written resends a byte after an interrupted write: "ab" with
      one byte written, an interruption and the rest written reaches the child
      as "aab"; as intended it reaches it as "ab". */
  lemma StreamInResendsAfterInterrupt()
    ensures SentAsWritten("ab", [Wrote(1), WriteInterrupted, Wrote(2)], 0) == "aab"
    ensures Sent("ab", [Wrote(1), WriteInterrupted, Wrote(2)], 0) == "ab"
  {
    AsWrittenResendsByte();
    IntendedSendsOnce();
  }

  /** The three writes of the counterexample, followed as written. */
  lemma AsWrittenResendsByte()
    ensures SentAsWritten("ab", [Wrote(1), WriteInterrupted, Wrote(2)], 0) == "aab"
  {
    var data := "ab";
    var w := [Wrote(1), WriteInterrupted, Wrote(2)];
    assert w[1..] == [WriteInterrupted, Wrote(2)] && w[1..][1..] == [Wrote(2)] && [Wrote(2)][1..] == [];
    assert SentAsWritten(data, [Wrote(2)], 0) == data[0..2] + SentAsWritten(data, [], 2);
    assert SentAsWritten(data, [Wrote(2)], 0) == "ab";
    assert SentAsWritten(data, [WriteInterrupted, Wrote(2)], 1) == "ab";
    assert SentAsWritten(data, w, 0) == data[0..1] + SentAsWritten(data, w[1..], 1);
  }

  /** The same three writes, followed as intended. */
  lemma IntendedSendsOnce()
    ensures Sent("ab", [Wrote(1), WriteInterrupted, Wrote(2)], 0) == "ab"
  {
    var data := "ab";
    var w := [Wrote(1), WriteInterrupted, Wrote(2)];
    assert w[1..] == [WriteInterrupted, Wrote(2)] && w[1..][1..] == [Wrote(2)] && [Wrote(2)][1..] == [];
    assert Sent(data, [Wrote(2)], 1) == data[1..2] + Sent(data, [], 2);
    assert Sent(data, [Wrote(2)], 1) == "b";
    assert Sent(data, [WriteInterrupted, Wrote(2)], 1) == "b";
    assert Sent(data, w, 0) == data[0..1] + Sent(data, w[1..], 1);
  }

  /** Whether the intended loop stops on a hard write error. */
  predicate SendFails(data: string, writes: seq<WriteResult>, total: nat)
    requires total <= |data|
    decreases |writes|
  {
    if writes == [] || total == |data| then false
    else match writes[0]
      case WriteFailed => true
      case WriteInterrupted => SendFails(data, writes[1..], total)
      case Wrote(n) => SendFails(data, writes[1..], total + Sendable(data, total, n))
  }

  /** streamDataIn as intended: the loop keeps a running total of the bytes
      written and retries an interrupted write. */
  method StreamDataIn(data: string, writes: seq<WriteResult>) returns (sent: string, err: bool)
    ensures sent == Sent(data, writes, 0)
    ensures |sent| <= |data| && sent == data[..|sent|]
    ensures err == SendFails(data, writes, 0)
  {
    var total: nat := 0;
    sent := "";
    err := false;
    var i := 0;
    while total != |data| && i < |writes|
      invariant 0 <= i <= |writes| && total <= |data|
      invariant sent == data[..total]
      invariant sent + Sent(data, writes[i..], total) == Sent(data, writes, 0)
      invariant !err && SendFails(data, writes[i..], total) == SendFails(data, writes, 0)
      decreases |writes| - i
    {
      assert writes[i..][1..] == writes[i + 1..];
      match writes[i] {
        case WriteFailed =>
          err := true;
          break;
        case WriteInterrupted =>
        case Wrote(n) =>
          var k := Sendable(data, total, n);
          sent := sent + data[total..total + k];
          assert data[..total] + data[total..total + k] == data[..total + k];
          total := total + k;
      }
      i := i + 1;
    }
    SentIsSuffixPrefix(data, writes, 0);
  }
}
