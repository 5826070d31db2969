/** server.cpp and server.hpp: the daemon's registry of disks and its RPC
    handlers. The service object is a class whose fields the handlers and the
    disk-event callbacks update in place. */
module Server {
  import opened Wrappers
  import opened Strings
  import opened DiskTypes
  import Bridge
  import Hdiutil

  /** The gRPC status a handler returns: its code and message. */
  datatype Status = Ok | NotFound(message: string) | Aborted(message: string) | AlreadyExists(message: string)

  const DISK_NOT_FOUND := "Requested disk was not found"
  const INFO_NOT_FOUND := "The specified disk was not found in the system"
  const ALREADY_ARBITRATING := "Already arbitrating in the requested mode"
  const NO_APPROVAL_SESSION := "Unable to create approval session"

  // ---------------------------------------------------------------------------
  // Children lists

  predicate NoDup(s: seq<string>) {
    forall i, j :: 0 <= i < j < |s| ==> s[i] != s[j]
  }

  /** The children list after addChildToParent: appended at the end unless
      already present. */
  function LinkChild(children: seq<string>, child: string): (r: seq<string>)
    ensures child in r
    ensures forall c :: c in r <==> c in children || c == child
    ensures |children| <= |r| && r[..|children|] == children
  {
    if child in children then children else children + [child]
  }

  /** Linking is idempotent and keeps a list free of duplicates. */
  lemma LinkChildIdempotentNoDup(children: seq<string>, child: string)
    ensures LinkChild(LinkChild(children, child), child) == LinkChild(children, child)
    ensures NoDup(children) ==> NoDup(LinkChild(children, child))
  {
  }

  /** The children list after removeChildFromParent: the first occurrence of
      the child is dropped, the rest keep their order. */
  function RemoveFirst(s: seq<string>, x: string): seq<string> {
    if s == [] then []
    else if s[0] == x then s[1..]
    else [s[0]] + RemoveFirst(s[1..], x)
  }

  /** Removing the first occurrence is cutting the list at that occurrence's
      index: what the pos/found loop computes. */
  lemma {:induction false} RemoveFirstAt(s: seq<string>, x: string, pos: nat)
    requires pos < |s| && s[pos] == x && x !in s[..pos]
    ensures RemoveFirst(s, x) == s[..pos] + s[pos + 1..]
  {
    if pos > 0 {
      assert s[1..][..pos - 1] == s[1..pos];
      assert x !in s[1..][..pos - 1];
      RemoveFirstAt(s[1..], x, pos - 1);
      assert s[..pos] == [s[0]] + s[1..pos];
      assert s[1..][pos..] == s[pos + 1..];
    }
  }

  /** Removing an absent child changes nothing. */
  lemma {:induction false} RemoveFirstAbsent(s: seq<string>, x: string)
    requires x !in s
    ensures RemoveFirst(s, x) == s
  {
    if s != [] {
      RemoveFirstAbsent(s[1..], x);
      assert s == [s[0]] + s[1..];
    }
  }

  /** Every other element stays. */
  lemma {:induction false} RemoveFirstKeeps(s: seq<string>, x: string, c: string)
    ensures c in s && c != x ==> c in RemoveFirst(s, x)
  {
    if s != [] && s[0] != x {
      RemoveFirstKeeps(s[1..], x, c);
    }
  }

  /** Nothing is added. */
  lemma RemoveFirstSubset(s: seq<string>, x: string, c: string)
    ensures c in RemoveFirst(s, x) ==> c in s
  {
    RemoveFirstCounts(s, x);
    assert multiset(RemoveFirst(s, x))[c] <= multiset(s)[c];
  }

  /** Exactly one occurrence goes, if there is one. */
  lemma {:induction false} RemoveFirstCounts(s: seq<string>, x: string)
    ensures multiset(RemoveFirst(s, x)) == multiset(s) - multiset{x}
  {
    if s != [] {
      assert s == [s[0]] + s[1..];
      assert multiset(s) == multiset{s[0]} + multiset(s[1..]);
      if s[0] != x {
        RemoveFirstCounts(s[1..], x);
        assert RemoveFirst(s, x) == [s[0]] + RemoveFirst(s[1..], x);
        assert multiset(RemoveFirst(s, x)) == multiset{s[0]} + multiset(RemoveFirst(s[1..], x));
      }
    }
  }

  /** In a list without duplicates, removal leaves no occurrence and no
      duplicate. */
  lemma {:induction false} RemoveFirstNoDup(s: seq<string>, x: string)
    requires NoDup(s)
    ensures NoDup(RemoveFirst(s, x)) && x !in RemoveFirst(s, x)
  {
    if s != [] {
      assert NoDup(s[1..]);
      RemoveFirstNoDup(s[1..], x);
      RemoveFirstCounts(s[1..], x);
      if s[0] != x {
        var r := RemoveFirst(s[1..], x);
        assert s[0] !in s[1..];
        assert multiset(r)[s[0]] == 0;
        assert s[0] !in r;
      }
    }
  }

  /** Unlinking undoes linking a child that was not listed. */
  lemma {:induction false} UnlinkUndoesLink(s: seq<string>, child: string)
    requires child !in s
    ensures RemoveFirst(LinkChild(s, child), child) == s
  {
    if s != [] {
      assert LinkChild(s, child)[1..] == LinkChild(s[1..], child);
      UnlinkUndoesLink(s[1..], child);
      assert s == [s[0]] + s[1..];
    }
  }

  // ---------------------------------------------------------------------------
  // Arbitration mode

  /** Which interception action a mode change takes. */
  datatype InterceptStep = NoStep | StartStep | StopStep

  function InterceptStepFor(current: ArbitrationMode, requested: ArbitrationMode): (step: InterceptStep)
    requires current != requested
    ensures step == StopStep <==> requested == ArbitratorNone
    ensures step == StartStep <==> current == ArbitratorNone
  {
    if requested == ArbitratorNone then StopStep
    else if current == ArbitratorNone then StartStep
    else NoStep
  }

  /** The specification of Arbitrate: the status and the mode afterwards;
      sessionCreated says whether creating the approval session succeeds. */
  function ArbitrateSpec(current: ArbitrationMode, requested: ArbitrationMode, sessionCreated: bool): (Status, ArbitrationMode) {
    if requested == current then (AlreadyExists(ALREADY_ARBITRATING), current)
    else if InterceptStepFor(current, requested) == StartStep && !sessionCreated then
      (Aborted(NO_APPROVAL_SESSION), current)
    else (Ok, requested)
  }

  /** The arbitration state machine: a repeated request is refused and changes
      nothing; the mode is stored exactly when the request is granted, and only
      a start of interception can fail. */
  lemma ArbitrateTransitions(current: ArbitrationMode, requested: ArbitrationMode, sessionCreated: bool)
    ensures var (status, next) := ArbitrateSpec(current, requested, sessionCreated);
      && (requested == current <==> status == AlreadyExists(ALREADY_ARBITRATING))
      && (status.Ok? <==> next == requested && requested != current)
      && (!status.Ok? ==> next == current)
      && (status.Aborted? <==> current == ArbitratorNone && requested != ArbitratorNone && !sessionCreated)
      && (status.Ok? ==> ArbitrateSpec(next, requested, sessionCreated).0 == AlreadyExists(ALREADY_ARBITRATING))
  {
  }

  // ---------------------------------------------------------------------------
  // The service

  /** The ids of a listing strictly ascend. */
  predicate Ascending(listed: seq<Disk>) {
    forall i, j :: 0 <= i < j < |listed| ==> StrLess(listed[i].id, listed[j].id)
  }

  /** Every listed id precedes every id still to be listed. */
  predicate AllBelow(listed: seq<Disk>, remaining: set<string>) {
    forall i, k :: 0 <= i < |listed| && k in remaining ==> StrLess(listed[i].id, k)
  }

  /** Appending the least remaining id keeps the listing ascending and below
      the rest. */
  lemma AppendLeast(listed: seq<Disk>, remaining: set<string>, d: Disk)
    requires Ascending(listed) && AllBelow(listed, remaining)
    requires d.id in remaining && forall j :: j in remaining ==> StrLessEq(d.id, j)
    ensures Ascending(listed + [d]) && AllBelow(listed + [d], remaining - {d.id})
  {
    var ls := listed + [d];
    forall i, j | 0 <= i < j < |ls| ensures StrLess(ls[i].id, ls[j].id) {
      if j == |listed| {
        assert ls[i] == listed[i];
      } else {
        assert ls[i] == listed[i] && ls[j] == listed[j];
      }
    }
    forall i, k | 0 <= i < |ls| && k in remaining - {d.id} ensures StrLess(ls[i].id, k) {
      if i < |listed| {
        assert ls[i] == listed[i];
      }
    }
  }

  class DiskArbitratorService {
    /** The registry, keyed by BSD name. */
    var disks: map<string, Disk>
    var arbitrationMode: ArbitrationMode
    /** The disks the daemon itself is mounting (std::map<string, bool> whose
        values are always true). */
    var ourMounts: set<string>
    /** Whether an approval session exists (approvalSession is not NULL). */
    var approvalSession: bool

    /** Every entry is stored under its own BSD name, and there is an approval
        session exactly while mounts are arbitrated. */
    predicate Valid()
      reads this
    {
      (forall k :: k in disks ==> disks[k].id == k)
      && (approvalSession <==> arbitrationMode != ArbitratorNone)
    }

    /** No children list holds an id twice. */
    predicate ChildrenUnique()
      reads this
    {
      forall k :: k in disks ==> NoDup(disks[k].children)
    }

    constructor ()
      ensures Valid() && ChildrenUnique()
      ensures disks == map[] && arbitrationMode == ArbitratorNone && ourMounts == {} && !approvalSession
    {
      disks := map[];
      arbitrationMode := ArbitratorNone;
      ourMounts := {};
      approvalSession := false;
    }

    // -------------------------------------------------------------------------
    // Registry (server.cpp)

    /** addDisk: insert if absent. */
    method AddDisk(disk: Disk)
      requires Valid()
      modifies this
      ensures Valid()
      ensures disks == if disk.id in old(disks) then old(disks) else old(disks)[disk.id := disk]
      ensures old(ChildrenUnique()) && NoDup(disk.children) ==> ChildrenUnique()
      ensures arbitrationMode == old(arbitrationMode) && ourMounts == old(ourMounts)
      ensures approvalSession == old(approvalSession)
    {
      if disk.id in disks {
        return;
      }
      disks := disks[disk.id := disk];
    }

    /** removeDisk: erase if present. */
    method RemoveDisk(id: string)
      requires Valid()
      modifies this
      ensures Valid()
      ensures disks == old(disks) - {id}
      ensures old(ChildrenUnique()) ==> ChildrenUnique()
      ensures arbitrationMode == old(arbitrationMode) && ourMounts == old(ourMounts)
      ensures approvalSession == old(approvalSession)
    {
      if id !in disks {
        return;
      }
      disks := disks - {id};
    }

    /** diskExists. */
    method DiskExists(id: string) returns (b: bool)
      ensures b <==> id in disks
    {
      b := id in disks;
    }

    /** addChildToParent: link the child into an existing parent's children. */
    method AddChildToParent(child: string, parent: string) returns (o: Outcome<string>)
      requires Valid()
      modifies this
      ensures Valid()
      ensures parent !in old(disks) ==>
                o == Fail("Attempted to add child disk " + child + " to parent " + parent
                          + ", but the parent disk does not exist")
                && disks == old(disks)
      ensures parent in old(disks) ==>
                o == Pass
                && disks == old(disks)[parent := old(disks)[parent].(children := LinkChild(old(disks)[parent].children, child))]
      ensures old(ChildrenUnique()) ==> ChildrenUnique()
      ensures arbitrationMode == old(arbitrationMode) && ourMounts == old(ourMounts)
      ensures approvalSession == old(approvalSession)
    {
      if parent !in disks {
        return Fail("Attempted to add child disk " + child + " to parent " + parent
                    + ", but the parent disk does not exist");
      }
      var p := disks[parent];
      for i := 0 to |p.children|
        invariant child !in p.children[..i]
      {
        if p.children[i] == child {
          assert disks[parent := p] == disks;
          return Pass;
        }
      }
      assert p.children[..|p.children|] == p.children;
      disks := disks[parent := p.(children := p.children + [child])];
      o := Pass;
    }

    /** removeChildFromParent: unlink the first occurrence of the child. */
    method RemoveChildFromParent(child: string, parent: string) returns (o: Outcome<string>)
      requires Valid()
      modifies this
      ensures Valid()
      ensures parent !in old(disks) ==>
                o == Fail("Attempted to remove child disk " + child + " to parent " + parent
                          + ", but the parent disk does not exist")
                && disks == old(disks)
      ensures parent in old(disks) ==>
                o == Pass
                && disks == old(disks)[parent := old(disks)[parent].(children := RemoveFirst(old(disks)[parent].children, child))]
      ensures old(ChildrenUnique()) ==> ChildrenUnique()
      ensures arbitrationMode == old(arbitrationMode) && ourMounts == old(ourMounts)
      ensures approvalSession == old(approvalSession)
    {
      if parent !in disks {
        return Fail("Attempted to remove child disk " + child + " to parent " + parent
                    + ", but the parent disk does not exist");
      }
      var p := disks[parent];
      var pos, found := FindChild(p.children, child);
      if ChildrenUnique() {
        RemoveFirstNoDup(p.children, child);
      }
      if found {
        RemoveFirstAt(p.children, child, pos);
        var remaining := p.children[..pos] + p.children[pos + 1..];
        assert remaining == RemoveFirst(p.children, child);
        var q := p.(children := remaining);
        assert q.id == p.id;
        disks := disks[parent := q];
      } else {
        RemoveFirstAbsent(p.children, child);
        assert p.(children := RemoveFirst(p.children, child)) == p;
        assert disks[parent := p] == disks;
      }
      o := Pass;
    }

    /** The search loop of removeChildFromParent: the index of the first
        occurrence of the child, if any. */
    static method FindChild(children: seq<string>, child: string) returns (pos: nat, found: bool)
      ensures found <==> child in children
      ensures found ==> pos < |children| && children[pos] == child && child !in children[..pos]
    {
      pos := 0;
      found := false;
      while pos < |children|
        invariant 0 <= pos <= |children|
        invariant child !in children[..pos]
      {
        if children[pos] == child {
          found := true;
          break;
        }
        pos := pos + 1;
      }
      if !found {
        assert children[..pos] == children;
      }
    }

    /** getParentDisk. */
    method GetParentDisk(id: string) returns (r: Result<string, string>)
      ensures id !in disks ==>
                r == Failure("Attempted to fetch parent disk from disk " + id + ", but it does not exist")
      ensures id in disks ==> r == Success(disks[id].parentDisk)
    {
      if id !in disks {
        return Failure("Attempted to fetch parent disk from disk " + id + ", but it does not exist");
      }
      r := Success(disks[id].parentDisk);
    }

    /** updateDiskDescription: replace the description of a registered disk. */
    method UpdateDiskDescription(id: string, description: Description) returns (o: Outcome<string>)
      requires Valid()
      modifies this
      ensures Valid()
      ensures id !in old(disks) ==>
                o == Fail("Attempted to change disk description from disk " + id + ", but it does not exist")
                && disks == old(disks)
      ensures id in old(disks) ==>
                o == Pass && disks == old(disks)[id := old(disks)[id].(description := description)]
      ensures old(ChildrenUnique()) ==> ChildrenUnique()
      ensures arbitrationMode == old(arbitrationMode) && ourMounts == old(ourMounts)
      ensures approvalSession == old(approvalSession)
    {
      if id !in disks {
        return Fail("Attempted to change disk description from disk " + id + ", but it does not exist");
      }
      var d := disks[id];
      disks := disks[id := d.(description := description)];
      o := Pass;
    }

    // -------------------------------------------------------------------------
    // Interception (server.cpp) and arbitration (server.hpp)

    /** startIntercept: sessionCreated says whether DAApprovalSessionCreate
        returns a session. */
    method StartIntercept(sessionCreated: bool) returns (o: Outcome<string>)
      modifies this
      ensures approvalSession == sessionCreated
      ensures o == if sessionCreated then Pass else Fail(NO_APPROVAL_SESSION)
      ensures disks == old(disks) && arbitrationMode == old(arbitrationMode) && ourMounts == old(ourMounts)
    {
      approvalSession := sessionCreated;
      if !approvalSession {
        return Fail(NO_APPROVAL_SESSION);
      }
      o := Pass;
    }

    /** stopIntercept: releases the approval session; it cannot fail. */
    method StopIntercept()
      modifies this
      ensures !approvalSession
      ensures disks == old(disks) && arbitrationMode == old(arbitrationMode) && ourMounts == old(ourMounts)
    {
      approvalSession := false;
    }

    /** Arbitrate. */
    method Arbitrate(requested: ArbitrationMode, sessionCreated: bool) returns (status: Status)
      requires Valid()
      modifies this
      ensures Valid()
      ensures (status, arbitrationMode) == ArbitrateSpec(old(arbitrationMode), requested, sessionCreated)
      ensures disks == old(disks) && ourMounts == old(ourMounts)
    {
      if requested != arbitrationMode {
        if requested == ArbitratorNone {
          StopIntercept();
        } else if arbitrationMode == ArbitratorNone {
          var started := StartIntercept(sessionCreated);
          if started.Fail? {
            return Aborted(started.error);
          }
        }
        arbitrationMode := requested;
        return Ok;
      }
      status := AlreadyExists(ALREADY_ARBITRATING);
    }

    /** The destructor's part that concerns the model: interception is stopped
        if it is in place. */
    method Shutdown()
      requires Valid()
      modifies this
      ensures !approvalSession
      ensures disks == old(disks) && arbitrationMode == old(arbitrationMode) && ourMounts == old(ourMounts)
    {
      if arbitrationMode != ArbitratorNone {
        StopIntercept();
      }
    }

    // -------------------------------------------------------------------------
    // RPC handlers (server.hpp)

    /** MountDisk: the disk is marked as ours during the mount and unmarked
        only when the mount returns normally. path is None when the request
        has no path. */
    method MountDisk(id: string, mode: MountMode, arguments: seq<string>, path: Option<string>,
                     platform: Bridge.MountPlatform)
      returns (status: Status, mountPath: string, issued: seq<Bridge.NativeRequest>)
      modifies this
      ensures id !in old(disks) ==>
                status == NotFound(DISK_NOT_FOUND) && mountPath == "" && issued == []
                && ourMounts == old(ourMounts)
      ensures id in old(disks) ==>
                var o := Bridge.MountSpec(old(disks)[id], mode, arguments, path.GetOr(""), platform);
                && issued == o.issued
                && (o.result.Success? ==>
                      status == Ok && mountPath == o.result.value && ourMounts == old(ourMounts) - {id})
                && (o.result.Failure? ==>
                      status == Aborted(o.result.error) && mountPath == "" && ourMounts == old(ourMounts) + {id})
      ensures disks == old(disks) && arbitrationMode == old(arbitrationMode)
      ensures approvalSession == old(approvalSession)
    {
      mountPath := "";
      issued := [];
      if id !in disks {
        return NotFound(DISK_NOT_FOUND), mountPath, issued;
      }
      ourMounts := ourMounts + {id};
      var disk := disks[id];
      var args: seq<string> := [];
      for i := 0 to |arguments|
        invariant args == arguments[..i]
      {
        args := args + [arguments[i]];
      }
      assert arguments[..|arguments|] == arguments;
      var result;
      if path.Some? {
        result, issued := Bridge.MountDisk(disk, mode, args, path.value, platform);
      } else {
        result, issued := Bridge.MountDisk(disk, mode, args, "", platform);
      }
      if result.Failure? {
        return Aborted(result.error), mountPath, issued;
      }
      ourMounts := ourMounts - {id};
      mountPath := result.value;
      status := Ok;
    }

    /** UnmountDisk. */
    method UnmountDisk(id: string, completion: Option<Bridge.Dissenter>)
      returns (status: Status, issued: seq<Bridge.NativeRequest>)
      ensures id !in disks ==> status == NotFound(DISK_NOT_FOUND) && issued == []
      ensures id in disks ==>
                var o := Bridge.UnmountSpec(disks[id], completion);
                issued == o.issued && status == (if o.result.Fail? then Aborted(o.result.error) else Ok)
    {
      if id !in disks {
        return NotFound(DISK_NOT_FOUND), [];
      }
      var disk := disks[id];
      var result;
      result, issued := Bridge.UnmountDisk(disk, completion);
      if result.Fail? {
        return Aborted(result.error), issued;
      }
      status := Ok;
    }

    /** EjectDisk. */
    method EjectDisk(id: string, unmountCompletion: Option<Bridge.Dissenter>, ejectCompletion: Option<Bridge.Dissenter>)
      returns (status: Status, issued: seq<Bridge.NativeRequest>)
      ensures id !in disks ==> status == NotFound(DISK_NOT_FOUND) && issued == []
      ensures id in disks ==>
                var o := Bridge.EjectSpec(disks[id], unmountCompletion, ejectCompletion);
                issued == o.issued && status == (if o.result.Fail? then Aborted(o.result.error) else Ok)
    {
      if id !in disks {
        return NotFound(DISK_NOT_FOUND), [];
      }
      var disk := disks[id];
      var result;
      result, issued := Bridge.EjectDisk(disk, unmountCompletion, ejectCompletion);
      if result.Fail? {
        return Aborted(result.error), issued;
      }
      status := Ok;
    }

    /** AttachDisk: the image is attached without a password. rdonlyValue is
        the numeric value of the enum constant MOUNT_RDONLY, which attachDisk
        tests in place of the mode. */
    method AttachDisk(image: string, mode: MountMode, rdonlyValue: int, platform: Hdiutil.AttachPlatform)
      returns (status: Status, attached: seq<string>, runs: seq<Hdiutil.Invocation>)
      ensures var o := Hdiutil.AttachSpec(image, mode, rdonlyValue, "", platform);
              && runs == o.runs
              && (o.result.Success? ==> status == Ok && attached == o.result.value)
              && (o.result.Failure? ==> status == Aborted(o.result.error) && attached == [])
    {
      attached := [];
      var result;
      result, runs := Hdiutil.AttachDisk(image, mode, rdonlyValue, "", platform);
      if result.Failure? {
        return Aborted(result.error), attached, runs;
      }
      for i := 0 to |result.value|
        invariant attached == result.value[..i]
      {
        attached := attached + [result.value[i]];
      }
      assert result.value[..|result.value|] == result.value;
      status := Ok;
    }

    /** DiskInfo. */
    method DiskInfo(id: string) returns (status: Status, description: Option<Description>)
      ensures id !in disks ==> status == NotFound(INFO_NOT_FOUND) && description == None
      ensures id in disks ==> status == Ok && description == Some(disks[id].description)
    {
      if id !in disks {
        return NotFound(INFO_NOT_FOUND), None;
      }
      return Ok, Some(disks[id].description);
    }

    /** ListDisks: one copy of every registered disk, in ascending key order. */
    method ListDisks() returns (status: Status, listed: seq<Disk>)
      requires Valid()
      ensures status == Ok
      ensures forall i, j :: 0 <= i < j < |listed| ==> StrLess(listed[i].id, listed[j].id)
      ensures forall i :: 0 <= i < |listed| ==> listed[i].id in disks && listed[i] == disks[listed[i].id]
      ensures forall k :: k in disks <==> k in Ids(listed)
    {
      listed := [];
      var remaining := disks.Keys;
      while remaining != {}
        invariant remaining <= disks.Keys
        invariant forall k :: k in disks <==> k in remaining || k in Ids(listed)
        invariant Ascending(listed) && AllBelow(listed, remaining)
        invariant forall i :: 0 <= i < |listed| ==> listed[i].id in disks && listed[i] == disks[listed[i].id]
        decreases |remaining|
      {
        ghost var least := LeastOf(remaining);
        var k :| k in remaining && forall j :: j in remaining ==> StrLessEq(k, j);
        AppendLeast(listed, remaining, disks[k]);
        IdsAppend(listed, disks[k]);
        listed := listed + [disks[k]];
        remaining := remaining - {k};
      }
      status := Ok;
    }
  }
}
