/** The disk-event callbacks of diskarbitration.cpp, which update the service's
    registry, genDisk's materialisation of a slice's whole-disk parent, and the
    mount-approval callback with its read-only remount.

    The platform disk handle is a RawDisk: its BSD name, its description as
    DADiskCopyDescription reports it, and the handle DADiskCopyWholeDisk returns
    (None for NULL). */
module Events {
  import opened Wrappers
  import opened DiskTypes
  import Bridge
  import opened Server

  // ---------------------------------------------------------------------------
  // genDisk with a service instance

  /** The registry after genDisk(disk, instance): for a disk that is not whole
      and whose whole disk the platform reports, the whole disk is handled first
      (recursively), registered if absent, and the disk is linked into its
      children. */
  function Materialise(disks: map<string, Disk>, raw: RawDisk): map<string, Disk>
    decreases raw
  {
    if raw.description.IsWhole() || raw.wholeDisk.None? then disks
    else
      var parentRaw := raw.wholeDisk.value;
      var m := Materialise(disks, parentRaw);
      var pid := parentRaw.bsdName;
      var m2 := if pid in m then m else m[pid := Bridge.GenRecord(parentRaw)];
      m2[pid := m2[pid].(children := LinkChild(m2[pid].children, raw.bsdName))]
  }

  predicate KeysConsistent(disks: map<string, Disk>) {
    forall k :: k in disks ==> disks[k].id == k
  }

  predicate Unique(disks: map<string, Disk>) {
    forall k :: k in disks ==> NoDup(disks[k].children)
  }

  /** Materialisation only adds entries and links children: no entry is lost,
      every entry stays under its own name, and no children list gains a
      duplicate. */
  lemma {:induction false} MaterialiseKeeps(disks: map<string, Disk>, raw: RawDisk)
    ensures disks.Keys <= Materialise(disks, raw).Keys
    decreases raw
  {
    if !raw.description.IsWhole() && raw.wholeDisk.Some? {
      MaterialiseKeeps(disks, raw.wholeDisk.value);
    }
  }

  lemma {:induction false} MaterialiseKeysConsistent(disks: map<string, Disk>, raw: RawDisk)
    requires KeysConsistent(disks)
    ensures KeysConsistent(Materialise(disks, raw))
    decreases raw
  {
    if !raw.description.IsWhole() && raw.wholeDisk.Some? {
      MaterialiseKeysConsistent(disks, raw.wholeDisk.value);
    }
  }

  lemma {:induction false} MaterialiseUnique(disks: map<string, Disk>, raw: RawDisk)
    requires Unique(disks)
    ensures Unique(Materialise(disks, raw))
    decreases raw
  {
    if !raw.description.IsWhole() && raw.wholeDisk.Some? {
      var parentRaw := raw.wholeDisk.value;
      MaterialiseUnique(disks, parentRaw);
      var m := Materialise(disks, parentRaw);
      var pid := parentRaw.bsdName;
      var m2 := if pid in m then m else m[pid := Bridge.GenRecord(parentRaw)];
      assert Unique(m2);
      LinkChildIdempotentNoDup(m2[pid].children, raw.bsdName);
    }
  }

  /** After genDisk, a slice is linked under its whole disk, which is
      registered. */
  lemma MaterialiseLinks(disks: map<string, Disk>, raw: RawDisk)
    requires !raw.description.IsWhole() && raw.wholeDisk.Some?
    ensures var m := Materialise(disks, raw);
            raw.wholeDisk.value.bsdName in m && raw.bsdName in m[raw.wholeDisk.value.bsdName].children
  {
  }

  /** genDisk(disk, instance): the record is the one genDisk returns without an
      instance; the registry is materialised. */
  method GenDisk(raw: RawDisk, svc: DiskArbitratorService) returns (d: Disk)
    requires svc.Valid()
    modifies svc
    ensures svc.Valid()
    ensures d == Bridge.GenRecord(raw)
    ensures svc.disks == Materialise(old(svc.disks), raw)
    ensures old(svc.ChildrenUnique()) ==> svc.ChildrenUnique()
    ensures svc.arbitrationMode == old(svc.arbitrationMode) && svc.ourMounts == old(svc.ourMounts)
    ensures svc.approvalSession == old(svc.approvalSession)
    decreases raw
  {
    d := Disk(raw.bsdName, "", [], raw.description);
    if !raw.description.IsWhole() && raw.wholeDisk.Some? {
      var parentDisk := GenDisk(raw.wholeDisk.value, svc);
      var registered := svc.DiskExists(parentDisk.id);
      if !registered {
        svc.AddDisk(parentDisk);
      }
      var linked := svc.AddChildToParent(d.id, parentDisk.id);
      d := d.(parentDisk := parentDisk.id);
    }
  }

  // ---------------------------------------------------------------------------
  // The three disk-event callbacks

  /** The registry after DiskAppearedCallback. */
  function AppearedSpec(disks: map<string, Disk>, raw: RawDisk): map<string, Disk> {
    var m := Materialise(disks, raw);
    if raw.bsdName in m then m else m[raw.bsdName := Bridge.GenRecord(raw)]
  }

  /** A disk appeared: after the callback it is registered, an entry already
      registered under its name is kept as it was after materialisation, and
      for a slice of a whole disk the callback is idempotent. */
  lemma AppearedRegisters(disks: map<string, Disk>, raw: RawDisk)
    ensures raw.bsdName in AppearedSpec(disks, raw)
    ensures raw.bsdName !in Materialise(disks, raw) ==>
              AppearedSpec(disks, raw)[raw.bsdName] == Bridge.GenRecord(raw)
    ensures raw.bsdName in Materialise(disks, raw) ==> AppearedSpec(disks, raw) == Materialise(disks, raw)
    ensures raw.description.IsWhole() ==>
              AppearedSpec(disks, raw) == if raw.bsdName in disks then disks else disks[raw.bsdName := Bridge.GenRecord(raw)]
  {
  }

  /** Seeing the same disk appear twice leaves the registry as seeing it once,
      when its whole disk is a whole disk (the platform's case) and the two
      names differ. */
  lemma AppearedIdempotent(disks: map<string, Disk>, raw: RawDisk)
    requires raw.wholeDisk.Some? ==> raw.wholeDisk.value.description.IsWhole()
                                     && raw.wholeDisk.value.bsdName != raw.bsdName
    ensures AppearedSpec(AppearedSpec(disks, raw), raw) == AppearedSpec(disks, raw)
  {
    var a := AppearedSpec(disks, raw);
    if !raw.description.IsWhole() && raw.wholeDisk.Some? {
      var parentRaw := raw.wholeDisk.value;
      var pid := parentRaw.bsdName;
      assert Materialise(disks, parentRaw) == disks;
      assert Materialise(a, parentRaw) == a;
      var m2 := if pid in disks then disks else disks[pid := Bridge.GenRecord(parentRaw)];
      var linked := LinkChild(m2[pid].children, raw.bsdName);
      var m := m2[pid := m2[pid].(children := linked)];
      assert Materialise(disks, raw) == m;
      assert pid in a && a[pid] == m[pid];
      LinkChildIdempotentNoDup(m2[pid].children, raw.bsdName);
      assert a[pid].(children := LinkChild(a[pid].children, raw.bsdName)) == a[pid];
      assert a[pid := a[pid]] == a;
      assert Materialise(a, raw) == a;
    }
  }

  /** DiskAppearedCallback. */
  method DiskAppeared(raw: RawDisk, svc: DiskArbitratorService)
    requires svc.Valid()
    modifies svc
    ensures svc.Valid()
    ensures svc.disks == AppearedSpec(old(svc.disks), raw)
    ensures old(svc.ChildrenUnique()) ==> svc.ChildrenUnique()
    ensures svc.arbitrationMode == old(svc.arbitrationMode) && svc.ourMounts == old(svc.ourMounts)
    ensures svc.approvalSession == old(svc.approvalSession)
  {
    var disk := GenDisk(raw, svc);
    var registered := svc.DiskExists(disk.id);
    if !registered {
      svc.AddDisk(disk);
    }
  }

  /** The registry without the given ids. */
  function Without(disks: map<string, Disk>, ids: seq<string>): map<string, Disk> {
    disks - (set c | c in ids)
  }

  /** The result and the registry after DiskDisappearedCallback. The ids
      removed before the disk itself are victims(m) of the registry m at that
      point: as written, the children of the freshly generated record (always
      none); as intended, the children of the registered record. */
  function DisappearedSpec(disks: map<string, Disk>, raw: RawDisk, cascade: bool): (Outcome<string>, map<string, Disk>) {
    var m := Materialise(disks, raw);
    var id := raw.bsdName;
    if id !in m then
      (Fail("Attempted to fetch parent disk from disk " + id + ", but it does not exist"), m)
    else
      var p := m[id].parentDisk;
      var m2 := if p != "" && p in m then m[p := m[p].(children := RemoveFirst(m[p].children, id))] else m;
      var victims := if cascade then m2[id].children else Bridge.GenRecord(raw).children;
      (Pass, Without(m2, victims) - {id})
  }

  /** The removal loop of DiskDisappearedCallback. */
  method RemoveAll(ids: seq<string>, svc: DiskArbitratorService)
    requires svc.Valid()
    modifies svc
    ensures svc.Valid()
    ensures svc.disks == Without(old(svc.disks), ids)
    ensures old(svc.ChildrenUnique()) ==> svc.ChildrenUnique()
    ensures svc.arbitrationMode == old(svc.arbitrationMode) && svc.ourMounts == old(svc.ourMounts)
    ensures svc.approvalSession == old(svc.approvalSession)
  {
    for i := 0 to |ids|
      invariant svc.Valid()
      invariant svc.disks == Without(old(svc.disks), ids[..i])
      invariant old(svc.ChildrenUnique()) ==> svc.ChildrenUnique()
      invariant svc.arbitrationMode == old(svc.arbitrationMode) && svc.ourMounts == old(svc.ourMounts)
      invariant svc.approvalSession == old(svc.approvalSession)
    {
      svc.RemoveDisk(ids[i]);
      assert ids[..i + 1] == ids[..i] + [ids[i]];
    }
    assert ids[..|ids|] == ids;
  }

  /** DiskDisappearedCallback as written: the loop meant to drop the disk's
      slices walks the children of the record genDisk just generated, which
      genDisk never fills. An Outcome failure is the exception getParentDisk
      throws out of the callback. */
  method DiskDisappearedAsWritten(raw: RawDisk, svc: DiskArbitratorService) returns (o: Outcome<string>)
    requires svc.Valid()
    modifies svc
    ensures svc.Valid()
    ensures (o, svc.disks) == DisappearedSpec(old(svc.disks), raw, false)
    ensures svc.arbitrationMode == old(svc.arbitrationMode) && svc.ourMounts == old(svc.ourMounts)
    ensures svc.approvalSession == old(svc.approvalSession)
  {
    var disk := GenDisk(raw, svc);
    var parent := svc.GetParentDisk(disk.id);
    if parent.Failure? {
      return Fail(parent.error);
    }
    var parentExists := svc.DiskExists(parent.value);
    if |parent.value| > 0 && parentExists {
      var unlinked := svc.RemoveChildFromParent(disk.id, parent.value);
    }
    var registered := svc.DiskExists(disk.id);
    if registered {
      RemoveAll(disk.children, svc);
      svc.RemoveDisk(disk.id);
    }
    o := Pass;
  }

  /** DiskDisappearedCallback as intended: the registered record's slices go
      with it. */
  method DiskDisappeared(raw: RawDisk, svc: DiskArbitratorService) returns (o: Outcome<string>)
    requires svc.Valid()
    modifies svc
    ensures svc.Valid()
    ensures (o, svc.disks) == DisappearedSpec(old(svc.disks), raw, true)
    ensures svc.arbitrationMode == old(svc.arbitrationMode) && svc.ourMounts == old(svc.ourMounts)
    ensures svc.approvalSession == old(svc.approvalSession)
  {
    var disk := GenDisk(raw, svc);
    var parent := svc.GetParentDisk(disk.id);
    if parent.Failure? {
      return Fail(parent.error);
    }
    var parentExists := svc.DiskExists(parent.value);
    if |parent.value| > 0 && parentExists {
      var unlinked := svc.RemoveChildFromParent(disk.id, parent.value);
    }
    var registered := svc.DiskExists(disk.id);
    if registered {
      RemoveAll(svc.disks[disk.id].children, svc);
      svc.RemoveDisk(disk.id);
    }
    o := Pass;
  }

  /** Every registered disk that names a parent is listed among that parent's
      children. */
  predicate ParentsLinked(disks: map<string, Disk>) {
    forall k :: k in disks && disks[k].parentDisk in disks ==> k in disks[disks[k].parentDisk].children
  }

  /** As intended, once a whole disk has disappeared no registered disk names
      it as its parent. */
  lemma DisappearedLeavesNoOrphans(disks: map<string, Disk>, raw: RawDisk)
    requires raw.description.IsWhole() && ParentsLinked(disks) && raw.bsdName in disks
    ensures var (o, m) := DisappearedSpec(disks, raw, true);
            o == Pass && forall k :: k in m ==> m[k].parentDisk != raw.bsdName
  {
    var id := raw.bsdName;
    var (o, m) := DisappearedSpec(disks, raw, true);
    var p := disks[id].parentDisk;
    var m2 := if p != "" && p in disks then disks[p := disks[p].(children := RemoveFirst(disks[p].children, id))] else disks;
    forall k | k in m
      ensures m[k].parentDisk != id
    {
      RemoveFirstKeeps(disks[id].children, id, k);
      assert k !in m2[id].children && k != id;
      assert m[k].parentDisk == disks[k].parentDisk;
    }
  }

  /** As written, the slices of a disappeared whole disk stay registered and
      name a parent that no longer exists. */
  lemma DisappearedAsWrittenLeavesOrphans()
    ensures var whole := Description(None, None, None, None, None, None, None, None, None, None, None, None, None,
                                     None, None, None, None, None, None, None, Some(true), None, None, None, None,
                                     None, None, None, None, None, None, None, None, None, map[]);
            var disks := map["disk2" := Disk("disk2", "", ["disk2s1"], whole),
                             "disk2s1" := Disk("disk2s1", "disk2", [], whole.(mediaWhole := Some(false)))];
            var raw := RawDisk("disk2", whole, None);
            && ParentsLinked(disks)
            && "disk2s1" in DisappearedSpec(disks, raw, false).1
            && DisappearedSpec(disks, raw, false).1["disk2s1"].parentDisk == "disk2"
            && "disk2" !in DisappearedSpec(disks, raw, false).1
            && "disk2s1" !in DisappearedSpec(disks, raw, true).1
  {
  }

  /** The result and the registry after DiskDescriptionChangedCallback. */
  function DescriptionChangedSpec(disks: map<string, Disk>, raw: RawDisk): (Outcome<string>, map<string, Disk>) {
    var m := Materialise(disks, raw);
    if raw.bsdName in m then (Pass, m[raw.bsdName := m[raw.bsdName].(description := raw.description)])
    else (Fail("Attempted to change disk description from disk " + raw.bsdName + ", but it does not exist"), m)
  }

  /** DiskDescriptionChangedCallback. */
  method DiskDescriptionChanged(raw: RawDisk, svc: DiskArbitratorService) returns (o: Outcome<string>)
    requires svc.Valid()
    modifies svc
    ensures svc.Valid()
    ensures (o, svc.disks) == DescriptionChangedSpec(old(svc.disks), raw)
    ensures old(svc.ChildrenUnique()) ==> svc.ChildrenUnique()
    ensures svc.arbitrationMode == old(svc.arbitrationMode) && svc.ourMounts == old(svc.ourMounts)
    ensures svc.approvalSession == old(svc.approvalSession)
  {
    var disk := GenDisk(raw, svc);
    o := svc.UpdateDiskDescription(disk.id, disk.description);
  }

  /** genDisk has nothing to add for the disk: it is whole, the platform
      reports no whole disk for it, or it is a slice already listed under its
      registered whole disk. */
  predicate LinkedUnderWhole(disks: map<string, Disk>, raw: RawDisk) {
    raw.description.IsWhole() || raw.wholeDisk.None? ||
    (raw.wholeDisk.value.description.IsWhole() && raw.wholeDisk.value.bsdName in disks
     && raw.bsdName in disks[raw.wholeDisk.value.bsdName].children)
  }

  /** A description change of a registered whole disk, or of a registered
      slice already listed under its whole disk, replaces only its description:
      its parent, its children and every other entry stay. */
  lemma DescriptionChangeOnlyReplacesDescription(disks: map<string, Disk>, raw: RawDisk)
    requires raw.bsdName in disks && LinkedUnderWhole(disks, raw)
    ensures var (o, m) := DescriptionChangedSpec(disks, raw);
      && o == Pass && m.Keys == disks.Keys
      && m[raw.bsdName].description == raw.description
      && m[raw.bsdName].parentDisk == disks[raw.bsdName].parentDisk
      && m[raw.bsdName].children == disks[raw.bsdName].children
      && (forall k :: k in disks && k != raw.bsdName ==> m[k] == disks[k])
      && m == disks[raw.bsdName := disks[raw.bsdName].(description := raw.description)]
  {
    if !raw.description.IsWhole() && raw.wholeDisk.Some? {
      var w := raw.wholeDisk.value;
      var pid := w.bsdName;
      assert Materialise(disks, w) == disks;
      assert LinkChild(disks[pid].children, raw.bsdName) == disks[pid].children;
      assert disks[pid := disks[pid]] == disks;
      assert Materialise(disks, raw) == disks;
    }
  }

  // ---------------------------------------------------------------------------
  // The registry's shape over a run of disk events

  /** The platform's view of a disk, fixed over a run: every BSD name is
      non-empty and either a whole disk (one of wholeNames) or a slice whose
      whole disk is a whole disk. */
  predicate Fits(raw: RawDisk, wholeNames: set<string>) {
    raw.bsdName != "" &&
    if !raw.description.IsWhole() && raw.wholeDisk.Some? then
      var w := raw.wholeDisk.value;
      raw.bsdName !in wholeNames && w.description.IsWhole() && w.bsdName != "" && w.bsdName in wholeNames
    else raw.bsdName in wholeNames
  }

  /** The registry's shape: no entry under the empty name; an entry has no
      parent exactly when it is a whole disk; an entry with a parent names a
      registered whole disk that lists it; and the children lists hold slices
      only. */
  predicate Topology(disks: map<string, Disk>, wholeNames: set<string>) {
    && "" !in disks
    && (forall k :: k in disks ==> (disks[k].parentDisk == "" <==> k in wholeNames))
    && (forall k :: k in disks && disks[k].parentDisk != "" ==>
          disks[k].parentDisk in disks && disks[k].parentDisk in wholeNames
          && k in disks[disks[k].parentDisk].children)
    && (forall q, c :: q in disks && c in disks[q].children ==> c !in wholeNames)
  }

  /** The shape implies that every disk naming a registered parent is listed
      by it. */
  lemma TopologyLinksParents(disks: map<string, Disk>, wholeNames: set<string>)
    requires Topology(disks, wholeNames)
    ensures ParentsLinked(disks)
  {
    forall k | k in disks && disks[k].parentDisk in disks
      ensures k in disks[disks[k].parentDisk].children
    {
      assert disks[k].parentDisk != "";
    }
  }

  /** Registering a fresh entry that fits the shape keeps it. */
  lemma AddKeepsTopology(disks: map<string, Disk>, wholeNames: set<string>, id: string, d: Disk)
    requires Topology(disks, wholeNames) && id !in disks && id != "" && d.children == []
    requires d.parentDisk == "" <==> id in wholeNames
    requires d.parentDisk != "" ==>
      d.parentDisk in disks && d.parentDisk in wholeNames && id in disks[d.parentDisk].children
    ensures Topology(disks[id := d], wholeNames)
  {
  }

  /** Listing a slice under a registered disk keeps the shape. */
  lemma LinkKeepsTopology(disks: map<string, Disk>, wholeNames: set<string>, pid: string, child: string)
    requires Topology(disks, wholeNames) && pid in disks && child !in wholeNames
    ensures Topology(disks[pid := disks[pid].(children := LinkChild(disks[pid].children, child))], wholeNames)
  {
    var m := disks[pid := disks[pid].(children := LinkChild(disks[pid].children, child))];
    forall k | k in m && m[k].parentDisk != ""
      ensures k in m[m[k].parentDisk].children
    {
      assert k in disks[disks[k].parentDisk].children;
    }
  }

  /** genDisk keeps the shape, and lists a slice under its registered whole
      disk. */
  lemma MaterialiseKeepsTopology(disks: map<string, Disk>, wholeNames: set<string>, raw: RawDisk)
    requires Topology(disks, wholeNames) && Fits(raw, wholeNames)
    ensures Topology(Materialise(disks, raw), wholeNames)
    ensures !raw.description.IsWhole() && raw.wholeDisk.Some? ==>
      var pid := raw.wholeDisk.value.bsdName;
      pid in Materialise(disks, raw) && raw.bsdName in Materialise(disks, raw)[pid].children
  {
    if !raw.description.IsWhole() && raw.wholeDisk.Some? {
      var w := raw.wholeDisk.value;
      var pid := w.bsdName;
      assert Materialise(disks, w) == disks;
      var m2 := if pid in disks then disks else disks[pid := Bridge.GenRecord(w)];
      if pid !in disks {
        AddKeepsTopology(disks, wholeNames, pid, Bridge.GenRecord(w));
      }
      LinkKeepsTopology(m2, wholeNames, pid, raw.bsdName);
    }
  }

  /** DiskAppearedCallback keeps the shape. */
  lemma AppearedKeepsTopology(disks: map<string, Disk>, wholeNames: set<string>, raw: RawDisk)
    requires Topology(disks, wholeNames) && Fits(raw, wholeNames)
    ensures Topology(AppearedSpec(disks, raw), wholeNames)
  {
    MaterialiseKeepsTopology(disks, wholeNames, raw);
    var m := Materialise(disks, raw);
    if raw.bsdName !in m {
      AddKeepsTopology(m, wholeNames, raw.bsdName, Bridge.GenRecord(raw));
    }
  }

  /** Replacing the description of a registered disk keeps the shape. */
  lemma RedescribeKeepsTopology(m: map<string, Disk>, wholeNames: set<string>, id: string, desc: Description)
    requires Topology(m, wholeNames) && id in m
    ensures Topology(m[id := m[id].(description := desc)], wholeNames)
  {
    var r := m[id := m[id].(description := desc)];
    forall k | k in r && r[k].parentDisk != ""
      ensures k in r[r[k].parentDisk].children
    {
      assert k in m[m[k].parentDisk].children;
    }
  }

  /** DiskDescriptionChangedCallback keeps the shape. */
  lemma DescriptionChangedKeepsTopology(disks: map<string, Disk>, wholeNames: set<string>, raw: RawDisk)
    requires Topology(disks, wholeNames) && Fits(raw, wholeNames)
    ensures Topology(DescriptionChangedSpec(disks, raw).1, wholeNames)
  {
    MaterialiseKeepsTopology(disks, wholeNames, raw);
    var m := Materialise(disks, raw);
    if raw.bsdName in m {
      RedescribeKeepsTopology(m, wholeNames, raw.bsdName, raw.description);
    }
  }

  /** Unlisting a registered disk from its parent and dropping it together
      with its slices keeps the shape. */
  lemma DropKeepsTopology(m: map<string, Disk>, wholeNames: set<string>, id: string)
    requires Topology(m, wholeNames) && id in m
    ensures var p := m[id].parentDisk;
      var m2 := if p != "" && p in m then m[p := m[p].(children := RemoveFirst(m[p].children, id))] else m;
      Topology(Without(m2, m2[id].children) - {id}, wholeNames)
  {
    var p := m[id].parentDisk;
    var m2 := if p != "" && p in m then m[p := m[p].(children := RemoveFirst(m[p].children, id))] else m;
    var victims := m2[id].children;
    var r := Without(m2, victims) - {id};
    forall k | k in r
      ensures r[k].parentDisk == m[k].parentDisk
      ensures forall c :: c in r[k].children ==> c in m[k].children
    {
      if k == p {
        forall c | c in r[k].children ensures c in m[k].children {
          RemoveFirstSubset(m[p].children, id, c);
        }
      }
    }
    forall k | k in r && r[k].parentDisk != ""
      ensures r[k].parentDisk in r && k in r[r[k].parentDisk].children
    {
      var q := m[k].parentDisk;
      assert q in wholeNames && k in m[q].children;
      assert q !in (set c | c in victims);
      if q == p {
        RemoveFirstKeeps(m[p].children, id, k);
      }
    }
  }

  /** DiskDisappearedCallback as intended keeps the shape: the slices of a
      disappearing whole disk go with it, and a disappearing slice is unlisted
      from its whole disk. */
  lemma DisappearedKeepsTopology(disks: map<string, Disk>, wholeNames: set<string>, raw: RawDisk)
    requires Topology(disks, wholeNames) && Fits(raw, wholeNames)
    ensures Topology(DisappearedSpec(disks, raw, true).1, wholeNames)
  {
    MaterialiseKeepsTopology(disks, wholeNames, raw);
    var m := Materialise(disks, raw);
    if raw.bsdName in m {
      DropKeepsTopology(m, wholeNames, raw.bsdName);
    }
  }

  /** The disk events the daemon handles, as the registry sees them. */
  datatype DiskEvent = Appeared(raw: RawDisk) | Disappeared(raw: RawDisk) | DescriptionChanged(raw: RawDisk)

  /** The registry after one event, with the disappearance as intended. */
  function ApplyEvent(disks: map<string, Disk>, e: DiskEvent): map<string, Disk> {
    match e
    case Appeared(raw) => AppearedSpec(disks, raw)
    case Disappeared(raw) => DisappearedSpec(disks, raw, true).1
    case DescriptionChanged(raw) => DescriptionChangedSpec(disks, raw).1
  }

  /** The registry after a run of events, in order. */
  function Replay(disks: map<string, Disk>, events: seq<DiskEvent>): map<string, Disk>
    decreases |events|
  {
    if events == [] then disks else Replay(ApplyEvent(disks, events[0]), events[1..])
  }

  /** Every event keeps the shape, so every run does. */
  lemma {:induction false} ReplayKeepsTopology(disks: map<string, Disk>, wholeNames: set<string>, events: seq<DiskEvent>)
    requires Topology(disks, wholeNames)
    requires forall i :: 0 <= i < |events| ==> Fits(events[i].raw, wholeNames)
    ensures Topology(Replay(disks, events), wholeNames)
    decreases |events|
  {
    if events != [] {
      var e := events[0];
      match e {
        case Appeared(raw) => AppearedKeepsTopology(disks, wholeNames, raw);
        case Disappeared(raw) => DisappearedKeepsTopology(disks, wholeNames, raw);
        case DescriptionChanged(raw) => DescriptionChangedKeepsTopology(disks, wholeNames, raw);
      }
      assert forall i :: 0 <= i < |events[1..]| ==> events[1..][i] == events[i + 1];
      ReplayKeepsTopology(ApplyEvent(disks, e), wholeNames, events[1..]);
    }
  }

  /** As intended, starting from the empty registry and whatever disk events
      the platform reports, a whole disk that disappears leaves no registered
      disk naming it as its parent. */
  lemma NoOrphansAfterAnyRun(events: seq<DiskEvent>, wholeNames: set<string>, raw: RawDisk)
    requires forall i :: 0 <= i < |events| ==> Fits(events[i].raw, wholeNames)
    requires raw.description.IsWhole() && raw.bsdName in Replay(map[], events)
    ensures var (o, m) := DisappearedSpec(Replay(map[], events), raw, true);
            o == Pass && forall k :: k in m ==> m[k].parentDisk != raw.bsdName
  {
    ReplayKeepsTopology(map[], wholeNames, events);
    TopologyLinksParents(Replay(map[], events), wholeNames);
    DisappearedLeavesNoOrphans(Replay(map[], events), raw);
  }

  // ---------------------------------------------------------------------------
  // Mount approval

  /** remountRO, run synchronously: the disk is marked as ours, mounted
      read-only with no arguments at the default path, and unmarked only when
      the mount returns normally. */
  method RemountRO(disk: Disk, svc: DiskArbitratorService, platform: Bridge.MountPlatform)
    returns (r: Result<string, string>, issued: seq<Bridge.NativeRequest>)
    modifies svc
    ensures Bridge.MountOutcome(r, issued) == Bridge.MountSpec(disk, MountRdonly, [], "", platform)
    ensures svc.ourMounts == if r.Success? then old(svc.ourMounts) - {disk.id} else old(svc.ourMounts) + {disk.id}
    ensures svc.disks == old(svc.disks) && svc.arbitrationMode == old(svc.arbitrationMode)
    ensures svc.approvalSession == old(svc.approvalSession)
  {
    svc.ourMounts := svc.ourMounts + {disk.id};
    r, issued := Bridge.MountDisk(disk, MountRdonly, [], "", platform);
    if r.Success? {
      svc.ourMounts := svc.ourMounts - {disk.id};
    }
  }

  /** DiskMountApprovalCallback: NULL (None) allows the mount; otherwise a
      not-permitted dissenter explains the refusal, and a read-only remount is
      made for RDONLY arbitration. */
  method DiskMountApprovalCallback(raw: RawDisk, svc: DiskArbitratorService, remount: Bridge.MountPlatform)
    returns (dissenter: Option<Bridge.Dissenter>, issued: seq<Bridge.NativeRequest>)
    modifies svc
    ensures var decision := Bridge.ApproveMount(old(svc.arbitrationMode), raw.bsdName in old(svc.ourMounts));
      && (dissenter == None <==> decision == Bridge.Allow)
      && (decision == Bridge.Deny ==> dissenter == Some(Bridge.NotPermitted(Bridge.BLOCKED_MESSAGE)))
      && (decision == Bridge.RemountRo ==> dissenter == Some(Bridge.NotPermitted(Bridge.FORCED_RDONLY_MESSAGE)))
      && (decision != Bridge.RemountRo ==> issued == [] && svc.ourMounts == old(svc.ourMounts))
      && (decision == Bridge.RemountRo ==>
            var o := Bridge.MountSpec(Bridge.GenRecord(raw), MountRdonly, [], "", platform := remount);
            issued == o.issued
            && svc.ourMounts == if o.result.Success? then old(svc.ourMounts) - {raw.bsdName}
                                else old(svc.ourMounts) + {raw.bsdName})
    ensures svc.disks == old(svc.disks) && svc.arbitrationMode == old(svc.arbitrationMode)
    ensures svc.approvalSession == old(svc.approvalSession)
  {
    var disk := Bridge.GenRecord(raw);
    var ourMount := disk.id in svc.ourMounts;
    var decision := Bridge.ApproveMount(svc.arbitrationMode, ourMount);
    dissenter := None;
    issued := [];
    if decision != Bridge.Allow {
      var message;
      if decision == Bridge.Deny {
        message := Bridge.BLOCKED_MESSAGE;
      } else {
        message := Bridge.FORCED_RDONLY_MESSAGE;
        var remounted;
        remounted, issued := RemountRO(disk, svc, remount);
      }
      dissenter := Some(Bridge.NotPermitted(message));
    }
  }
}
