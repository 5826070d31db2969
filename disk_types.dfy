/** The protobuf messages and enums the daemon and its client exchange
    (diskarbitrator.proto is not part of this model; the fields are those that
    diskarbitration.cpp fills in), and the model of a platform disk handle. */
module DiskTypes {
  import opened Wrappers

  datatype MountMode = MountNone | MountRdonly | MountRdwr

  datatype ArbitrationMode = ArbitratorNone | ArbitratorBlock | ArbitratorRdonly

  /** DiskDescription: every field is optional (protobuf has_ accessors). */
  datatype Description = Description(
    mediaBsdName: Option<string>,
    appearanceTime: Option<nat>,
    volumeName: Option<string>,
    volumeKind: Option<string>,
    mediaContent: Option<string>,
    mediaKind: Option<string>,
    mediaName: Option<string>,
    mediaPath: Option<string>,
    mediaType: Option<string>,
    deviceModel: Option<string>,
    devicePath: Option<string>,
    deviceProtocol: Option<string>,
    deviceRevision: Option<string>,
    deviceVendor: Option<string>,
    busName: Option<string>,
    busPath: Option<string>,
    mediaEjectable: Option<bool>,
    mediaWhole: Option<bool>,
    volumeMountable: Option<bool>,
    volumeNetwork: Option<bool>,
    mediaLeaf: Option<bool>,
    mediaRemovable: Option<bool>,
    mediaWritable: Option<bool>,
    deviceInternal: Option<bool>,
    mediaBlockSize: Option<nat>,
    mediaBsdMajor: Option<nat>,
    mediaBsdMinor: Option<nat>,
    mediaBsdUnit: Option<nat>,
    mediaSize: Option<nat>,
    deviceUnit: Option<nat>,
    mediaUuid: Option<string>,
    volumeUuid: Option<string>,
    deviceGuid: Option<string>,
    volumePath: Option<string>,
    mediaIcon: map<string, string>)
  {
    /** The protobuf getter media_whole(): false when the field is absent. */
    predicate IsWhole() {
      mediaWhole == Some(true)
    }

    /** The protobuf getter volume_kind(): "" when the field is absent. */
    function VolumeKind(): string {
      volumeKind.GetOr("")
    }
  }

  /** Disk: the BSD name, the parent's BSD name ("" for none), the BSD names of
      the children, and the description. */
  datatype Disk = Disk(id: string, parentDisk: string, children: seq<string>, description: Description)
  {
    /** description().media_whole() */
    predicate IsWhole() {
      description.IsWhole()
    }
  }

  /** What the platform tells about one DADiskRef: its BSD name, its description
      as genDisk extracts it, and the handle DADiskCopyWholeDisk returns (None
      for NULL). */
  datatype RawDisk = RawDisk(bsdName: string, description: Description, wholeDisk: Option<RawDisk>)

  /** The ids of a list of disks, in order. */
  function Ids(ds: seq<Disk>): (ids: seq<string>)
    ensures |ids| == |ds| && forall i :: 0 <= i < |ds| ==> ids[i] == ds[i].id
  {
    seq(|ds|, i requires 0 <= i < |ds| => ds[i].id)
  }

  lemma IdsAppend(ds: seq<Disk>, d: Disk)
    ensures Ids(ds + [d]) == Ids(ds) + [d.id]
  {
  }
}
