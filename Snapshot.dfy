/**
 * The values the tree is built from and stores per instance: `InstanceSnapshot`
 * (what the snapshot layer produces from the filesystem) and `InstanceMetadata`.
 */
module Snapshot {
  import opened Wrappers
  import opened Dom

  /** A filesystem path (`PathBuf`), compared as a plain string. */
  type Path = string

  /** A user-declared stable identifier (`RojoRef`). */
  type RojoRef = string

  /** `InstanceMetadata`: the paths whose changes concern an instance and its optional stable id. */
  datatype Metadata = Metadata(relevantPaths: seq<Path>, specifiedId: Option<RojoRef>)

  /** `InstanceSnapshot`: one instance to create, with its metadata and child snapshots in order. */
  datatype InstanceSnapshot = InstanceSnapshot(
    name: string,
    className: string,
    properties: Properties,
    metadata: Metadata,
    children: seq<InstanceSnapshot>)
}
