/**
One registered data node and files that are created on it, for the runs in `HandleWitnesses` and `GcRuns`.
*/
module SmallCluster {
  import opened FsTypes
  import opened Paths

  const MEMBERS: map<string, Time> := map["dn" := 0]

  function NewRecord(n: Name, id: string): Meta {
    Meta(n, false, 0, FILE_MODE, 0, 0, Pending, id, [Replica("dn", RemotePathOf(id))])
  }
}
