/** Vocabulary shared by the backup manager model: optional values, the replies of external
    collaborators (Kubernetes, etcd, storage) and the errors the backup manager reports. */
module Common {

  datatype Option<+T> = None | Some(value: T)

  /** What an external collaborator answered: a value, or a failure carrying its cause. */
  datatype Reply<+T> = Returned(value: T) | Errored(cause: string)

  /** The errors the backup manager returns. Wrapping constructors mirror the context
      the Go code adds with fmt.Errorf; `Cause` is a collaborator error passed through as is. */
  datatype Error =
    | Cause(text: string)
    | NoRunningPods
    | NoReachableMember
    | CreateClientFailed(inner: Error)
    | MaxRevisionClientFailed(inner: Error)
    | VersionNotReceived(text: string)
    | SnapshotNotReceived(text: string)
    | WriteSnapFailed(inner: Error)
    | SnapshotNotWritten(text: string)
  {
    /** The text of the error as the Go program renders it. */
    function Message(): string
    {
      match this
      case Cause(text) => text
      case NoRunningPods => "no running etcd pods found"
      case NoReachableMember => "no reachable member"
      case CreateClientFailed(inner) => "create etcd client failed: " + inner.Message()
      case MaxRevisionClientFailed(inner) => "create etcd client with max revision failed: " + inner.Message()
      case VersionNotReceived(text) => "failed to receive etcd version (" + text + ")"
      case SnapshotNotReceived(text) => "failed to receive snapshot (" + text + ")"
      case WriteSnapFailed(inner) => "write snapshot failed: " + inner.Message()
      case SnapshotNotWritten(text) => "failed to write snapshot (" + text + ")"
    }
  }

  datatype Result<+T> = Ok(value: T) | Err(error: Error)
}
