/** The wire records exchanged over the message stream, and the Option they use. */
module Payload {
  import opened Rfc3339

  datatype Option<+T> = None | Some(value: T)

  function Lookup<K, V>(m: map<K, V>, k: K): Option<V> {
    if k in m then Some(m[k]) else None
  }

  type FlowId = string
  type RequestId = string
  type WorkspaceId = string
  type Metadata = map<string, string>

  const META_DISPLAY_NAME := "workspace_display_name"
  const META_ABS_PATH := "workspace_abs_path"

  datatype FlowStatus = Active | Completed | Failed | OtherStatus(text: string)

  datatype FlowLifecycleEvent = FlowLifecycleEvent(
    flowId: FlowId,
    daemonId: string,
    workspaceId: WorkspaceId,
    status: FlowStatus,
    flowLabel: string,
    metadata: Option<Metadata>,
    timestamp: Instant
  )

  /** Go reads a missing key, or any key of a nil map, as the empty string. */
  function MetadataValue(m: Option<Metadata>, key: string): string {
    if m.Some? && key in m.value then m.value[key] else ""
  }

  datatype NotificationRequest = NotificationRequest(
    id: RequestId,
    flowId: FlowId,
    daemonId: string,
    workspaceId: WorkspaceId,
    title: string,
    body: string,
    responseTypes: seq<string>,
    priority: string,
    source: string,
    actions: Option<seq<string>>,
    timeoutSec: int,
    timestamp: Instant
  )

  datatype NotificationResponse = NotificationResponse(
    requestId: RequestId,
    accepted: Option<bool>,
    action: string,
    text: string,
    timestamp: Instant
  )
}
