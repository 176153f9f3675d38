/** The audit-event processor that records which format an export was made in
    (ExportTypeAuditEventProcessor). */
module Audit {
  import opened Common

  /** An audit event: who did what to which entity, when, and optional extra information.
      The user and entity references and the timestamp are kept as opaque values. */
  datatype AuditEvent = AuditEvent(
    user: Option<string>,
    ip: Option<string>,
    action: Option<string>,
    extraInformation: Option<string>,
    entity: Option<string>,
    time: Option<int>)

  const ExportAction := "export"

  /** Processes one event; `format` is the current request's "format" parameter
      (None when the request does not carry it). */
  function Process(event: AuditEvent, format: Option<string>): (r: AuditEvent)
    ensures event.action == Some(ExportAction) && event.extraInformation.None? ==>
              r.extraInformation == format
              && r.user == event.user && r.ip == event.ip && r.action == event.action
              && r.entity == event.entity && r.time == event.time
    ensures event.action != Some(ExportAction) || event.extraInformation.Some? ==> r == event
  {
    if event.action == Some(ExportAction) && event.extraInformation.None? then
      AuditEvent(event.user, event.ip, event.action, format, event.entity, event.time)
    else
      event
  }

  /** Only the extra information can change, and only on an export event that had none. */
  lemma ProcessChangesOnlyMissingExportFormat(event: AuditEvent, format: Option<string>)
    ensures Process(event, format) != event ==>
              event.action == Some(ExportAction) && event.extraInformation.None? && format.Some?
    ensures Process(event, format) == event.(extraInformation := Process(event, format).extraInformation)
  {
  }

  /** Processing twice with the same request gives the same event as processing once. */
  lemma ProcessIdempotent(event: AuditEvent, format: Option<string>)
    ensures Process(Process(event, format), format) == Process(event, format)
  {
  }
}
