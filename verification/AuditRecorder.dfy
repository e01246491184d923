/** What the audit recorder asks of a text. */
module AuditRecorder {
  import JsText

  /** An empty correlation id is left away; any other must be of at most 128 code units and not blank. */
  predicate AcceptsCorrelation(correlationId: string) {
    correlationId == "" || JsText.NonBlank(correlationId, 128).Some?
  }

  predicate AcceptsResource(id: string) {
    JsText.NonBlank(id, 256).Some?
  }

  /** The session of the acting account; an empty one is left away. */
  predicate AcceptsSession(sessionId: string) {
    sessionId == "" || JsText.NonBlank(sessionId, 128).Some?
  }
}
