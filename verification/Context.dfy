/** `config/context.py`: the context variables one worker carries from request to request. */
module Context {
  datatype Option<+T> = None | Some(value: T)

  /** Rows are keyed by UUIDs, of which only identity matters. */
  type Uuid = nat

  const DEFAULT_TENANT := "public"

  class ContextVars {
    var requestId: string
    var tenantId: string
    var tenantPk: Option<Uuid>

    constructor ()
      ensures requestId == "" && tenantId == DEFAULT_TENANT && tenantPk == None
    {
      requestId, tenantId, tenantPk := "", DEFAULT_TENANT, None;
    }
  }
}
