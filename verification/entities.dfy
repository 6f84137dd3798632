/** A PII entity as the pipeline passes it around: a dictionary with the keys
    `type` and `value`, to which classification adds `sensitivity`. */
module Entities {
  import opened Wrappers

  /** Each field is `None` when the key is missing or holds null, which is
      what `dict.get` returns in both cases. */
  datatype Entity = Entity(kind: Option<string>, value: Option<string>, sensitivity: Option<string>)

  /** An entity as a detector reports it: type and value, no sensitivity yet. */
  function Detected(kind: string, value: string): (e: Entity)
    ensures e.kind == Some(kind) && e.value == Some(value) && e.sensitivity.None?
  {
    Entity(Some(kind), Some(value), None)
  }

  /** Python truthiness of an optional string field: present and non-empty. */
  predicate Truthy(f: Option<string>) {
    f.Some? && f.value != ""
  }
}
