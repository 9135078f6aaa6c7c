/** Conditions and batches (internal/rule/types.go). */
module RuleTypes {

  const SCOPE_HEALTH := "health"
  const SCOPE_MEMORY := "memory"
  const SCOPE_DISK := "disk"
  const SCOPE_NETWORK := "network"
  const SCOPE_AUTH := "auth"

  datatype Condition = Condition(key: string, scope: string, summary: string, current: string,
                                 threshold: string, details: map<string, string>)

  /** An entry-level problem; its wording is not modelled. */
  datatype EntryError = MissingIndex(position: nat) | DuplicateIndex(position: nat, index: string)
                      | DiskEntry(mountPoint: string) | Collection

  /** All unhealthy conditions of one scope; recoveries may be inferred only from
      a complete batch. */
  datatype Batch = Batch(scope: string, complete: bool, conditions: seq<Condition>, errors: seq<EntryError>)

  function ConditionKey(c: Condition): string { c.key }
}
