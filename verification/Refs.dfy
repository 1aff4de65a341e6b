/** The private references of a source repository, and transactions over them. */
module Refs {
  import opened Objects

  datatype RefName = RawRef(input: Object) | NormalizedRef(input: Object) | GenerationRef(input: Object)

  type RefMap = map<RefName, Object>

  datatype Edit =
    /** Sets a reference that is absent or already has this target. */
    | Update(name: RefName, target: Object)
    | VerifyIs(name: RefName, target: Object)
    | VerifyAbsent(name: RefName)

  predicate Permits(refs: RefMap, e: Edit) {
    match e
    case Update(name, target) => name in refs ==> refs[name] == target
    case VerifyIs(name, target) => name in refs && refs[name] == target
    case VerifyAbsent(name) => name !in refs
  }

  /** No transaction names one reference with two targets. */
  predicate Coherent(edits: set<Edit>) {
    forall d <- edits, e <- edits :: d.Update? && e.Update? && d.name == e.name ==> d.target == e.target
  }

  function Updates(edits: set<Edit>): RefMap
    requires Coherent(edits)
  {
    map e | e in edits && e.Update? :: e.name := e.target
  }

  /** The transaction is permitted, and applied as a whole. */
  ghost predicate Applies(refs: RefMap, edits: set<Edit>, later: RefMap) {
    Coherent(edits) && (forall e <- edits :: Permits(refs, e)) && later == refs + Updates(edits)
  }
}
