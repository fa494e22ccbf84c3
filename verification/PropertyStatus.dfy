/** The status an engine leaves in a property. */
module PropertyStatus {
  datatype Status =
    | Unknown | Disabled | Assumed | Unsupported
    | Proved | ProvedWithBound(bound: nat)
    | Refuted | RefutedWithBound(bound: nat)
    | Dropped | Failure | Inconclusive
}
