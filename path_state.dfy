/** The validation state of a network path (section 8.2 of RFC 9000). */
module PathStates {

  datatype PathState = Unvalidated | Probing | Validated | Failed
  {
    /** Only a validated path may carry data. */
    predicate CanSendData() { this == Validated }

    predicate IsValidating() { this == Probing }

    predicate IsFailed() { this == Failed }
  }

  /** The three predicates are mutually exclusive, and UNVALIDATED satisfies none of them. */
  lemma PathPredicatesExclusive(s: PathState)
    ensures !(s.CanSendData() && s.IsValidating())
    ensures !(s.CanSendData() && s.IsFailed())
    ensures !(s.IsValidating() && s.IsFailed())
    ensures s == Unvalidated <==> !s.CanSendData() && !s.IsValidating() && !s.IsFailed()
  {
  }
}
