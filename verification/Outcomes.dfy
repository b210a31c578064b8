/** The error values of the modelled operations, and Go's `error` result. */
module Outcomes {

  datatype Error =
    | InvalidStatus
    | InvalidStatusCombination
    | UpdateNotAllowed
    | DuplicateHost
    | MaxHostsExceeded
    | HostSponsorMismatch
    | InBailiwickHostNeedsAddress
    | HostNotFound
    | HostUpdateProhibited
    | HostStatusIncompatible
    | HostOKMustBeSet
    | PhaseNotProvided
    | ZeroRenewalPeriod
    | RenewNotAllowed
    | RenewExceedsMaxHorizon
    | DeleteNotAllowed
    | ExpiryTooEarly
    | ExpiryNotAllowed
    | ExpiryFailed
    | RestoreNotAllowed
    | DomainNotFound
    | InvalidRegistrar
    | NoActivePhase
    | RegistrarNotFound
    | AutoRenewNotEnabled
    | QuoteFailed
    | ActivityFailed
    | PhaseAlreadyExists
    | GAPhaseOverlaps
    | PhaseNotFound
    | DeleteCurrentPhase
    | DeleteHistoricPhase
    | UpdateHistoricPhase
    | EndDateBeforeStart
    | EndDateInPast
    | TimeStampNotUTC
    | DuplicatePriceEntry
    | DuplicateFeeEntry
    | InvalidPhaseName
    | InvalidQuoteRequest
    | CurrencyConversion
    | InvalidTransactionType
    | NoPremiumPrice
    | NilMoneyPanic
    | CurrencyMismatch

  /** `Done` is a nil error. */
  datatype Outcome = Done | Fail(error: Error)

  datatype Option<+T> = None | Some(value: T)
}
