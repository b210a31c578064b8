# Domain OS: a verified model of the registry's domain layer

The registry keeps domains, hosts, contacts, TLD phases and prices. This project models the parts of
it that carry state or arithmetic, and proves what they promise over all inputs and all runs. Where
an object updates its fields the model is a class with the same fields and step-by-step methods; each
method is tied to a function on values, and the laws are proved about those functions.

| file | what it models |
|---|---|
| `Calendar.dfy` | UTC instants in nanoseconds, Gregorian years, and Go's `AddDate` by years |
| `DomainStatuses.dfy`, `Hosts.dfy`, `Contacts.dfy` | the status flags of domains, hosts and contacts |
| `Lifecycle.dfy`, `Domains.dfy`, `Runs.dfy` | the operations of a domain: as functions, as the object with its host slice, and over whole runs |
| `Purge.dfy` | removing all hosts of a domain, purging it, and the retries |
| `Services.dfy`, `Workflows.dfy` | load, work, store on success; the expiry loop and the restore workflow |
| `ExpiryRuns.dfy`, `ExpiryGuards.dfy` | repeated runs of the expiry loop over all stored domains, page by page; and which guards keep a domain on the list |
| `HostLinks.dfy` | the service's host operations on stored rows |
| `Phases.dfy`, `Timeline.dfy` | TLD phases and their runs against a moving clock |
| `Pricing.dfy`, `Quotes.dfy`, `QuoteLaws.dfy` | price and fee lists, the price engine, and what a quote's price is |
| `Escrow.dfy` | duplicating host commands on import |
| `Text.dfy`, `Ascii.dfy`, `ClIDs.dfy`, `RoIDs.dfy` | string functions and the identifiers built with them |
| `Outcomes.dfy`, `Listings.dfy` | error values and shared datatypes; lists beside the sets they list |

Assumptions: every clock reading of a domain operation, and of every purge attempt, is a parameter of
its own, and readings never go back; the service calls of one loop run share one reading. Days are 24 hours in UTC. Flags are sets, which leaves out nothing of a record of booleans.
The module file asks for Go 1.23, so loop variables are new in each iteration.

## Where the code does not do what it says

The model follows the code. These departures are stated exactly, each as a lemma.

- Adding years is not monotone below whole days: a leap day at 23:00 lands behind the following
  1 March at 01:00 when the target year is common. So an expiry date can exceed the horizon for the
  rest of a 1 March (`Runs.EveryRunKeepsHorizon`, `Runs.HorizonDoesSlip`), and with a one-year horizon
  the expiry loop cannot renew an overdue domain in that window (`Workflows.PassesDealExactly`,
  `Workflows.SomeDomainIsStuck`).
- The expiry loop asks for one page of 1000 domains in RoID order and never for the next one. Domains
  that never leave the list keep their places: those without a current phase, those to be renewed whose
  registrar is unknown, that cannot be quoted or that the horizon holds up, and those to be expired
  against `serverDeleteProhibited` or another pending action (`ExpiryGuards.StubbornMeansBlocked`). A
  page of them starves every domain behind it (`ExpiryGuards.ServedExactly`,
  `ExpiryGuards.StarvedAtAllTimes`, `ExpiryGuards.SomeDomainStarves`).
- `RemoveAllDomainHosts` ranges over the list that it shrinks and skips every second host
  (`Purge.RemoveAllDomainHosts`); the purge gets by because it is retried (`Purge.PurgeActivity`).
- Two bounded GA phases with the same start pass the overlap test (`Phases.OverlapExact`,
  `Timeline.SameStartIsAccepted`). Phases that end before they start do no harm.
- The service sets and unsets statuses, expires, deletes and restores on a domain loaded without hosts,
  which then looks inactive
  (`Services.ServiceForgetsHosts`).
- A domain that gets an update prohibition while pending restore is renewed by every run of the
  restore workflow (`Workflows.ProhibitedRestoreRenewsForever`, `Workflows.ProhibitedRestoreIsReached`).
- Setting a host status that breaks a rule reports an error but leaves the flag on the object
  (`Hosts.SetHostStatusExact`).
- Premium labels have no amount for automatic renewals, so those cannot be quoted
  (`QuoteLaws.PremiumAutoRenewalIsNeverQuoted`). A premium domain of an auto-renewing registrar is thus
  never renewed nor expired by the loop, and no premium domain can be restored, since a restore asks
  for the quote of an automatic renewal (`ExpiryGuards.PremiumIsHopeless`).
- `CanBePurged` reads only the date, and an expiry between listing and purging can make a listed
  domain restorable again (`Runs.ExpiryReopensListing`).
- A contact never gets both update prohibitions (`Contacts.ReachableExactly`).
- Duplicated host commands keep the RoID of the original, and a domain without a row gives a command
  with an empty registrar (`Escrow.EveryLinkIsCovered`).
- Registrar numbers from 10^16 on, and some negative ones, are not recoverable from a ClID
  (`ClIDs.LongerNumbersCollide`, `ClIDs.NegativeNumbersCollide`); a RoID made from a negative number
  is invalid (`RoIDs.PartsComeBack`).

## Model

| member | source | states |
|---|---|---|
| Calendar.AddYearsLands | internal/domain/entities/domain.go:398-399 | Adding years moves the calendar year by exactly that many: an overflowing 29 February lands on 1 March of the target year, never in another year. |
| Calendar.AddYearsKeepsMonthAndDay | internal/domain/entities/domain.go:398-399 | Month, day and time of day are kept, except that 29 February becomes 1 March exactly in a common target year. |
| Calendar.AddYearsKeepsOrder | internal/domain/entities/domain.go:394-399 | For which pairs of instants adding n years keeps their order: all but a leap day and the 1 March after it that collide in a common target year at an earlier time of day. An if-and-only-if; so year addition is not monotone in the instant. |
| Calendar.AddYearsKeepsDayOrder | internal/domain/entities/domain.go:394-399 | Whole days never change order, and two different days fall together only when they collide in that way. |
| Calendar.MoreYearsIsLater | internal/domain/entities/domain.go:394-399 | More years from the same instant is strictly later. |
| Calendar.SplittingARenewal | internal/domain/entities/domain.go:398-400 | Splitting one renewal into several never gives an earlier expiry; it is later, by exactly one day, exactly when the start is a leap day, an intermediate year is common and the target year is not. |
| Calendar.DaysInClosedForm | internal/domain/entities/domain.go:398-399 | The count of days before a year is the Gregorian closed form, for years before the first too. |
| Calendar.MonthLengths | internal/domain/entities/domain.go:398-399 | Every month has its Gregorian length. |
| Calendar.UnixEpoch | internal/domain/entities/domain.go:398-399 | The instants agree with the calendar at the Unix epoch. |
| DomainStatuses.ValidateIsRfc5731 | internal/domain/entities/domainStatus.go:91-128 | The flag tests accept exactly the combinations that section 2.3 of RFC 5731 allows, stated independently with quantifiers. |
| DomainStatuses.StatusChangesByFlags | internal/domain/entities/domainStatus.go:131-256 | From a valid status and told by the flags alone: a set succeeds exactly when the status is known, neither `ok` nor `inactive`, an update prohibition itself whenever one is set, and breaks no rule; an unset exactly when the same holds but for the rules. A success obeys RFC 5731, has `ok` and `inactive` right and changes no other flag; a change that is not allowed leaves the status as it was, and with which error. |
| DomainStatuses.SettledIsDetermined | internal/domain/entities/domain.go:76-116 | A settled status is determined by its flags other than `ok` and `inactive`. |
| DomainStatuses.UnSetUndoesSet | internal/domain/entities/domainStatus.go:131-256 | On a valid, settled status a flag that could be set can always be unset again, which restores the status exactly when the flag was not there before. |
| DomainStatuses.SetUndoesUnSet | internal/domain/entities/domainStatus.go:131-256 | After unsetting a flag of a valid, settled status, setting it succeeds and restores the status exactly when the flag was there before. |
| DomainStatuses.AttachingSettles | internal/domain/entities/domain.go:76-93 | Following the hosts and filling in `ok` keeps any valid status valid and makes both flags right. |
| Hosts.ValidatedIsRfc5732 | internal/domain/entities/host.go:151-179 | The host status check accepts exactly the combinations of section 2.3 of RFC 5732 with `ok` set exactly on an idle host. |
| Hosts.LinkingIsSafe | internal/domain/entities/host.go:197-262 | On a valid host, setting `linked` always succeeds and changes nothing else; unsetting it fails exactly under an update prohibition. |
| Hosts.SetHostStatusExact | internal/domain/entities/host.go:197-228 | From a valid host, setting a flag succeeds exactly when no update prohibition refuses it and it breaks no rule of section 2.3 of RFC 5732; a refusal changes nothing, a broken rule leaves the flag set and the object invalid. |
| Hosts.UnsetHostStatusExact | internal/domain/entities/host.go:231-262 | From a valid host, unsetting fails exactly when an update prohibition refuses it, and otherwise changes that flag only besides `ok`. |
| Hosts.EveryRunKeepsRules | internal/domain/entities/host.go:151-262 | A stored host obeys the rules after every run of changes stored on success. |
| Hosts.Host.SetStatus | internal/domain/entities/host.go:197-228 | The object after the call is the step function of the flags before, also when an error is returned. |
| Hosts.Host.UnsetStatus | internal/domain/entities/host.go:231-262 | The same for unsetting. |
| Lifecycle.RegisterExact | internal/domain/entities/domain.go:327-378 | When a registration succeeds, with which error it fails, and every field of the new domain, `pendingCreate` and the two grace dates included. |
| Lifecycle.AddHostExact | internal/domain/entities/domain.go:259-293 | When a host is added, that an update prohibition or pending update refuses it unless ignored, and every field it changes. |
| Lifecycle.RemoveHostExact | internal/domain/entities/domain.go:306-318 | When a host is removed, and that `inactive` comes with the last one. |
| Lifecycle.ParentDomainExact | internal/domain/entities/domain.go:275-282 | The parent of a name is what follows its first dot. |
| Lifecycle.RenewExact | internal/domain/entities/domain.go:382-411 | A renewal succeeds exactly with a phase, a nonzero period, nothing pending, no renew prohibition and a horizon that allows it; every field it changes, one by one; a failure changes nothing. |
| Lifecycle.ForceRenewExact | internal/domain/entities/domain.go:416-437 | A forced renewal succeeds exactly with a phase and a nonzero period, and changes the same fields. |
| Lifecycle.ClearingConflicts | internal/domain/entities/domain.go:489-500 | Clearing the two update prohibitions and `clientDeleteProhibited` in that order never fails on a valid status and clears nothing else. |
| Lifecycle.ExpireExact | internal/domain/entities/domain.go:478-513 | Expire succeeds exactly when the expiry date is reached, `serverDeleteProhibited` is off and nothing but `pendingDelete` is pending; it sets `pendingDelete`, clears exactly those three flags, and sets the two end dates from the policy. |
| Lifecycle.ExpireTwice | internal/domain/entities/domain.go:478-513 | Expiring an expired domain again under the same policy succeeds and changes nothing. |
| Lifecycle.RestoreExact | internal/domain/entities/domain.go:519-540 | Restore succeeds exactly in the redemption period without an update prohibition, and trades `pendingDelete` for `pendingRestore`. |
| Lifecycle.MarkForDeletionExact | internal/domain/entities/domain.go:444-474 | A delete succeeds exactly when no delete or update prohibition is set and nothing is pending, and which dates it sets inside and outside the add period. |
| Runs.EveryRunKeepsStatus | internal/domain/entities/domainStatus.go:91-256 | Every run of registrations, status changes, host changes, renewals, deletions, expiries and restores keeps the status valid; from the first status or host change on, `ok` is set exactly when nothing is pending or prohibited and `inactive` exactly when there are no hosts. |
| Runs.RegistrationStartsValid | internal/domain/entities/domain.go:327-378 | Every registration for a nonzero number of years succeeds, with a valid status, no hosts, and its redemption end not after its purge date. |
| Runs.EveryRunKeepsHosts | internal/domain/entities/domain.go:259-318 | Every run keeps the hosts distinct by name, at most ten, and with the sponsor of the domain. |
| Runs.EveryRunKeepsEndDates | internal/domain/entities/domain.go:224-255 | With nonnegative pending-delete periods the redemption period never outlasts the purge date, so no domain is ever both restorable and purgeable. |
| Runs.EveryReachableDomain | internal/domain/entities/domain.go:327-540 | From every registration and over every run: the status is valid and settled once touched, the hosts are distinct, at most ten and of one sponsor, and with nonnegative periods no domain is both restorable and purgeable. |
| Runs.RenewedYearsAgreeWithImport | internal/domain/entities/rdeDomain.go:141-142 | After every run from a registration, forced renewals included, the incremental count equals Year(expiry) - Year(creation) - 1, which the import recomputes. |
| Runs.EveryRunKeepsHorizon | internal/domain/entities/domain.go:394-397 | Without forced renewals the expiry date stays within the horizon of now, except during a 1 March described exactly by `HorizonSlips`, and then by less than a day. |
| Runs.HorizonDoesSlip | internal/domain/entities/domain.go:394-397 | At every such moment a run exists whose expiry date lies beyond the horizon. |
| Runs.ListedUntilPurged | internal/infrastructure/db/postgres/domain_repository.go:317 | A domain listed for purging is still pending deletion with its purge date passed after every run without an expiry or an explicit unset of `pendingDelete`. |
| Runs.RegisteredAndListed | internal/infrastructure/db/postgres/domain_repository.go:317 | From every registration: a domain that comes to be listed for purging stays listed and is not restorable, over every later run without an expiry or an explicit unset of `pendingDelete`. |
| Runs.ExpiryReopensListing | internal/domain/entities/domain.go:502-509 | The exclusion of expiries is needed: expiring a listed domain within its redemption period and restoring it takes it off the list. |
| Domains.Domain.SetStatus | internal/domain/entities/domainStatus.go:131-194 | The object after the call is the step of its value before, which `DomainStatuses.StatusChangesByFlags` determines; failures keep the change that the code has already made. |
| Domains.Domain.UnSetStatus | internal/domain/entities/domainStatus.go:197-256 | The same for unsetting. |
| Domains.Domain.ContainsHost | internal/domain/entities/domain.go:296-303 | Finds the first host with the name, if there is one. |
| Domains.Domain.AddHost | internal/domain/entities/domain.go:259-293 | Appends after the refusals in order, in place exactly when the backing array has room; a success marks the host linked, and in-bailiwick under the parent domain. |
| Domains.Domain.RemoveHost | internal/domain/entities/domain.go:306-318 | Removes by name and shifts the tail of the backing array in place, leaving the last element behind in its old slot. |
| Domains.Domain.Renew | internal/domain/entities/domain.go:382-411 | The object after the call is the renewal step of its value before, which `Lifecycle.RenewExact` determines. |
| Domains.Domain.ForceRenew | internal/domain/entities/domain.go:416-437 | The object after the call is the forced renewal step of its value before, which `Lifecycle.ForceRenewExact` determines. |
| Domains.Domain.MarkForDeletion | internal/domain/entities/domain.go:444-474 | The object after the call is the deletion step of its value before. |
| Domains.Domain.Expire | internal/domain/entities/domain.go:478-513 | The loop over the conflicting flags and what follows amount to the expiry step of the value before. |
| Domains.Domain.Restore | internal/domain/entities/domain.go:519-540 | The object after the call is the restore step of its value before. |
| Purge.SlotFound | internal/application/services/domain_service.go:575-578 | Before the i-th iteration over n hosts the array slot holds a host that is still linked exactly while i <= n/2, and removing it yields the array of the next iteration. |
| Purge.WhatIsLeft | internal/application/services/domain_service.go:575-594 | After the last iteration the list is the skipped hosts: the odd positions except a last one. |
| Purge.DetachSlot | internal/application/services/domain_service.go:575-594 | One iteration keeps the state of the pass or fails with ErrHostNotFound, exactly past the middle. |
| Purge.RemoveAllDomainHosts | internal/application/services/domain_service.go:564-616 | A pass over n hosts leaves exactly the (n - 1) / 2 skipped ones, in the list and in the stored associations, and returns ErrHostNotFound exactly when n >= 3; `inactive` follows the hosts unless there were none, and nothing else changes. |
| Purge.PurgeDomain | internal/application/services/domain_service.go:369-432 | A purge is refused before the purge date, deletes the record only with at most two hosts left, and otherwise leaves the record and halves the associations. |
| Purge.PurgeWithRetries | internal/application/workflows/purgeLoop.go:22-36 | With one clock reading per attempt, a purge goes through exactly when some reading is past the purge date and there are at most 2^(k+1) - 2 hosts, where k counts the attempts from the first such reading on. |
| Purge.PurgeActivity | internal/application/workflows/purgeLoop.go:22-36 | Three attempts clear the ten hosts a domain may have when the date has passed at the first; when it passes between attempts, exactly up to six or two hosts. |
| Services.DomainService.SetStatus | internal/application/services/domain_service.go:1721-1760 | Work on the object loaded without hosts; store it exactly when it succeeded. |
| Services.DomainService.UnSetStatus | internal/application/services/domain_service.go:1766-1805 | The same for unsetting. |
| Services.DomainService.CheckAutoRenew | internal/application/services/domain_service.go:1192-1238 | Answer and error as the decision function says, in the order of its checks. |
| Services.DomainService.AutoRenewDomain | internal/application/services/domain_service.go:1242-1321 | Renewed and stored exactly when every check, the quote and the domain itself allow it. |
| Services.DomainService.RenewDomain | internal/application/services/domain_service.go:1087-1187 | The stored record after the call is what `Services.RenewedExact` determines: for the domain's own registrar, with a current phase and a quote, plain or forced. |
| Services.DomainService.ExpireDomain | internal/application/services/domain_service.go:1386-1438 | The same for an expiry. |
| Services.DomainService.MarkDomainForDeletion | internal/application/services/domain_service.go:1327-1382 | Marked for deletion and stored exactly when there is a current phase and the domain itself allows it. |
| Services.DomainService.RestoreDomain | internal/application/services/domain_service.go:1442-1508 | Restored and stored exactly when there is a current phase, an automatic renewal can be quoted, and the domain itself allows it. |
| Services.CanAutoRenewExact | internal/application/services/domain_service.go:1192-1238 | The answer is yes exactly for a domain with nothing pending and no renew prohibition whose policy and registrar want automatic renewals; and when each error is returned. |
| Services.AutoRenewedExact | internal/application/services/domain_service.go:1242-1321 | An automatic renewal succeeds exactly when it is wanted, quoted and possible, and which fields it changes. |
| Services.RenewedExact | internal/application/services/domain_service.go:1087-1187 | A registrar's renewal succeeds exactly for its own domain, with a phase and a quote, and unless forced when the domain and the horizon allow it; and which fields it changes. |
| Services.EndOfLifeExact | internal/application/services/domain_service.go:1327-1508 | When an expiry, a delete and a restore succeed through the service, told by flags, dates, phase and quote. |
| Services.ServiceForgetsHosts | internal/application/services/domain_service.go:1727-1745 | A status set or unset, an expiry, a delete or a restore through the service always leaves `inactive`, which is right exactly for domains without hosts. |
| Workflows.ExpiryLoop | internal/application/workflows/expiryLoop.go:66-110 | A run is the fold of the decision over the first 1000 listed domains in RoID order; a failure skips to the next domain. |
| Workflows.PassIsPointwise | internal/application/workflows/expiryLoop.go:66-110 | With distinct names every listed domain gets exactly its own decision and no other domain is touched. |
| Workflows.OnePassDeals | internal/application/workflows/expiryLoop.go:66-110 | What one pass does to an unprotected overdue domain: expired, renewed by one year, or unchanged exactly when it is stuck on a leap day. |
| Workflows.OverdueFitsHorizon | internal/domain/entities/domain.go:394-397 | When a one-year renewal of an overdue domain passes the horizon check. |
| Workflows.PassesDealExactly | internal/application/workflows/expiryLoop.go:66-110 | For one unprotected overdue record: finitely many decisions at a fixed instant renew it past the present or set `pendingDelete`, exactly when it is not stuck on a leap day with a one-year horizon. |
| Workflows.SomeDomainIsStuck | internal/domain/entities/domain.go:394-397 | Such a stuck domain exists at every moment at which a one-year horizon can slip. |
| ExpiryRuns.PassIsExact | internal/application/workflows/expiryLoop.go:60-110 | A run changes exactly the domains on its page, each by its own decision. |
| ExpiryRuns.OnThePage | internal/infrastructure/db/postgres/domain_repository.go:282-301 | A listed domain is on the page exactly when fewer than a page of listed domains have smaller RoIDs. |
| ExpiryRuns.WaitingIsLeftAlone | internal/infrastructure/db/postgres/domain_repository.go:282-301 | A domain that is not overdue, or has a deletion, renewal or restore pending, is left alone by every run. |
| ExpiryRuns.OverdueIsDecided | internal/infrastructure/db/postgres/domain_repository.go:282-301 | Every other overdue domain within the first page gets its decision. |
| ExpiryRuns.OnePageServesAll | internal/application/workflows/expiryLoop.go:60-110 | When the listed domains fit on one page, k runs take every stored domain exactly k decisions further. |
| ExpiryRuns.DecisionProgress | internal/application/workflows/expiryLoop.go:66-110 | A decision leaves a stubborn domain stubborn, and gets every other one strictly closer to leaving the list. Stubborn is still listed after as many decisions on that record alone as there are years to catch up. |
| ExpiryRuns.StarvedForever | internal/application/activities/listExpiringDomains.go:14-64 | Behind a full page of stubborn domains, those that only the horizon holds up included, no number of runs at one instant changes a domain. |
| ExpiryRuns.ServedUnlessStubborn | internal/application/workflows/expiryLoop.go:60-110 | A listed domain leaves the list after finitely many runs exactly when it is not stubborn and fewer than a page of stubborn domains have smaller RoIDs; for any stored statuses, even invalid ones. |
| ExpiryGuards.StubbornMeansBlocked | internal/application/workflows/expiryLoop.go:66-110 | The guards tell which listed domains stay listed: no current phase; or to be renewed, with the registrar unknown, no quote, or a horizon in the way; or to be expired, with `serverDeleteProhibited` or another pending action set. For every horizon: from two years on it is never in the way, at one year exactly on the leap-day collision, at zero except on an anniversary, below zero always. |
| ExpiryGuards.HopelessIsUnchanged | internal/application/services/domain_service.go:1192-1438 | A domain blocked by anything but the horizon is left alone at every instant. |
| ExpiryGuards.ServedExactly | internal/application/workflows/expiryLoop.go:60-110 | A listed domain leaves the list after finitely many runs exactly when no guard blocks it and fewer than a page of blocked domains have smaller RoIDs. |
| ExpiryGuards.RunsDealExactly | internal/application/workflows/expiryLoop.go:60-110 | An unprotected overdue domain is renewed past the present or gets `pendingDelete` after finitely many runs exactly when it is not stuck on a leap day and fewer than a page of blocked domains have smaller RoIDs. |
| ExpiryGuards.StarvedAtAllTimes | internal/application/activities/listExpiringDomains.go:14-64 | Behind a full page of domains blocked by anything but the horizon, runs at later and later instants never change a domain. |
| ExpiryGuards.SomeDomainStarves | internal/infrastructure/db/postgres/domain_repository.go:282-301 | For every page size and instant such a page exists, before a domain that the loop would expire. |
| ExpiryGuards.PremiumIsHopeless | internal/application/services/domain_service.go:1242-1508 | A premium domain that is to be renewed automatically is unchanged by every decision at every instant, and no premium domain is restored. |
| Workflows.RestoreWorkflow | internal/application/workflows/restoreWorkflow.go:84-121 | A run is the fold of unset, forced renewal and compensating set over the whole list, under any combination of activity failures; `Workflows.RestoresArePointwise` tells it domain by domain. |
| Workflows.RestoresArePointwise | internal/application/workflows/restoreWorkflow.go:68-121 | With distinct names every listed stored domain ends with its own restore, under its own registrar and failures; no other record changes, and none comes or goes. |
| Workflows.RestoreOutcome | internal/application/workflows/restoreWorkflow.go:84-121 | What is left of a pending-restore domain in every case: exactly the forced one-year renewal or the record as it was, with a valid status that has either lost `pendingRestore` alone or is as before but for `inactive`. |
| Workflows.RestoreCompensates | internal/application/workflows/restoreWorkflow.go:84-121 | The domain ends valid and either renewed by one year without `pendingRestore`, or as it was but for `inactive`, exactly when the activities succeed as described; an update prohibition breaks it. |
| Workflows.ProhibitedRestoreRenewsForever | internal/application/workflows/restoreWorkflow.go:84-121 | With an update prohibition k runs keep `pendingRestore` and renew by k years. |
| Workflows.ProhibitedRestoreIsReached | internal/domain/entities/domain.go:327-540 | From every registration without validation and with a redemption period, a run of expiry, restore and a server update prohibition reaches such a domain. |
| HostLinks.HostService.LoadDomain | internal/application/services/domain_service.go:311-318 | A loaded domain lists exactly the linked hosts, each once. |
| HostLinks.HostService.AddHostToDomain | internal/application/services/domain_service.go:440-505 | The store afterwards is the addition function of the store before; a duplicate is not an error. |
| HostLinks.HostService.RemoveHostFromDomain | internal/application/services/domain_service.go:619-706 | The store afterwards is the removal function of the store before; `linked` is taken off only when no domain uses the host. |
| HostLinks.HostService.RemoveAllDomainHosts | internal/application/services/domain_service.go:564-616 | The store afterwards is the remove-all function of the store before: of the listing the loader gave, the links of the skipped hosts are left, and the domain is stored exactly with at most two hosts. |
| HostLinks.EveryRunKeepsLinks | internal/application/services/domain_service.go:440-788 | Over every run of add, remove and remove-all, every linked host has `linked`, and the hosts of a domain have distinct names, are at most ten and share its sponsor. |
| HostLinks.StartsWithoutLinks | internal/application/services/domain_service.go:440-788 | A store of valid hosts that no domain uses satisfies the invariant of these runs. |
| HostLinks.AddThenRemove | internal/application/services/domain_service.go:440-706 | A host that was really added had an address if in-bailiwick, and removing it restores every link. |
| HostLinks.AddHostExact | internal/application/services/domain_service.go:440-505 | When an addition succeeds, and every row it changes: the link, the host's `linked` and in-bailiwick mark, the domain's flags. |
| HostLinks.RemoveHostExact | internal/application/services/domain_service.go:619-706 | Every row a removal changes: `linked` goes exactly with the last link unless an update prohibition of the host keeps it, and the domain is inactive with its last host gone. |
| HostLinks.RemovingAStranger | internal/application/services/domain_service.go:651-655 | Removing a host whose name is not linked is an error and changes nothing. |
| HostLinks.RemoveAllExact | internal/application/services/domain_service.go:564-616 | How many links are left, and that the domain row changes exactly with one or two hosts, by becoming inactive. |
| Phases.OverlapIsSymmetric | internal/domain/entities/phase.go:165-216 | The overlap test is symmetric. |
| Phases.OverlapExact | internal/domain/entities/phase.go:165-216 | For phases that do not end before they start, the test is intersection of the closed intervals, except exactly for two bounded phases with the same start. |
| Phases.PhaseAddedExact | internal/domain/entities/tld.go:98-135 | A phase is appended exactly when its name is new and, in GA, it overlaps no other GA phase. |
| Phases.PhaseEndedExact | internal/domain/entities/tld.go:204-269 | The requested end is stored exactly when it is in UTC, not before the start and not in the past and, for an end that is moved, the old one has not passed and no other unfinished GA phase starts before the new one; a failure changes nothing. |
| Phases.PhaseEndUnsetExact | internal/domain/entities/tld.go:272-310 | The end is dropped exactly when it has not passed and, if there was one, no other GA phase starts later. |
| Phases.CurrentIsTheFirst | internal/domain/entities/tld.go:138-157 | The current phase is the first GA phase that has begun and not ended. |
| Phases.CurrentGAPhase | internal/domain/entities/tld.go:138-157 | The result is an active GA phase of the list, and none is given exactly when there is none. |
| Phases.TLD.AddPhase | internal/domain/entities/tld.go:118-135 | The list afterwards is the addition function of the list before: the loop over GA phases refuses exactly an overlap. |
| Phases.TLD.EndPhase | internal/domain/entities/tld.go:204-269 | The list afterwards is the end function of the list before, which `Phases.PhaseEndedExact` determines. |
| Phases.TLD.UnSetPhaseEnd | internal/domain/entities/tld.go:272-310 | The list afterwards is the unset-end function of the list before. |
| Phases.TLD.DeletePhase | internal/domain/entities/tld.go:171-191 | The list afterwards is the deletion function of the list before. |
| Phases.TLD.DropAll | internal/domain/entities/tld.go:184-188 | The deletion loop splices the list it walks over and skips the element behind each removed one. |
| Phases.TLD.GetCurrentGAPhase | internal/domain/entities/tld.go:138-157 | Returns the first active GA phase. |
| Timeline.OrderedIsSafe | internal/domain/entities/tld.go:138-157 | The invariant of the timeline rules out two active GA phases at every instant. |
| Timeline.AddKeepsOrder | internal/domain/entities/tld.go:108-135 | An accepted addition with a new start keeps the invariant. |
| Timeline.EndKeepsOrder | internal/domain/entities/tld.go:204-269 | Moving an end keeps it, although the check allows touching phases. |
| Timeline.UnSetEndKeepsOrder | internal/domain/entities/tld.go:272-310 | Reopening a phase keeps it. |
| Timeline.DroppedIsRemoval | internal/domain/entities/tld.go:184-188 | With distinct names the skipping loop removes exactly the named phase. |
| Timeline.PhaseDeletedExact | internal/domain/entities/tld.go:171-191 | A phase is deleted exactly when it is there and has not begun, and nothing else is. |
| Timeline.EveryRunIsSafe | internal/domain/entities/tld.go:118-310 | Over every run with a nondecreasing clock that adds GA phases with new starts, at most one GA phase is active at any instant, and it is returned whatever the order of the list. |
| Timeline.AddIsSafeExactly | internal/domain/entities/tld.go:108-135 | An accepted addition leaves two GA phases active at some instant exactly when both are bounded, start together and last at least two nanoseconds. |
| Timeline.SameStartIsAccepted | internal/domain/entities/phase.go:196-211 | Two such phases are accepted one after the other and are then active together. |
| Pricing.PhaseRef.AddPrice | internal/domain/entities/phase.go:107-125 | Appends, or refuses a second price in the currency. |
| Pricing.PhaseRef.DeletePrice | internal/domain/entities/phase.go:128-140 | Removes the price in the currency; nothing happens when there is none. |
| Pricing.PhaseRef.AddFee | internal/domain/entities/phase.go:71-89 | Appends, or refuses a second fee with the name and currency. |
| Pricing.PhaseRef.DeleteFee | internal/domain/entities/phase.go:92-104 | Removes that fee; nothing happens when there is none. |
| Pricing.PriceEditsExact | internal/domain/entities/phase.go:107-140 | When a price is added or deleted, which one, and that a phase that is over refuses. |
| Pricing.FeeEditsExact | internal/domain/entities/phase.go:71-104 | The same for fees, by name and currency. |
| Pricing.GetPriceExact | internal/domain/entities/phase.go:219-229 | The first price in the upper-cased currency is found, and none exactly when there is none. |
| Pricing.GetFeesExact | internal/domain/entities/phase.go:256-264 | The fees found are exactly those in the upper-cased currency, in list order. |
| Pricing.EveryRunKeepsEntriesUnique | internal/domain/entities/phase.go:71-140 | Over every run of the four operations there is at most one price per currency and one fee per name and currency. |
| Pricing.PriceOrderDoesNotMatter | internal/domain/entities/phase.go:219-229 | With unique currencies the price found does not depend on the order of the list. |
| Pricing.FeeOrderOnlyReorders | internal/domain/entities/phase.go:256-264 | Reordering the fees only reorders the fees found. |
| Quotes.Quote.AddFeeAndUpdatePrice | internal/domain/entities/quote.go:46-90 | A successful call keeps the price equal to the 64-bit sum of the converted items, with the fee itemised once or once a year; it succeeds exactly when the fee can be brought to the currency of the price. |
| Quotes.PriceEngine.FindPremium | internal/domain/entities/priceEngine.go:91-137 | The loop takes the last matching premium entry, and stops at the first match that has no amount for the transaction. |
| Quotes.PriceEngine.Select | internal/domain/entities/priceEngine.go:71-170 | Which yearly fee applies: grandfathered, premium or phase price, each with its currency fallback; the amounts are determined by `QuoteLaws.PhasePriceIsCharged`, `QuoteLaws.PremiumIsCharged` and `QuoteLaws.GrandfatheredIsCharged`. |
| Quotes.PriceEngine.AddPhaseFees | internal/domain/entities/priceEngine.go:46-68 | The phase fees in the currency, or else in the base currency, are itemised once each. |
| Quotes.PriceEngine.QuotableParts | internal/domain/entities/priceEngine.go:173-221 | The condition for a quote, split into the request, the phase fees and the yearly fee. |
| Quotes.PriceEngine.GetQuote | internal/domain/entities/priceEngine.go:173-221 | A quote is given exactly for quotable requests, which `QuoteLaws.QuotableExact` tells by guards; its items are the phase fees followed by the yearly fee for every year, and its price is their 64-bit sum in the requested currency. |
| QuoteLaws.PriceIsLinear | internal/domain/entities/priceEngine.go:173-221 | The items add up to the phase fees plus years times the unit price. |
| QuoteLaws.QuotableExact | internal/domain/entities/priceEngine.go:173-221 | Exactly which requests get a quote: the phase, the request, and for each fee and the yearly amount a currency that is the requested one or is exchanged into it. |
| QuoteLaws.ContributionExact | internal/domain/entities/quote.go:53-75 | What a fee counts: its amount in the currency of the quote, or the amount exchanged at the given rate. |
| QuoteLaws.PhasePriceIsCharged | internal/domain/entities/price.go:43-62 | Without premium entries every year costs the registration, renewal, transfer or restore amount of the price in the requested currency, or else of the one in the base currency. |
| QuoteLaws.NoPriceIsFree | internal/domain/entities/priceEngine.go:140-152 | Without a price in either currency only the phase fees are charged. |
| QuoteLaws.GrandfatheredIsCharged | internal/domain/entities/priceEngine.go:71-88 | A grandfathered renewal costs the grandfathered amount every year. |
| QuoteLaws.PremiumIsCharged | internal/domain/entities/priceEngine.go:91-137 | With premium entries every year costs the amount of the last entry for the label in the requested, or else the base currency. |
| QuoteLaws.PhaseFeesExact | internal/domain/entities/priceEngine.go:46-68 | The fees charged once are those in the requested currency or, if there are none, those in the base currency. |
| QuoteLaws.NoStepOverflows | internal/domain/entities/quote.go:46-90 | When every item is worth at most (2^63 - 1) / (number of phase fees + 10), no running total and no yearly product leaves 64 bits, and the price is the exact sum. |
| QuoteLaws.TotalIgnoresOrder | internal/domain/entities/quote.go:46-90 | A total does not depend on the order of its items. |
| QuoteLaws.QuoteIgnoresOrder | internal/domain/entities/priceEngine.go:46-170 | Reordering the prices and fees of a phase changes neither whether a request can be quoted nor its price. |
| QuoteLaws.PremiumAutoRenewalIsNeverQuoted | internal/domain/entities/priceEngine.go:91-137 | With premium entries no automatic renewal can be quoted. |
| Escrow.RemoveDuplicates | internal/application/services/escrow_service.go:2022-2032 | Gives the first occurrence of each text. |
| Escrow.FirstsExact | internal/application/services/escrow_service.go:2020-2032 | These are the same texts, each once. |
| Escrow.FirstsInOrder | internal/application/services/escrow_service.go:2020-2032 | They come in the order in which they first appear. |
| Escrow.DuplicateHostCommands | internal/application/services/escrow_service.go:1919-2017 | The result is the input followed by the new commands of each input command in order. |
| Escrow.NewCommandsExact | internal/application/services/escrow_service.go:1973-2012 | A command is new exactly when some input command's host is used by a domain of another registrar; it is then that command with the registrar replaced, and the creator and updater too where they were set and not the old sponsor. |
| Escrow.NewCommandFields | internal/application/services/escrow_service.go:1999-2013 | Field by field, what a new command says, the rule for creator and updater included. |
| Escrow.RegistrarOfExact | internal/application/services/escrow_service.go:1964-1969 | The last row of a domain decides its registrar, and a domain without a row has the empty one. |
| Escrow.DotsDoNotCount | internal/application/services/escrow_service.go:1934-1935 | Dots around a name do not count. |
| Escrow.EveryLinkIsCovered | internal/application/services/escrow_service.go:1931-2017 | For each host with a command and each domain that uses it the result has a command with that name, addresses, flags and RoID for the registrar of the domain. |
| Escrow.NoRepeatsExactly | internal/application/services/escrow_service.go:1973-2017 | No (name, registrar) pair comes twice exactly when input commands with one name are for different registrars and for hosts no domain uses; so distinct names are enough. |
| Contacts.Contact.SetStatus | internal/domain/entities/contact.go:186-286 | The object after the call is the step function of the flags before. |
| Contacts.Contact.UnSetStatus | internal/domain/entities/contact.go:289-341 | The same for unsetting. |
| Contacts.ClashesExactly | internal/domain/entities/contact.go:202-279 | The switch refuses a flag exactly when it breaks a rule of section 2.2 of RFC 5733. |
| Contacts.SetStatusExact | internal/domain/entities/contact.go:186-286 | From a valid contact, exactly when setting succeeds; a success keeps the rules and changes that flag only besides `ok`, and a failure changes nothing. |
| Contacts.UnSetStatusExact | internal/domain/entities/contact.go:289-341 | The same for unsetting. |
| Contacts.UnknownIsRefused | internal/domain/entities/contact.go:277-339 | An unknown status is refused, with which error, and changes nothing. |
| Contacts.FinalCheckExact | internal/domain/entities/contact.go:214-284 | The check at line 282 fails exactly when `linked` is set on a contact that was invalid before, so the branch at line 283 is dead from valid contacts; and `pendingUpdate` is refused inside the switch only for another pending action, so the branch at line 216 is dead. |
| Contacts.UnSetUndoesSet | internal/domain/entities/contact.go:186-341 | Unsetting after setting restores a valid contact exactly when the flag was not there before. |
| Contacts.EveryRunKeepsRules | internal/domain/entities/contact.go:186-355 | Every run from a valid contact keeps `ok` exactly on idle contacts, at most one pending action, and none with its own prohibition. |
| Contacts.ReachableExactly | internal/domain/entities/contact.go:186-355 | The statuses that a new contact can reach are exactly the valid ones without both update prohibitions, since each refuses the other. |
| Text.TrimExact | internal/application/services/escrow_service.go:1934-1935 | Trimming takes off nothing but the character and leaves none at either end. |
| Text.JoinUndoesSplit | internal/domain/entities/roidType.go:75-88 | Splitting loses nothing and no piece holds the separator. |
| Text.ParsesBack | internal/domain/entities/roidType.go:75-78 | Parsing a written number gives it back exactly when it fits 64 bits. |
| Ascii.IsASCII | internal/domain/entities/ascii.go:8-15 | True exactly when every byte is below 128. |
| Ascii.RemoveNonASCII | internal/domain/entities/ascii.go:18-26 | Keeps exactly the bytes below 128, in order. |
| Ascii.RemoveNonAlphaNumeric | internal/domain/entities/ascii.go:29-37 | Keeps exactly the letters and numbers of Latin-1 and dashes, in order. |
| Ascii.KeptExact | internal/domain/entities/ascii.go:18-37 | A filter keeps every byte that passes as often as it occurs, no other, and changes nothing when all pass. |
| Ascii.FiltersCommute | internal/domain/entities/ianaRegistrar.go:61-65 | The order of the filters does not matter. |
| ClIDs.CreateClIDExact | internal/domain/entities/ianaRegistrar.go:55-80 | An identifier is made exactly when the number has three digits or the name leaves something; it then has 3 to 16 characters of [a-z0-9-] without an outer dash. |
| ClIDs.SlugInOnePass | internal/domain/entities/ianaRegistrar.go:57-69 | The pipeline of filters is one look at each character: letters, digits and dashes stay, a blank is a dash, the rest goes. |
| ClIDs.CommaEndsTheName | internal/domain/entities/ianaRegistrar.go:56-57 | Only what stands before the first comma counts. |
| ClIDs.DraftBegins | internal/domain/entities/ianaRegistrar.go:70-78 | The identifier begins with the first sixteen digits of the number, followed by nothing or by a dash and more. |
| ClIDs.NumberIsRecoverable | internal/domain/entities/ianaRegistrar.go:55-80 | A number below 10^16 can be read off its identifier whatever the name. |
| ClIDs.IdentifiersAreUnique | internal/domain/entities/ianaRegistrar.go:55-80 | Different numbers below 10^16 give different identifiers for all names. |
| ClIDs.LongerNumbersCollide | internal/domain/entities/ianaRegistrar.go:70-78 | From 10^16 on a number shares its identifier with the number without its last digit. |
| ClIDs.NegativeNumbersCollide | internal/domain/entities/ianaRegistrar.go:70-78 | A negative number shares the identifier of its opposite exactly when number, dash and slug have fewer than sixteen characters or a dash as the sixteenth. |
| ClIDs.PlainIsNormal | internal/domain/entities/stringNormalizer.go:11-43 | Normalizing changes nothing in the alphabet of the identifiers. |
| RoIDs.PartsComeBack | internal/domain/entities/roidType.go:44-88 | For every 64-bit number and known kind, Int64 and ObjectIdentifier give the parts back; the identifier is valid and SystemIdentifier gives the repository exactly when the number is not negative. |
| RoIDs.KindsAndCodes | internal/domain/entities/roidType.go:44-55 | How the identifier of each kind of object is written, and that there are no other kinds. |
| RoIDs.ValidExactly | internal/domain/entities/roidType.go:58-67 | Valid are exactly two words of at most 80 and 8 characters around a dash, with an underscore somewhere. |
| RoIDs.RoIDsAreUnique | internal/domain/entities/roidType.go:44-55 | No two objects share an identifier. |
| RoIDs.ValidHasParts | internal/domain/entities/roidType.go:58-88 | ObjectIdentifier stays in range exactly when there is an underscore, so validated identifiers always have their parts. |

## Left out

- HTTP controllers, command-line tools, EPP and WHOIS servers, schedules and the database layer: input and output. Stored domains, hosts and links are maps, and a store or delete that fails is not modelled.
- Runs.EveryRunKeepsStatus: transfers, administrative edits and `Create` are not events, because they install statuses and dates of their own.
- Workflows.ExpiryLoop: each service call is one step without database failures; that the list query and the loop see the same instant is an assumption. RoIDs never change, so their order is a list of all names.
- Workflows.RestoreWorkflow: the listed domains are given; that their list is one page, too, is not modelled. An activity either takes effect or leaves everything as it was, so an activity that stores its change and then reports a failure is not covered.
- Purge.PurgeActivity: the loop over the page of listed domains, and a failing creation of the blocking record, are not modelled.
- Services.DomainService.RenewDomain: the fee extension of the command and the lifecycle event are not modelled; a quote that fails is a domain outside `quotable`, or outside `autoQuotable` for automatic renewals and restores.
- HostLinks.EveryRunKeepsLinks: hosts are known by the number in their RoID, so a malformed RoID is not an event; looking a host up by name instead of by RoID ends in the same operations and is not modelled separately.
- Phases.TLD.EndPhase: the clock is read once per call, where the code reads it in several helpers. The same holds for the other phase operations.
- Quotes.PriceEngine.GetQuote: exchange rates are an arbitrary function on amounts, the class of a quote is not modelled, and domain name and client identifier checks are one flag.
- QuoteLaws.PriceIsLinear: the law is about exact sums; `QuoteLaws.NoStepOverflows` says when the 64-bit price is that sum.
- Escrow.DuplicateHostCommands: the two CSV files are sequences of the columns that are read.
- ClIDs.CreateClIDExact: lower-casing is any function that leaves no ASCII capital.
- ClIDs.NewClID: normalization knows the ASCII white space only, which is all that can occur in an identifier made from a registrar.
- Hosts.Host.SetStatus: unknown status texts, which are refused before anything changes, are not modelled, nor are adding and removing addresses.
- The name, contact and authorization checks of a new domain, contact-data policies, filters, deep copies and other plain validators: they would add only easy members.
- `GetCurrentLaunchPhases`: it indexes all phases by the number of launch phases, so it does not compute what its comment says.
- Concurrent use of one domain, host or TLD: the operations are sequential here.
