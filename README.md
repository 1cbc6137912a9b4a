# svcwatch core, modelled in Dafny

svcwatch watches the Services a label selects in one Kubernetes
namespace and keeps a small JSON state file describing the addresses of
the service in the latest event. It rewrites the file only when that
description changes. This project models the three pieces of logic behind
that behaviour and proves their properties:

- **State file** (`statefile.dfy`, module `StateFile`). `HostInfo` is a
  name/IPv4/target record and `HostState` is a reference string plus an
  ordered list of records. `Differs` is the strict positional comparison.
  Its index scan is `ItemsDifferFrom`, which mirrors the early-return
  `for` loop.
- **Service conversion** (`service.dfy`, module `Service`, helped by
  `decimal.dfy`, module `Decimal`, which models `%d` formatting).
  `ToHostState` is a method whose loop appends one record per
  load-balancer ingress entry, like the Go code. It is proved equal to the
  declarative `HostStateOf`, which the functions and lemmas use.
  `Updated` pairs the conversion with `Differs`.
- **Update loop** (`watcher.dfy`, module `Watcher`). `ProcessUpdates`
  models `processUpdates`. The update channel is a
  `seq<Option<Service>>` in which `None` is the nil sentinel. `Save` is an
  abstract write whose result for event k is `outcomes[k]`. The method
  returns how many events it handled, the state it holds, every save
  attempt and every error emitted. Its postconditions tie these to the
  specification functions `Conversions`, `HeldBefore`, `SavesAt`,
  `Attempts` and `FailedMessages`, and the lemmas beside them state the
  loop's properties.

After a failed write the held state is already the new state: `hs` is
reassigned at main.go:65, before `Save` at main.go:67. So an identical next
event triggers no write; `FailedSaveNotRetried` and `SameStateNotResaved`
state this.

## Model

| member | source | states |
|---|---|---|
| `StateFile.Differs` | pkg/statefile/statefile.go:50-63 | the comparison itself: reference, then record count, then records position by position; its meaning is stated by `DiffersIff` and `DiffersIsInequality` |
| `StateFile.ItemsDifferFromIff` | pkg/statefile/statefile.go:57-62 | the record scan from index i reports a difference iff some position at or after i holds two different records |
| `StateFile.DiffersIff` | pkg/statefile/statefile.go:50-63 | Differs is true iff the references differ, or the lengths differ, or the records differ at some common position |
| `StateFile.DiffersIsInequality` | pkg/statefile/statefile.go:48-63 | Differs(a, b) holds exactly when a and b are not structurally equal |
| `StateFile.DiffersIrreflexive` | pkg/statefile/statefile.go:50-63 | no state differs from itself |
| `StateFile.DiffersSymmetric` | pkg/statefile/statefile.go:50-63 | a.Differs(b) == b.Differs(a) |
| `StateFile.SwapDiffers` | pkg/statefile/statefile.go:57-61 | the comparison is positional: exchanging two different records gives a state that differs from the original |
| `Decimal.DecimalString` | pkg/service/service.go:44 | the `%d` rendering of an index; its meaning is stated by `DecimalStringDigits`, `ParseDecimalString` and `DecimalStringInjective` |
| `Decimal.DecimalStringDigits` | pkg/service/service.go:44 | the `%d` rendering of an index is non-empty, made only of digits, and has no leading zero unless it is the single digit 0 |
| `Decimal.ParseDecimalString` | pkg/service/service.go:44 | reading the rendering back as a decimal number gives the index again |
| `Decimal.DecimalStringInjective` | pkg/service/service.go:44 | different indexes render to different strings |
| `Service.HostStateOf` | pkg/service/service.go:28-60 | the conversion as a function; its shape is stated by `HostStateOfShape` and `NamesDistinct`, and `ToHostState` is proved equal to it |
| `Service.ToHostState` | pkg/service/service.go:28-60 | the append loop builds exactly the declarative conversion HostStateOf |
| `Service.BaseNameChoice` | pkg/service/service.go:30-34 | the base name is the name label's value when it is non-empty, and the object name when the label is absent or present but empty |
| `Service.HostStateOfShape` | pkg/service/service.go:35-58 | the reference is "k8s: " + namespace + " service/" + object name; there is one record per ingress entry plus one when ClusterIP is non-empty; ingress record i has ingress IP i, target "external" and name base (i = 0) or base-i; the last record for a non-empty ClusterIP is {base-cluster, ClusterIP, "internal"}, and it is the only internal record |
| `Service.IndexedNameNotCluster` | pkg/service/service.go:44-54 | a name base-d, with d a rendered index, never equals base-cluster |
| `Service.ItemNamesDistinct` | pkg/service/service.go:40-45 | records for different ingress entries get different names |
| `Service.NamesDistinct` | pkg/service/service.go:39-58 | all record names in a converted state are pairwise distinct |
| `Service.Updated` | pkg/service/service.go:65-70 | the conversion paired with the change flag; its meaning is stated by `UpdatedReportsChange` and `UpdatedUnchanged` |
| `Service.UpdatedReportsChange` | pkg/service/service.go:65-70 | Updated returns the conversion, and it reports a change iff the conversion is not the previous state |
| `Service.UpdatedUnchanged` | pkg/service/service.go:65-70 | comparing a service with its own conversion reports no change |
| `Service.ConvertedDiffersFromZero` | pkg/service/service.go:35-38 | every converted reference starts with "k8s: ", so every conversion differs from the zero state |
| `Watcher.ProcessUpdates` | main.go:55-73 | events are handled in order up to the first nil one; every event before it is a service; the held state is the one HeldBefore gives; the saves are exactly Attempts over the conversions; the errors are exactly the failed saves' messages |
| `Watcher.StepOfLoop` | main.go:65-71 | one loop turn: the held state becomes the event's conversion, Updated's flag equals SavesAt, and a save is appended exactly when that flag is set |
| `Watcher.HeldIsLastConversion` | main.go:59-65 | before any event the held state is the zero state; after n events it is the conversion of event n - 1, whatever that event's save returned |
| `Watcher.ConversionsAt` | main.go:61-65 | the state recorded for event k is the conversion of event k |
| `Watcher.AttemptsSound` | main.go:65-71 | every save belongs to an event whose conversion differs from the held state; it writes that conversion to the path with that event's outcome; saves are in strictly increasing event order, at most one per event |
| `Watcher.AttemptsBefore` | main.go:61-72 | no save made for the first n events belongs to a later event |
| `Watcher.AttemptsComplete` | main.go:65-67 | a save is attempted for event k iff its conversion differs from the state held just before it |
| `Watcher.AttemptsPrefix` | main.go:61-72 | the saves for the first n events depend only on the first n conversions and outcomes |
| `Watcher.SavesIffDiffers` | main.go:65-66 | event k is saved iff Differs reports a change against the zero state (k = 0) or the previous event's conversion (k > 0), independent of earlier outcomes |
| `Watcher.FailedMessagesSnoc` | main.go:67-70 | a failed save adds exactly its own error; a successful save adds none |
| `Watcher.FailedMessagesAppend` | main.go:67-70 | errors come one per failed save, in order: the error list of concatenated runs is the concatenation of their error lists |
| `Watcher.FailedMessagesBound` | main.go:67-70 | there are never more errors than saves, and there are none iff every save succeeded |
| `Watcher.RunBounds` | main.go:61-72 | errors emitted <= saves attempted <= events handled |
| `Watcher.FirstEventSaves` | main.go:59-67 | the first event, when it is a service, is always saved |
| `Watcher.SameStateNotResaved` | main.go:65-67 | in a run of consecutive events with the same conversion, only the first can be saved, whatever its save returned |
| `Watcher.FailedSaveNotRetried` | main.go:65-70 | after a failed save for event k, an event k + 1 with the same conversion triggers no save |
| `Watcher.ConversionsPrefix` | main.go:61-65 | the conversions of the first n events depend only on those events |
| `Watcher.LaterEventsIgnored` | main.go:61-64 | two event sequences that agree up to and including the first nil event stop there and give the same conversions and saves, whatever follows |

## Left out

- `HostState.Save` (pkg/statefile/statefile.go:38-46) creates the file and JSON-encodes the state; that is I/O and a foreign library. The model keeps only its path argument, the state written and its result (`outcomes[k]` for the save made while handling event k).
- ProcessUpdates: the save outcomes are supplied per event, so the method requires one outcome per event; only the outcomes of saved events are read.
- The `errors` channel's capacity of one and its blocking send (main.go:125, 69) are concurrency details. Emitted errors are an appended sequence.
- The `main` select loop, the goroutine launch, signal handling, the nil-then-close shutdown and `w.Stop()` (main.go:125-157) coordinate concurrent sources. The model covers what the loop does with the sequence of events it receives.
- Flag and environment configuration (`envFlag`), zap logging, and Kubernetes clientset and watch creation with their exit codes (main.go:75-123, 160-182) are I/O and external client libraries.
- The initial `changed := true` (main.go:60) is always overwritten before it is read, so it is not modelled.
- `corev1.Service` is reduced to the fields the conversion reads: name, namespace, labels, the IP of each load-balancer ingress entry, and ClusterIP.
