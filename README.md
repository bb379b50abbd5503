# ServiceContext telemetry initializer — a Dafny model

`ServiceContextTelemetryIntitializer` is an Application Insights telemetry
initializer. When it is constructed it takes a snapshot of the process
environment:

- the application name (`APPINSIGHTS_APP_NAME`) and the application version
  (`APPINSIGHTS_APP_VERSION`), read by exact name, an empty value counting as
  unset;
- a context map built from every variable whose name starts with
  `APPINSIGHTS_APP_CONTEXT_`, compared ignoring case. The key is the name with
  its first 24 characters removed, kept as it is spelled. When two variables
  give the same key, the first one enumerated wins.

`Initialize` then writes that snapshot into every telemetry record. A stored
version overwrites the record's component version. A stored name overwrites
its cloud role name. A slot with nothing stored is left alone. Every context
entry is written into the record's property bag and replaces an entry with
the same key.

Files:

- `Wrappers.dfy`: `Option`, the model's stand-in for a C# `null` string.
- `Strings.dfy`: `StartsWith(…, StringComparison.OrdinalIgnoreCase)` as a
  character-by-character comparison after ASCII upper-casing.
- `Telemetry.dfy`: the three record slots the initializer writes, as the
  class `TelemetryRecord` with a value view `Record`.
- `ServiceContext.dfy`: the constants, the reading of one variable, the
  context scan, and the initializer class with both constructors and
  `Initialize`.

The environment is a `seq<(string, string)>` of (name, value) pairs in
enumeration order, so "first wins" is a statement about positions. `Parsed`
is the reference definition of the scan. It is a right fold in which an
entry overrides whatever later entries stored under its key. The imperative
`ParseContext` loop runs left to right and adds a key only when it is absent.
`ParsedSnoc` is the lemma that ties the two together. `Enrich` is the value
form of `Initialize`. The class method's postcondition equates the record's
new value with `Enrich` of its old value. The lemmas stated about `Enrich`
(`EnrichIdempotent`, `EmptySnapshotIsNoOp`, `EmptyEnvironmentIsNoOp`) reach
`Initialize` through that postcondition: calling `Initialize` twice on one
record leaves it as one call does, and an empty snapshot leaves it unchanged.

The prefix is stripped once only, as the code does. A name such as
`APPINSIGHTS_APP_CONTEXT_APPINSIGHTS_APP_CONTEXT_X` therefore yields a key that
still begins with the prefix, and the bare prefix yields the empty key
(`PrefixStrippedOnce`). The internal constructor does not normalise its name
and version, so an empty string given there is written into records.

## Model

| member | source | states |
|---|---|---|
| `Strings.StartsWithIgnoreCase` | src/Microsoft.ApplicationInsights.ServiceContext/ServiceContextTelemetryIntitializer.cs:68 | true exactly when the string is at least as long as the prefix and each of its first characters equals the prefix's character ignoring case |
| `ServiceContext.Lookup` | src/Microsoft.ApplicationInsights.ServiceContext/ServiceContextTelemetryIntitializer.cs:84 | absent exactly when no entry has that exact name; otherwise the value of the first entry with that name |
| `ServiceContext.GetEnvironmentVariable` | src/Microsoft.ApplicationInsights.ServiceContext/ServiceContextTelemetryIntitializer.cs:82-86 | absent exactly when the variable is unset or empty; otherwise the variable's value unchanged, never the empty string |
| `ServiceContext.IsContextVariable` | src/Microsoft.ApplicationInsights.ServiceContext/ServiceContextTelemetryIntitializer.cs:68 | a name shorter than the 24-character prefix is never a context variable |
| `Strings.EqualsIgnoreCase` | src/Microsoft.ApplicationInsights.ServiceContext/ServiceContextTelemetryIntitializer.cs:68 | two characters match ignoring case exactly when they are equal or one is a lower-case ASCII letter and the other its upper-case form |
| `ServiceContext.DistinguishedNamesAreNotContextVariables` | src/Microsoft.ApplicationInsights.ServiceContext/ServiceContextTelemetryIntitializer.cs:16-18 | neither `APPINSIGHTS_APP_NAME` nor `APPINSIGHTS_APP_VERSION` matches the context prefix, so neither is scanned into the context |
| `ServiceContext.ContextKey` | src/Microsoft.ApplicationInsights.ServiceContext/ServiceContextTelemetryIntitializer.cs:70 | the key is the name minus exactly its first 24 characters; those characters followed by the key give back the name |
| `ServiceContext.ParsedSnoc` | src/Microsoft.ApplicationInsights.ServiceContext/ServiceContextTelemetryIntitializer.cs:68-75 | one more scanned variable is added only when it is a context variable whose key is not yet present; otherwise the context is unchanged |
| `ServiceContext.ParseContext` | src/Microsoft.ApplicationInsights.ServiceContext/ServiceContextTelemetryIntitializer.cs:59-80 | a null environment gives the empty map; otherwise the left-to-right, add-if-absent scan equals the reference context `Parsed` |
| `ServiceContext.ParsedKeys` | src/Microsoft.ApplicationInsights.ServiceContext/ServiceContextTelemetryIntitializer.cs:65-75 | a key is in the context if and only if some variable is a context variable whose stripped name is that key |
| `ServiceContext.ParsedFirstWins` | src/Microsoft.ApplicationInsights.ServiceContext/ServiceContextTelemetryIntitializer.cs:71-74 | the earliest variable yielding a key puts that key in the context with its own value |
| `ServiceContext.ParsedValueOrigin` | src/Microsoft.ApplicationInsights.ServiceContext/ServiceContextTelemetryIntitializer.cs:71-74 | every stored value is the value of the earliest variable yielding its key |
| `ServiceContext.NonContextVariableIgnored` | src/Microsoft.ApplicationInsights.ServiceContext/ServiceContextTelemetryIntitializer.cs:68 | inserting a variable that does not match the prefix anywhere in the environment leaves the context unchanged |
| `ServiceContext.LaterDuplicateIgnored` | src/Microsoft.ApplicationInsights.ServiceContext/ServiceContextTelemetryIntitializer.cs:71-74 | a variable whose key an earlier variable already supplied is ignored, wherever it stands later |
| `ServiceContext.PrefixStrippedOnce` | src/Microsoft.ApplicationInsights.ServiceContext/ServiceContextTelemetryIntitializer.cs:70 | only one copy of the prefix is removed, so a key may still start with the prefix; the bare prefix yields the empty key |
| `ServiceContext.PrefixStripLaw` | src/Microsoft.ApplicationInsights.ServiceContext/ServiceContextTelemetryIntitializer.cs:65-75 | a variable named by any case variant of the prefix plus `key`, with no earlier variable yielding `key`, puts `key` with its value into every enriched record's property bag |
| `ServiceContext.UnrelatedKeyNotAdded` | src/Microsoft.ApplicationInsights.ServiceContext/ServiceContextTelemetryIntitializer.cs:65-75 | a key that no environment variable yields does not appear in an enriched record's property bag unless it was there before |
| `ServiceContext.EnrichIdempotent` | src/Microsoft.ApplicationInsights.ServiceContext/ServiceContextTelemetryIntitializer.cs:39-57 | initializing a record twice with one snapshot gives the same record as initializing it once |
| `ServiceContext.EmptySnapshotIsNoOp` | src/Microsoft.ApplicationInsights.ServiceContext/ServiceContextTelemetryIntitializer.cs:39-57 | with no name, no version and an empty context, a record is left unchanged |
| `ServiceContext.EmptyEnvironmentIsNoOp` | src/Microsoft.ApplicationInsights.ServiceContext/ServiceContextTelemetryIntitializer.cs:25-30 | the snapshot taken of an empty environment leaves every record unchanged |
| `ServiceContext.ServiceContextTelemetryIntitializer.FromEnvironment` | src/Microsoft.ApplicationInsights.ServiceContext/ServiceContextTelemetryIntitializer.cs:25-30 | the snapshot is the normalised name and version read by exact name, and the scanned context of the environment |
| `ServiceContext.ServiceContextTelemetryIntitializer.constructor` | src/Microsoft.ApplicationInsights.ServiceContext/ServiceContextTelemetryIntitializer.cs:32-37 | name and version are stored as given; the context is empty for a null environment and the scanned context otherwise |
| `ServiceContext.ServiceContextTelemetryIntitializer.Initialize` | src/Microsoft.ApplicationInsights.ServiceContext/ServiceContextTelemetryIntitializer.cs:39-57 | a stored version or name overwrites its slot and an absent one leaves it alone; afterwards every context key maps to its context value, other keys keep their old values, and the key set is the old keys plus the context keys |

## Left out

- Reading the real process environment (`Environment.GetEnvironmentVariables` and `Environment.GetEnvironmentVariable`): the environment is a parameter, a sequence of (name, value) pairs. The name and the version are looked up by exact, case-sensitive name. The case-insensitive lookup that Windows performs is not modelled.
- Duplicate names: a real environment has distinct names, but the model accepts any sequence. `Lookup` takes the first entry with the name, and the scan takes each entry's own value.
- The host SDK's `ITelemetry` and its `Context.Component`, `Context.Cloud` and `Context.Properties`: replaced by `TelemetryRecord` with three slots. A null record or a null property bag, which would throw, is not modelled.
- `ToString()` on the non-generic dictionary's keys and values: entries are strings already. A null value, on which `ToString()` would throw, is not modelled.
- Full Unicode case folding of `StringComparison.OrdinalIgnoreCase`: only the ASCII letters are folded.
- The order in which `Initialize` visits the context entries: the loop picks keys in an arbitrary order. The result does not depend on it because the keys are distinct.
- Thread safety and the publication of the readonly fields: concurrency is outside a sequential model.
