# FQDN remediation client — Dafny model

The client lists the managed assets of an asset-inventory service, finds the
assets that have no fully-qualified domain name (FQDN) on any network
interface ("orphaned" assets), fetches the full record of each and, when
updating is enabled, writes back each record that carries the detection
marker, with its empty first hostname name filled in as
`<asset name>.<domain>`. The patch is textual: the record is
never parsed, a fixed piece of JSON text is searched for and replaced.

This project models the decision logic of `main.go`:

- `text.dfy`, module `Text`: the string operations the client uses (Go's
  `strings.Index`, `strings.Contains`, `strings.Count`, `strings.Replace` with
  `n = -1`) over `seq<char>`, with left-to-right, non-overlapping matching, and
  a reference view of replace-all through `Split`/`Join`.
- `inventory.dfy`, module `Inventory`: the `Asset`, `AssetNetworkInterface`,
  `NetworkInterfaceHostname` and `AssetResult` records, the orphan predicate
  and the order-preserving filter `Orphaned`.
- `session.dfy`, module `Session`: request shaping in `newRequest` (session
  cookie, anti-forgery token, Accept, User-Agent, and a JSON Content-Type only
  with a body), the asset paths, the reply decision in `do`, and the single
  fetch and write-back of an asset. The transport is a function parameter.
- `patch.dfy`, module `Patch`: the detection marker, the replace pattern, the
  per-record patch `TryPatch` and the updates planned for a list of fetched
  records.
- `process.dfy`, module `Process`: the two loops of `Process` as methods — the
  classification pass with its nested loops and the patch pass — and the
  acknowledgement-count defect listed under Findings.

Where the documented behaviour of the client and its code differ, the model
follows the code:

- The classifier does not stop at the first non-empty hostname; the flag keeps
  being set. The result is the same.
- The detail fetch of an orphaned asset is dispatched during classification:
  a goroutine for the fetch is started even in detect-only mode, and the
  process may exit at main.go:252 before the request is sent
  (`Process.CollectOrphaned` records the dispatch).
- An error from the inventory query is printed and the code then dereferences
  the missing result; the query phase is not modelled (see below).
- Only the update mode reports anything: without it (main.go:228) the run
  prints its banner and exits, with no total and no asset names. In update
  mode the names printed at main.go:236 are those of the records that carry
  the detection marker, not all orphaned assets.
- A record is selected only when the empty name is followed by a comma
  (main.go:234). A binding whose empty name is the last field of its entry,
  `{"NetworkInterfaceHasHostname":[{"name":""}]}`, is never selected or
  rewritten (`Patch.LastFieldEmptyNameNotSelected`).

## Model

| member | source | states |
|---|---|---|
| `Text.Index` | main.go:234 | the result is -1 exactly when the pattern occurs nowhere; otherwise the pattern occurs there and at no earlier index |
| `Text.Contains` | main.go:193 | Go's containment test, taken as `Index >= 0`; its meaning is stated by `Text.ContainsIffOccurs` |
| `Text.ContainsIffOccurs` | main.go:193 | the Index-based containment test holds exactly when the pattern occurs somewhere |
| `Text.Count` | main.go:237 | the non-overlapping occurrence count of a left-to-right scan; `Text.SplitCount` and `Text.CountZeroIffAbsent` state what it counts |
| `Text.ReplaceAll` | main.go:237 | Go's replace-all with no limit; `Text.ReplaceAllIsJoin`, `Text.ReplaceAllAtFirst`, `Text.ReplaceAllAbsent` and `Text.ReplaceAllLength` state its contract |
| `Text.JoinSplit` | main.go:237 | the pieces between the non-overlapping occurrences, glued back with the pattern, give the original text |
| `Text.ReplaceAllIsJoin` | main.go:237 | replace-all yields the same pieces, in order, with the replacement where each occurrence was |
| `Text.SplitPiecesFree` | main.go:237 | no piece left between the occurrences contains the pattern, so every occurrence the left-to-right scan meets is rewritten; occurrences that overlap one already met (the pattern starts and ends with a quote, so two can share one) are not |
| `Text.SplitCount` | main.go:237 | there is exactly one more piece than there are occurrences |
| `Text.CountZeroIffAbsent` | main.go:237 | the occurrence count is zero exactly when the pattern does not occur |
| `Text.ReplaceAllAbsent` | main.go:237 | with no occurrence, replace-all returns its input unchanged |
| `Text.ReplaceAllLength` | main.go:237 | the output length is the input length plus (|replacement| − |pattern|) per occurrence |
| `Text.ReplaceAllAtFirst` | main.go:237 | replace-all copies the text before the first occurrence, writes the replacement and continues after the occurrence |
| `Text.ReplaceAllCopies` | main.go:237 | a prefix free of occurrences is copied unchanged and replace-all continues on the rest |
| `Text.ReplaceAllGrows` | main.go:237 | replacing a present pattern by a longer text makes the text strictly longer |
| `Text.ReplaceAllOne` | main.go:237 | a single occurrence is replaced and the text on both sides kept |
| `Text.ReplaceAllTwo` | main.go:237 | two occurrences are both replaced by the same text and the text around and between them kept |
| `Inventory.IsOrphaned` | main.go:213-222 | the `hasFqdn` flag stays false: no hostname of any interface has a non-empty name; `Inventory.NamedHostnameDisqualifies`, `Inventory.EmptyHostnameKeepsClass` and `Inventory.NoHostnamesIsOrphaned` state its behaviour |
| `Inventory.Orphaned` | main.go:212-226 | the orphaned list as appended by the loop; `Inventory.OrphanedMembers`, `Inventory.OrphanedAppend`, `Inventory.OrphanedMultiplicity` and `Inventory.OrphanedLength` state its contract, and `Process.CollectOrphaned` is proved to compute it |
| `Inventory.OrphanedMembers` | main.go:212-226 | an asset is in the orphaned list exactly when it is in the input and has no non-empty hostname name |
| `Inventory.OrphanedAppend` | main.go:212-226 | the filter distributes over concatenation, so the input order is kept |
| `Inventory.OrphanedMultiplicity` | main.go:212-226 | each orphaned asset appears as often as in the input, any other asset never |
| `Inventory.OrphanedLength` | main.go:212-226 | the reported total is at most the number of assets, and equal to it exactly when every asset is orphaned |
| `Inventory.NamedHostnameDisqualifies` | main.go:216-219 | adding a hostname with a non-empty name to any interface makes the asset not orphaned |
| `Inventory.EmptyHostnameKeepsClass` | main.go:216-219 | adding a hostname with an empty name never changes the classification |
| `Inventory.NoHostnamesIsOrphaned` | main.go:213-222 | an asset with no interfaces, or none with hostnames, is orphaned |
| `Inventory.DetectOnlyScenario` | main.go:212-226 | of three assets (one named hostname, only empty names, no interfaces) exactly the last two form the orphaned list, in order |
| `Process.CollectOrphaned` | main.go:212-226 | the nested loops return exactly the orphaned subsequence and dispatch one detail request per orphaned asset, for that asset |
| `Process.PatchPhase` | main.go:232-240 | the loop dispatches exactly the planned updates; the number of writes is at most the number of records, and equal to it exactly when every record carries the detection marker |
| `Process.AcksAwaitedAsWritten` | main.go:246 | the number of acknowledgements the last loop waits for, one per orphaned asset; `Process.AckLoopOutwaitsWrites` shows it can exceed the writes dispatched |
| `Process.AckLoopOutwaitsWrites` | main.go:246-248 | one orphaned asset whose record lacks the marker: no write is dispatched while one acknowledgement is awaited |
| `Session.AssetPath` | main.go:92 | the detail and update path of an asset; `Session.AssetPathNamesAsset` states its contract |
| `Session.AssetPathNamesAsset` | main.go:92 | the asset path is the fixed prefix followed by the id, and different ids give different paths |
| `Session.NewRequest` | main.go:151-180 | the session cookie carries the client's cookie; token, Accept and User-Agent headers are always set; Content-Type is JSON and present exactly when there is a body; no other header besides the cookie, which is kept in its own list |
| `Session.DetailRequest` | main.go:91-93 | the detail fetch is a GET of the asset's path with no body and no Content-Type |
| `Session.UpdateRequest` | main.go:112-114 | the write-back is a PUT of the asset's path carrying the body as JSON |
| `Session.SearchRequest` | main.go:132 | the query is a POST to the search path carrying the query document as JSON |
| `Session.Do` | main.go:182-201 | a transport failure is passed on with its reason; a body with the 401 status marker is an auth failure whatever the status; otherwise non-200 is an error carrying the body; otherwise the body is returned unchanged |
| `Session.GetAssetDetails` | main.go:91-110 | the fetch succeeds exactly when the reply to the asset's detail request is a success, and then pairs that reply's body with the asset |
| `Session.UpdateAssetDetails` | main.go:112-129 | the write-back succeeds exactly when the reply to the asset's update request is a success, and then acknowledges that asset |
| `Patch.Replacement` | main.go:237 | the replacement keeps the pattern's key text and puts exactly `name.domain` as the name value, closed by a quote |
| `Patch.PatchedText` | main.go:237 | the rewritten record; `Patch.TryPatchKeepsOutside`, `Patch.TryPatchLength` and `Patch.PatchedTextWithoutPattern` state its contract |
| `Patch.TryPatch` | main.go:234-237 | the per-record step: the rewritten record when the marker is found, else nothing; `Patch.TryPatchSelects` states when it patches |
| `Patch.TryPatchSelects` | main.go:234-235 | a record is patched exactly when the detection marker occurs in it; otherwise nothing is produced |
| `Patch.TryPatchKeepsOutside` | main.go:237 | the patched record is the original's pieces between pattern occurrences, in order, with the FQDN replacement at every occurrence |
| `Patch.TryPatchLength` | main.go:237 | the patched record is longer by k·(|name| + 1 + |domain|), k the number of occurrences |
| `Patch.PatchedTextWithoutPattern` | main.go:237 | with no occurrence of the replace pattern the text is unchanged |
| `Patch.PatternIsQuotedMarker` | main.go:234-237 | the replace pattern is the detection marker behind a quote and without its trailing comma |
| `Patch.QuotedMarkerIsPattern` | main.go:234-237 | a detection marker preceded by a quote is an occurrence of the replace pattern one place earlier |
| `Patch.QuotedMarkerIsRewritten` | main.go:234-237 | a record whose marker follows a quote is patched and actually changes (it grows) |
| `Patch.LastFieldEmptyNameLacksMarker` | main.go:234 | the entry whose empty name is its last field does not contain the detection marker |
| `Patch.LastFieldEmptyNameNotSelected` | main.go:234-235 | that entry is never patched, although its first hostname's name is empty |
| `Patch.TryPatchSingleOccurrence` | main.go:234-237 | in a record with one pattern occurrence only that name field is filled in, every other character kept |
| `Patch.TryPatchTwoOccurrences` | main.go:237 | two occurrences (say on two interfaces) are both rewritten to the same FQDN |
| `Patch.UpdateOf` | main.go:234-238 | the write-back one fetched record gives rise to; `Patch.UpdateOfSelects` states it |
| `Patch.UpdateOfSelects` | main.go:234-238 | a record yields exactly one update, its patched text for its own asset, when it carries the marker, and none otherwise |
| `Patch.PlannedUpdates` | main.go:232-240 | the writes dispatched by the loop, in arrival order: each record's `Patch.UpdateOf`, concatenated; `Patch.PlannedUpdatesAppend`, `Patch.UpdateOfSelects`, `Patch.PlannedUpdatesIncludes`, `Patch.PlannedUpdatesArePatches` and `Patch.PlannedUpdatesCount` state its contract, and `Process.PatchPhase` is proved to compute it |
| `Patch.PlannedUpdatesAppend` | main.go:232-240 | planning distributes over concatenation, so updates keep the arrival order and each record contributes only its own update |
| `Patch.PlannedUpdatesIncludes` | main.go:232-240 | every record that carries the marker has its patched update, for its asset, among the planned ones |
| `Patch.PlannedUpdatesCount` | main.go:232-240 | there are at most as many updates as records, and as many exactly when every record carries the marker |
| `Patch.PlannedUpdatesArePatches` | main.go:232-240 | every update is the patched text, for its asset, of a fetched record that carries the marker |
| `Patch.PlannedUpdatesPermutation` | main.go:232-240 | reordering the arrivals reorders the writes and nothing else: the same updates are planned, as a multiset |

## Left out

- HTTP transport, URL parsing and resolution against the base URL, the cookie jar and reading the body: the transport is a parameter `Request -> Exchange`, and its failures are the `TransportFailure` case.
- Go canonicalises header keys (`X-XSRF-TOKEN` goes out as `X-Xsrf-Token`) and sanitises cookie values; the model keeps the keys and values as the code writes them.
- JSON decoding and `ListAssets`: assets are given as datatypes. The query document is opaque data and is a parameter of `Session.SearchRequest`; the error path of the query, where `Process` dereferences a missing result, is not modelled.
- Goroutines and channels: the fetch and write tasks run concurrently and their results arrive in any order; the model takes the arrival order as an input sequence (`Patch.PlannedUpdatesPermutation` shows that the order affects only the order of the writes) and records dispatched work as lists. The number of arrivals is not tied to the number of orphaned assets: main.go:232 receives exactly `len(orphaned)` results, one per dispatched fetch, whereas `Process.PatchPhase` takes any sequence of results. The write-back tasks themselves are modelled one at a time by `Session.UpdateAssetDetails`.
- Session.NewRequest: `req.AddCookie` writes the session cookie into the request's `Cookie` header; the model keeps the cookie in a separate `cookies` list, so its header map holds only the headers set by name.
- Session.NewRequest: the errors of `url.Parse` and `http.NewRequest` are not modelled; the code ignores the first, and attaches the cookie before testing the second, so its error return is reached only after using a missing request.
- `log.Fatal` and `os.Exit`: process termination is the `Fatal` result and the `AuthFailure` outcome.
- Command-line flag parsing; `UpdateAssets` is never bound to a flag, so the patch pass is unreachable from the command line.
- Console output, including the per-asset lines and totals.
- Text is `seq<char>`, not bytes; the patterns are ASCII, so matching agrees with matching on UTF-8 bytes.
- Text.ReplaceAll: requires a non-empty pattern; the only call uses a non-empty literal, and Go's behaviour for an empty pattern is not modelled.
- Patch.TryPatchSelects: re-patching an already patched record is shown to be a no-op only when no detection marker is left; a marker not preceded by a quote, or one spelled out inside the asset name or domain, survives a patch.

## Findings

| source | as written | input that shows it | evidently intended | confidence | as-written member | corrected member |
|---|---|---|---|---|---|---|
| main.go:246-248 | after the patch pass, the loop waits for `len(orphaned)` acknowledgements, but a write (and so an acknowledgement) is dispatched only for records that carry the detection marker (main.go:235) | one orphaned asset whose fetched record is `{"id":"2"}`: no write is dispatched, one acknowledgement is awaited, and the receive blocks forever | wait for one acknowledgement per dispatched write | not executed; high, though latent while `UpdateAssets` cannot be set | `Process.AcksAwaitedAsWritten`, `Process.AckLoopOutwaitsWrites` | `Process.PatchPhase` (its `dispatched` count, proved equal to the number of updates and to the number of records only when all carry the marker) |
