# Enrollment service model

A Dafny model of the enrollment service of a TypeScript event-registration API
(`src/services/enrollments-service/index.ts`). The service has four parts:

- **CEP validation and normalisation.** A CEP is a Brazilian postal code. Before any lookup,
  `getAddressFromCEP` rejects a CEP that is absent or is not 8 or 9 characters long.
  It inserts a hyphen into an 8-character CEP and checks the result against a format rule.
  It then builds the lookup key by removing the first hyphen of the original input.
- **ViaCEP response mapping.** ViaCEP is the external postal directory. Its answer is mapped
  to a five-field fragment, with `localidade` renamed to `cidade`. An empty answer, or one
  carrying `erro`, gives NotFound.
- **Read projection.** `getOneWithAddressByUserId` and `getFirstAddress` strip the internal
  fields. The view has an `address` only when the enrollment has an address, and then it is
  the first one.
- **Write path.** `createOrUpdateEnrollmentWithAddress` resolves the CEP first. Then it upserts
  the enrollment keyed by user id, then the address keyed by the enrollment's id.

Module layout:

- `Wrappers`, `Errors`: `Option`, `Result` and the two errors (`NotFound`, and the
  runtime `TypeError` of the finding below).
- `Cep`: the validation, as `LookupKey`. The format rule is a parameter `schema`. The lemmas
  fix it to `IsCepFormat` ("five digits, `-`, three digits"). Under that rule, the lemmas prove
  that the accepted CEPs are exactly `dddddddd` and `ddddd-ddd`, and that both spellings give
  the same 8-digit key.
- `ViaCep`: the directory's answer as a value (`ViaCepData`) and the mapper.
- `AddressFromCep`: the method `GetAddressFromCep`. Its local `newCep` is reassigned step by
  step, as in the source. It is proved equal to the function `Resolve`. The directory is a
  parameter from key to answer.
- `Records`: enrollments, addresses, payloads and views.
- `Repositories`: the class `Store`. It holds two maps: user id → enrollment, and enrollment
  id → address. It also holds the id counters. Its upsert and find methods are proved against
  the pure functions over `Db`.
- `EnrollmentsService`: the projection, the read method, the write method and the spec
  function `CreateOrUpdate`. Lemmas prove the write-path properties: the invariant is kept,
  a read after a write returns the written data, the last write wins, other users are
  untouched, a malformed CEP writes nothing, and the lookup result is not merged.

Two behaviours of the code are worth stating outright, since a reader might expect otherwise:

- The key is formed with `cep.replace('-', '')` (line 19), which removes only the first
  hyphen; later ones stay. `Cep.KeyKeepsLaterHyphens` shows the consequence.
- The address fragment the lookup returns is not merged into the stored address: line 68
  discards it. `EnrollmentsService.LookupResultNotMerged` states this.

## Model

| member | source | states |
|---|---|---|
| Cep.InsertHyphen | src/services/enrollments-service/index.ts:15-17 | the 8-character CEP gets `-` as its sixth character, with its first five and last three characters kept around it |
| Cep.Canonical | src/services/enrollments-service/index.ts:14-18 | the format rule sees a 9-character string: an 8-character input with `-` inserted after its fifth character, a 9-character input unchanged |
| Cep.RemoveFirstHyphen | src/services/enrollments-service/index.ts:19 | `replace('-', '')` leaves a hyphen-free string as it is |
| Cep.HyphenIndexIsFirst | src/services/enrollments-service/index.ts:19 | the position the string pattern matches is the first hyphen: none comes before it |
| Cep.RemoveFirstHyphenSplits | src/services/enrollments-service/index.ts:19 | with a hyphen present, `replace('-', '')` deletes exactly the character at the first hyphen's position and keeps everything before and after it |
| Cep.RemoveFirstHyphenCounts | src/services/enrollments-service/index.ts:19 | removing the first hyphen shortens the string by one exactly when it has a hyphen, and lowers the hyphen count by exactly one |
| Cep.LookupKey | src/services/enrollments-service/index.ts:11-22 | NotFound for an absent CEP or a length outside [8, 9]; otherwise the key is accepted iff the format rule holds on the canonical form and the first-hyphen-free original is 8 characters long, and then the key is that string |
| Cep.EightCharacterCep | src/services/enrollments-service/index.ts:14-22 | with the ddddd-ddd rule an 8-character CEP is accepted iff it is all digits, and its key is then the input unchanged |
| Cep.NineCharacterCep | src/services/enrollments-service/index.ts:14-22 | with the ddddd-ddd rule a 9-character CEP is accepted iff it is ddddd-ddd, and its key is then the input without its hyphen |
| Cep.AcceptedCeps | src/services/enrollments-service/index.ts:11-22 | with the ddddd-ddd rule exactly the CEPs `dddddddd` and `ddddd-ddd` are accepted, and every key sent to the lookup is 8 digits |
| Cep.HyphenIsOptional | src/services/enrollments-service/index.ts:14-22 | `dddddddd` and `ddddd-ddd` reach the lookup with the same 8-digit key |
| Cep.ExampleKeys | src/services/enrollments-service/index.ts:14-22 | `"01310930"` and `"01310-930"` both give the key `"01310930"` |
| Cep.KeyKeepsLaterHyphens | src/services/enrollments-service/index.ts:19-20 | if the format rule lets through a 9-character CEP with two hyphens, that CEP is accepted and its key still holds a hyphen (only the first is removed) |
| ViaCep.MapResponseAsWritten | src/services/enrollments-service/index.ts:27-38 | as written: null data throws TypeError, falsy data or a truthy `erro` give NotFound, any other body gives the fragment carrying the five fields with `localidade` as `cidade` |
| ViaCep.NullDataThrows | src/services/enrollments-service/index.ts:27-29 | on null data the code as written throws TypeError where NotFound is meant |
| ViaCep.MapResponse | src/services/enrollments-service/index.ts:27-38 | the result is NotFound iff the data is missing or falsy or `erro` is truthy; otherwise it is the fragment carrying `logradouro`, `complemento`, `bairro`, `uf` and `localidade` as `cidade` |
| ViaCep.CorrectionOnlyTouchesNullData | src/services/enrollments-service/index.ts:27-30 | the code as written throws TypeError exactly on null data, and the corrected mapper agrees with it everywhere else |
| ViaCep.FragmentIgnoresOtherFields | src/services/enrollments-service/index.ts:31-38 | the fragment depends only on the five mapped fields: `cep`, `ibge`, `ddd` and a falsy `erro` never reach it |
| ViaCep.FragmentRoundTrip | src/services/enrollments-service/index.ts:31-38 | every fragment comes back unchanged from a body that carries its fields under ViaCEP's names |
| AddressFromCep.Resolve | src/services/enrollments-service/index.ts:10-38 | the outcome is NotFound unless the CEP passes validation and the directory's answer for its key maps to a fragment; that fragment carries the street, complement, district, city (`localidade`) and state of the directory's answer for the key |
| AddressFromCep.GetAddressFromCep | src/services/enrollments-service/index.ts:10-38 | the step-by-step procedure rejects absent or wrongly sized CEPs with NotFound and returns exactly what `Resolve` specifies |
| AddressFromCep.RejectedBeforeLookup | src/services/enrollments-service/index.ts:11-22 | a CEP the validation rejects gives NotFound whatever the directory would answer, so no lookup matters |
| AddressFromCep.LookupUsesKey | src/services/enrollments-service/index.ts:19-26 | for an accepted CEP, only the directory's answer for its key matters |
| AddressFromCep.BothSpellingsResolveAlike | src/services/enrollments-service/index.ts:14-26 | with the ddddd-ddd rule, `dddddddd` and `ddddd-ddd` resolve to the directory's mapped answer for `dddddddd` |
| Records.WithoutUserId | src/services/enrollments-service/index.ts:70 | the update payload keeps name, cpf, birthday and phone of the create payload |
| Records.WithoutUserIdRoundTrip | src/services/enrollments-service/index.ts:70 | the update payload loses nothing but the owner |
| Repositories.UpsertedEnrollment | src/services/enrollments-service/index.ts:70 | an existing enrollment keeps id, owner and creation time and takes the update payload; a new one gets the next id and the create payload |
| Repositories.WithEnrollmentUpsert | src/services/enrollments-service/index.ts:70 | the enrollment upsert adds or replaces only the row under the user id and leaves every other enrollment and all addresses unchanged |
| Repositories.UpsertedAddress | src/services/enrollments-service/index.ts:72 | an existing address keeps id, enrollment and creation time and takes the update payload; a new one gets the next id, the enrollment id and the create payload |
| Repositories.WithAddressUpsert | src/services/enrollments-service/index.ts:72 | the address upsert adds or replaces only the row under the enrollment id and leaves every other address and all enrollments unchanged |
| Repositories.Find | src/services/enrollments-service/index.ts:42 | a result exists iff the user has an enrollment; it holds that enrollment, and its address list is non-empty iff an address is filed under the enrollment's id, which it then starts with |
| Repositories.EnrollmentUpsertKeepsValid | src/services/enrollments-service/index.ts:70 | an upsert whose create payload names the keyed user keeps every enrollment under its owner and enrollment ids unique |
| Repositories.AddressUpsertKeepsValid | src/services/enrollments-service/index.ts:72 | an address upsert under an already issued enrollment id keeps every address under its enrollment's id |
| Repositories.Store.UpsertEnrollment | src/services/enrollments-service/index.ts:70 | the in-place upsert returns the upserted enrollment and leaves the tables as `WithEnrollmentUpsert` describes |
| Repositories.Store.UpsertAddress | src/services/enrollments-service/index.ts:72 | the in-place upsert returns the upserted address and leaves the tables as `WithAddressUpsert` describes |
| Repositories.Store.FindWithAddressByUserId | src/services/enrollments-service/index.ts:42 | the lookup returns what `Find` specifies on the current tables |
| EnrollmentsService.ExcludeAddressInternals | src/services/enrollments-service/index.ts:60 | the address view keeps the id and every caller-supplied field of the stored address |
| EnrollmentsService.ExcludeAddressRoundTrip | src/services/enrollments-service/index.ts:60 | dropping `createdAt`, `updatedAt` and `enrollmentId` loses nothing else: putting them back restores the address, and the other way round |
| EnrollmentsService.FirstOf | src/services/enrollments-service/index.ts:46 | the destructured first address is present iff the list is non-empty, and then it is the list's head |
| EnrollmentsService.GetFirstAddress | src/services/enrollments-service/index.ts:57-61 | `null` iff there is no first address; otherwise a view with its id and all its caller-supplied fields |
| EnrollmentsService.ProjectEnrollment | src/services/enrollments-service/index.ts:44-52 | NotFound iff there is no enrollment; otherwise the enrollment's id, name, cpf, birthday and phone, with `address` present iff an address exists, and then equal to the first one's view |
| EnrollmentsService.ProjectionIgnoresInternals | src/services/enrollments-service/index.ts:49-52 | the view does not depend on `userId`, the timestamps, the first address's internal fields or any later address |
| EnrollmentsService.View | src/services/enrollments-service/index.ts:41-53 | reading a user's enrollment fails iff the user has none; otherwise the view holds the enrollment's id, name, cpf, birthday and phone, and `address` is present iff an address is filed under the enrollment's id, and is then that address without its internal fields |
| EnrollmentsService.GetOneWithAddressByUserId | src/services/enrollments-service/index.ts:41-53 | the read method fails with NotFound iff the user has no enrollment and otherwise returns the projection of the stored rows |
| EnrollmentsService.NoAddressNoKey | src/services/enrollments-service/index.ts:51 | a user whose enrollment has no address gets a view with no `address` |
| EnrollmentsService.EnrollmentOf | src/services/enrollments-service/index.ts:66 | the enrollment payload keeps the caller's user id, name, cpf, birthday and phone: everything but the address |
| EnrollmentsService.GetAddressForUpsert | src/services/enrollments-service/index.ts:75-80 | the payload has the same fields and values as the input; a set `addressDetail` is kept and an empty one is not dropped |
| EnrollmentsService.CreateOrUpdate | src/services/enrollments-service/index.ts:65-73 | the write fails, with NotFound, iff the CEP does not resolve, and then no new store state exists |
| EnrollmentsService.CreateOrUpdateEnrollmentWithAddress | src/services/enrollments-service/index.ts:65-73 | on failure the store is unchanged; on success it holds exactly the state `CreateOrUpdate` specifies (enrollment upsert, then address upsert under the enrollment's id); the store's invariant holds before and after |
| EnrollmentsService.CreateOrUpdateKeepsValid | src/services/enrollments-service/index.ts:70-72 | a successful write keeps the store's invariant |
| EnrollmentsService.ReadAfterWrite | src/services/enrollments-service/index.ts:65-73 | after a successful write the user owns exactly one enrollment, and reading it back gives the supplied enrollment fields and the supplied address |
| EnrollmentsService.UpdateKeepsIdentity | src/services/enrollments-service/index.ts:70-72 | updating a user's enrollment keeps its id, owner and creation time, and keeps its address's id, without adding rows |
| EnrollmentsService.OtherUsersUntouched | src/services/enrollments-service/index.ts:70-72 | another user's enrollment row and view are the same after a write as before |
| EnrollmentsService.LastWriteWins | src/services/enrollments-service/index.ts:65-73 | after two successful writes for one user, the second one's data is read back and neither table has grown |
| EnrollmentsService.MalformedCepWritesNothing | src/services/enrollments-service/index.ts:68 | with the ddddd-ddd rule, a CEP that is neither `dddddddd` nor `ddddd-ddd` makes the write fail with NotFound |
| EnrollmentsService.LookupResultNotMerged | src/services/enrollments-service/index.ts:68 | any two successful lookups lead to the same store: the fragment is discarded |

## Findings

| source | as written | input that shows it | evidently intended | confidence | as-written member | corrected member |
|---|---|---|---|---|---|---|
| src/services/enrollments-service/index.ts:27-30 | `const { erro } = result.data` destructures `result.data` before `!result.data` is tested, so null or undefined data throws a TypeError | a lookup whose `data` is `null`: a JSON body `null`, or the value `request.get` returns for a failed request when that value carries no data | missing data gives NotFound, as the `!result.data` guard shows | medium, not executed | ViaCep.MapResponseAsWritten, ViaCep.NullDataThrows | ViaCep.MapResponse |

The rest of the model, including the write path, uses the corrected mapper.

## Left out

- The HTTP request (`src/utils/request.ts`), its axios error mapping and the `VIA_CEP_API` URL. The directory's answer is an input: the parameter `directory`, a function from key to `ViaCepData`.
- The CEP format schema. It is not part of this model, so it is the parameter `schema`. `Cep.IsCepFormat` is the concrete rule used in the lemmas.
- The Prisma repositories' internals and the `exclude` helper. They are modelled as map updates and field projections. Storage errors are not modelled: an upsert always succeeds. Ids come from counters in the store.
- Timestamps are integers supplied as `now`. The model assumes creation sets `createdAt` and `updatedAt`, and an update sets `updatedAt`.
- Concurrency between calls for the same user, and interruption between the two upserts. Each call runs to completion, steps in order.
- A `null` CEP is not modelled (`cep.length` would throw a TypeError). `Option` models only an absent CEP.
- An `address` argument that is absent is not modelled: the parameter type requires it.
- JavaScript measures string length in UTF-16 code units. Here a string is a sequence of characters.
- A ViaCEP body whose fields are missing or not strings is not modelled. A body is a JSON object whose five mapped fields are strings.
- Repositories.UpsertedAddress: `addressDetail` is an `Option`, so a caller who omits it (undefined, which `getAddressForUpsert` leaves omitted) is treated like one who sends `null`. An update then clears a stored detail that the database, which leaves undefined fields untouched, would keep. `EnrollmentsService.ReadAfterWrite` and `EnrollmentsService.LastWriteWins` ("the address read back is the one supplied") rely on this choice.
