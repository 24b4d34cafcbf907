# Step-up authentication and todo store of the TodoListService, in Dafny

This project models the resource service of the Conditional Access
"authentication context" sample. Todo items sit behind bearer tokens. Before
GET-by-id, DELETE and POST, the service looks up which authentication context
(an `acrs` value such as `C1`) the tenant requires for that HTTP method.

- A caller whose token carries that `acrs` value is let through.
- A caller that lacks it but declares the `cp1` client capability (`xms_cc`)
  gets 401 and a step-up challenge. The challenge is a
  `WWW-Authenticate: Bearer` header (section 3 of RFC 6750). Its `claims`
  parameter is the base64 (section 4 of RFC 4648) of the UTF-8 (RFC 3629)
  bytes of a claims request (section 5.5 of OpenID Connect Core 1.0).
- Any other caller is denied.

An admin surface chooses the available contexts. They come from built-in
defaults, a session cache or the directory (Microsoft Graph). The admin
surface also maps operations to contexts in the AuthContext table and seeds
the tenant's contexts.

Modules, one per concern:

- `Wrappers` (`wrappers.dfy`): `Option` for C# `null` and `Result` for thrown exceptions.
- `Sequences` (`sequences.dfy`): the LINQ operators `FirstOrDefault(p)` and `Count(p)`.
- `Base64` (`base64.dfy`): the encoder behind `Convert.ToBase64String`, and a strict decoder.
- `Utf8` (`utf8.dfy`): the encoder behind `Encoding.UTF8.GetBytes`, and a strict decoder.
- `Models` (`models.dfy`): the `Todo` and `AuthContext` records and the table's (TenantId, Operation) key.
- `Challenge` (`challenge.dfy`): the claims request, the challenge header, and the client-side reading of it back.
- `AuthCheck` (`auth_check.dfy`): `CheckForRequiredAuthContext` and `IsClientCapableofClaimsChallenge`.
- `TodoList` (`todo_list.dfy`): the five todo endpoints over a `map<int, Todo>` plus the identity counter.
- `Admin` (`admin.dfy`): the dictionary choice, `Index`, `UpdateAuthContextDB`, `CreateOrFetch`, `CreateAuthContextViaGraph` and `AddInDB`.

Inputs the source reads from its environment become parameters:

- the configured tenant id and client id (`Option<string>`, since configuration may lack them);
- the request method, fixed per endpoint by its route attribute (`GET`, `DELETE`, `POST`);
- the token's claims, as a sequence of (type, value);
- the caller's identity name;
- the session cache, the directory's list, and the database tables.

The check's outcome is a tagged `Verdict` (`Allowed`, `NoUserContext`,
`InsufficientClaims`, `Denied`) together with the response it leaves behind.
The response is its status and its appended headers.

The model follows these details of the code, which its doc comments
(TodoListController.cs:94-98 and 138-140) leave unsaid:

- A stored context id that is empty counts as no requirement.
- An empty claim set fails before any claim is compared.
- `acrs` claims are matched on any instance, not just the first.
- Only the first `xms_cc` claim decides the client capability.

Open point: the admin page offers the operations `Get`, `Post` and `Delete`
(AdminController.cs:53-55), but the endpoints look rows up by `Request.Method`
(`GET`, `DELETE`, `POST`). The model compares operations by exact string
equality, and `TodoList.AdminSpellingsGateNothing` shows the consequence: rows
stored under the admin page's spellings gate no endpoint. Whether such rows
match in the deployed database depends on its collation, which is not modelled.

## Model

| member | source | states |
|---|---|---|
| AuthCheck.CheckForRequiredAuthContext | TodoListService/Controllers/TodoListController.cs:99-136 | With no stored context id or an empty one, allowed and the response untouched. With one and no claims, the no-user-context failure, untouched. With one and some claims, allowed iff some `acrs` claim (type matched ignoring case) has exactly that value. A challenge sets status 401 and appends exactly one `WWW-Authenticate` header built for that id and client id; it happens only for a client whose first `xms_cc` claim is `cp1`. A denial leaves the response untouched. |
| AuthCheck.SavedAuthContextId | TodoListService/Controllers/TodoListController.cs:101 | When no row has exactly this operation and the configured tenant, there is no requirement. |
| AuthCheck.SavedAuthContextIdKeyed | TodoListService/Controllers/TodoListController.cs:101 | When the table has no two rows with the same (TenantId, Operation), the lookup returns the one matching row's id, whatever the row order. |
| AuthCheck.FindAll | TodoListService/Controllers/TodoListController.cs:114 | Exactly the claims whose type equals the requested one ignoring case. |
| AuthCheck.IsClientCapable | TodoListService/Controllers/TodoListController.cs:141-148 | The capability test fails (the source throws) exactly when there are no claims. |
| AuthCheck.IsClientCapableFirst | TodoListService/Controllers/TodoListController.cs:150-157 | With claims present, the client is capable iff the first claim of type exactly `xms_cc` has value `cp1`; later `xms_cc` claims are ignored. |
| AuthCheck.FirstExactInFindAll | TodoListService/Controllers/TodoListController.cs:150 | Taking the first exact `xms_cc` claim among the case-insensitive matches gives the first exact `xms_cc` claim of the token. |
| AuthCheck.MismatchOutcome | TodoListService/Controllers/TodoListController.cs:116-133 | With a requirement, claims present and no matching `acrs`, the outcome is a challenge iff the first `xms_cc` is `cp1`, and a denial otherwise. |
| AuthCheck.ChallengeNamesRequiredContext | TodoListService/Controllers/TodoListController.cs:118-128 | After a challenge, the one header added is `WWW-Authenticate`. A client that decodes it recovers exactly the stored context id. |
| AuthCheck.DeleteNeedsContextScenario | TodoListService/Controllers/TodoListController.cs:118-128 | Take a tenant that requires a context for DELETE and a `cp1` caller without `acrs`. The result is 401, with a header whose claims name that context. |
| Challenge.ChallengeHeader | TodoListService/Controllers/TodoListController.cs:123 | The header value starts with the `Bearer ` scheme. |
| Challenge.ClaimsParameter | TodoListService/Controllers/TodoListController.cs:121 | The base64 claims parameter never contains a double quote, so it cannot end its quoted-string early. |
| Challenge.ClaimsRequest | TodoListService/Controllers/TodoListController.cs:121 | The claims request is the fixed JSON prefix, the context id verbatim (unescaped), and the fixed JSON suffix. `Challenge.AcrsValueOfClaimsRequest` reads the id back. |
| Challenge.AcrsValueOfClaimsRequest | TodoListService/Controllers/TodoListController.cs:121 | The claims request carries the id: reading it back gives the id. Only the request built for an id reads back as that id. |
| Challenge.ClaimsParameterOfHeader | TodoListService/Controllers/TodoListController.cs:123 | The quoted `claims` parameter can be extracted from the header whatever the client id is. |
| Challenge.RequiredContextOfHeader | TodoListService/Controllers/TodoListController.cs:121-123 | Extracting, base64-decoding, UTF-8-decoding and reading the JSON of the header gives back exactly the context id it was built for. |
| Base64.Encode | TodoListService/Controllers/TodoListController.cs:121 | The output length is 4 * ceil(n / 3), and the output holds no double quote. |
| Base64.DecodeEncode | TodoListService/Controllers/TodoListController.cs:121 | Every octet string survives encoding then decoding. |
| Base64.EncodeDecode | TodoListService/Controllers/TodoListController.cs:121 | The decoder accepts only canonical encodings: anything it decodes is the encoding of the result. |
| Utf8.Encode | TodoListService/Controllers/TodoListController.cs:121 | A string of n characters encodes to between n and 4n octets. |
| Utf8.DecodeEncode | TodoListService/Controllers/TodoListController.cs:121 | Every string survives UTF-8 encoding then decoding. |
| Utf8.EncodeDecode | TodoListService/Controllers/TodoListController.cs:121 | The strict decoder accepts only what the encoder produces. |
| TodoList.GetAll | TodoListService/Controllers/TodoListController.cs:37-40 | Runs no check. Returns exactly the stored items, one per stored id. |
| TodoList.GetById | TodoListService/Controllers/TodoListController.cs:43-48 | Runs the check first, for method `GET`; a failed check is the request's failure and leaves the check's response (the 401 and challenge header, when one was issued). Otherwise returns the item stored under the id, or nothing. The store is never changed. |
| TodoList.Delete | TodoListService/Controllers/TodoListController.cs:50-61 | Runs the check first, for method `DELETE`; a failed check is the request's failure, leaves the store unchanged and leaves the check's response (the 401 and challenge header, when one was issued). Otherwise removes the item iff it exists and leaves every other item as it was. |
| TodoList.Post | TodoListService/Controllers/TodoListController.cs:63-77 | Runs the check first, for method `POST`; a failed check is the request's failure, leaves the store unchanged and leaves the check's response (the 401 and challenge header, when one was issued). Otherwise stores one new item under a fresh id. Its title is the body's title and its owner is the caller's identity name. Nothing else changes. A null body passes the check and then fails with the store and response unchanged. |
| TodoList.Patch | TodoListService/Controllers/TodoListController.cs:80-92 | Runs no check. A null body fails before the id guard. A route id other than the body id gives NotFound. Otherwise the body replaces the stored item, owner included. A body id of 0 is stored as a new item, and an id with no stored item fails as an update that affected no row. The store stays well-keyed. |
| TodoList.PostIgnoresBodyOwnerAndId | TodoListService/Controllers/TodoListController.cs:66-71 | Two POST bodies with the same title have the same effect, whatever their owner and id. |
| TodoList.PostThenGet | TodoListService/Controllers/TodoListController.cs:43-77 | When both requests pass the check, an item created by POST reads back by its id with the posted title and the poster as owner. |
| TodoList.DeleteIdempotent | TodoListService/Controllers/TodoListController.cs:53-60 | Deleting an id twice leaves the store as deleting it once. |
| TodoList.DeleteIgnoresOwner | TodoListService/Controllers/TodoListController.cs:53-60 | A caller that passes the check removes an item that another identity owns. |
| TodoList.AdminSpellingsGateNothing | TodoListService/Controllers/TodoListController.cs:43-66 | When every stored operation is missing or one of `Get`, `Post`, `Delete` (the spellings the admin page offers, TodoListService/Controllers/AdminController.cs:50-55), the check lets GET, DELETE and POST through with the response untouched. |
| TodoList.ValuesOfKeyed | TodoListService/Controllers/TodoListController.cs:39 | A well-keyed store has as many distinct items as ids. An item is listed iff it is stored under its own id. |
| Admin.DictAdd | TodoListService/Controllers/AdminController.cs:107 | Adding fails with the key iff it is already present. Otherwise the new key maps to the value after the earlier entries, and keys stay distinct. |
| Admin.FromDirectory | TodoListService/Controllers/AdminController.cs:103-108 | Filling from the directory succeeds iff the listed ids are distinct. The dictionary then holds exactly the listed (id, display name) pairs, in list order, with distinct keys. |
| Admin.AuthenticationContextValues | TodoListService/Controllers/AdminController.cs:80-116 | A cached dictionary is returned unchanged without asking the directory. With no cache and an empty list, the result is exactly the C1/C2/C3 defaults and nothing is cached. With no cache and a non-empty list, the result is exactly the listed pairs and they are cached; duplicate ids fail. A dictionary taken from defaults or directory has distinct keys. |
| Admin.CachedIgnoresDirectory | TodoListService/Controllers/AdminController.cs:93-96 | With a cache, the result does not depend on the directory. |
| Admin.Index | TodoListService/Controllers/AdminController.cs:41-76 | One entry per dictionary entry, in order (text the display name, value the id), plus the fixed operations Get, Post, Delete. Fails exactly when the dictionary lookup fails. |
| Admin.IdForDisplayName | TodoListService/Controllers/AdminController.cs:164 | Returns the key of the first entry whose display name equals the submitted one, or none iff no entry has it. |
| Admin.IndexItemResolves | TodoListService/Controllers/AdminController.cs:61-68 | The display name of every item the page offers resolves through `IdForDisplayName`. It resolves to the item's own id unless an earlier entry has the same display name. |
| Admin.UpdateAuthContextDB | TodoListService/Controllers/AdminController.cs:161-182 | The submitted row's id is resolved from its display name. Insert iff no row has the same (AuthContextId, Operation), otherwise update. An insert whose (TenantId, Operation) already exists fails. An update whose (TenantId, Operation) is absent fails. Success keeps the key unique. |
| Admin.RemapCollides | TodoListService/Controllers/AdminController.cs:169-172 | Re-mapping an operation from C1 to C2 in the same tenant takes the insert branch and fails on the duplicate key. |
| Admin.UpsertByKey | TodoListService/Controllers/AdminController.cs:169-177 | The corrected rule: insert iff no row has the (TenantId, Operation) key, else replace that row. The key stays unique. |
| Admin.UpsertThenCheckRequires | TodoListService/Controllers/AdminController.cs:169-177 | After the corrected upsert, the check's lookup for that tenant and operation yields the submitted context id. |
| Admin.SeedFromClosedForm | TodoListService/Controllers/AdminController.cs:203-209 | From entry i on, the loop adds seed rows for the next entries only. It adds as many as the tenant's row count falls short of the dictionary size. |
| Admin.SeedFrom | TodoListService/Controllers/AdminController.cs:203-209 | The loop adds at most one row per remaining dictionary entry. |
| Admin.SeedFromAppends | TodoListService/Controllers/AdminController.cs:203-209 | The loop only appends: the table it leaves starts with the table it was given, and every added row is a row of the tenant without an operation. |
| Admin.SeedRow | TodoListService/Controllers/AdminController.cs:220-231 | The row added belongs to the tenant, carries the entry's id and display name, and has no operation. |
| Admin.SeedClosedForm | TodoListService/Controllers/AdminController.cs:203-209 | Seeding adds rows (tenant, id, display name, no operation) for the first d - c entries, none when c >= d. Here d is the dictionary size and c the tenant's prior row count. The gate counts rows and ignores ids. |
| Admin.SeedIdempotent | TodoListService/Controllers/AdminController.cs:203-209 | Seeding the seeded table again adds no row. |
| Admin.CreateAuthContextViaGraph | TodoListService/Controllers/AdminController.cs:191-211 | A directory creation request goes out for every dictionary entry, in order. Local rows are added by the count-gated rule. |
| Admin.CreateOrFetch | TodoListService/Controllers/AdminController.cs:140-154 | A non-empty directory list is returned unchanged and nothing is created. Otherwise the contexts are seeded and the empty pre-seeding list is returned. |
| Admin.CreateOrFetchTwice | TodoListService/Controllers/AdminController.cs:140-154 | A second synchronisation adds no local rows. It creates nothing remotely once the directory lists what the first one created. |

## Findings

| source | as written | input that shows it | evidently intended | confidence | as-written member | corrected member |
|---|---|---|---|---|---|---|
| TodoListService/Controllers/AdminController.cs:169 | The choice between insert and update tests for a row with the same (AuthContextId, Operation). The table's key is (TenantId, Operation) (TodoListService/Models/CommonDBContext.cs:18). | Table holds (T, C1, "Regular privilege", Get). The admin submits "Medium-high privilege" (C2) for Get in T. No row has (C2, Get), so the row is inserted, and it collides with the existing key (T, Get). | Insert or update by the primary key (TenantId, Operation), so that an operation can be re-mapped to another context. | medium; not executed | Admin.RemapCollides | Admin.UpsertByKey |

`Admin.UpdateAuthContextDB` remains the model of the code as written.
`Admin.UpsertThenCheckRequires` connects the corrected rule to the check.

## Left out

- Asynchrony, `SaveChangesAsync`, HTTP response writing and completion, and the exception message texts. The check's outcomes are tags.
- The body text and response completion that the challenge branch starts without awaiting them.
- A null `HttpContext` or `User`. The model has only a claim sequence, so the "no user context" failure covers an empty claim set only.
- AuthCheck.SameClaimType: .NET compares claim types with `OrdinalIgnoreCase`. The model folds ASCII letters only, because the non-ASCII case mappings of the runtime are not modelled.
- Utf8.Encode: C# strings may hold unpaired surrogates, which `Encoding.UTF8` replaces by U+FFFD. A Dafny string holds Unicode scalar values only, so that case cannot arise in the model.
- AuthCheck.SavedAuthContextId: the database query has no ORDER BY, so the model takes the first row in sequence order. `SavedAuthContextIdKeyed` shows the order is irrelevant under the key constraint.
- Challenge.ClaimsRequest: the source puts the context id into the JSON without escaping. The model reproduces that; `AcrsValueOf` reads the fixed shape back and does not parse general JSON.
- Directory failures: a failed first listing request is rethrown, and a failed creation is logged and returns null. The result of each creation request is ignored, so the model records only the requests.
- A null directory list: the paging step catches a paging failure and returns null (TodoListService/Common/AuthenticationContextClassReferencesOperations.cs:174-178). `getAuthenticationContextValues` then throws on `Count()` (AdminController.cs:101), and `CreateOrFetch` seeds and returns null (AdminController.cs:145). The model's directory list is a sequence and cannot be null, so neither path is modelled.
- The creation request's description text, which embeds the current time.
- Admin.CreateAuthContextViaGraph: it asks the directory for the list a second time. The model assumes the answer is the same list `CreateOrFetch` read.
- Admin.CreateAuthContextViaGraph: its row count runs a deferred query on a database context that is already disposed. The model re-counts the current table before each entry instead of modelling the disposal.
- Admin.SeedRow: seeded rows have no operation, which Entity Framework would reject as a null key part. The model appends them as plain rows. Key validation of null parts is not modelled for `UpdateAuthContextDB` either.
- TodoList.GetAll: returns a set, because the list's order is not specified by the query.
- The identity counter models key generation without gaps or reseeding.
- ViewDetails and HomeController (views only), the client application, the directory SDK wrapper and configuration lookup.
- Concurrency between requests.
