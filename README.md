# spellbook-api in Dafny

A model of the domain logic of spellbook-api, a small HTTP service for keeping
a personal spellbook. Users sign up with a username and get back an API key
once. Only the decimal rendering of the key's hash is stored. An
authentication middleware turns the `authorization` header into the caller's
user id. Each caller can then create, read, update and delete their own spells,
addressed by a random `nanoid`. They can publish and unpublish spells by name.
Any authenticated user can search the published spells of all users by keyword.

The model keeps the source's structure, one module per source file:

- `Enums`, `Errors`, `Requests`, `Validators`, `Models` and `Resources` are pure:
  - the closed `MagicSchool` set;
  - the display texts of the errors;
  - request validation;
  - rows and changesets;
  - the JSON projections.
- `SpellRepository` and `UserRepository` hold the database tables as classes,
  `SpellTable` and `UserTable`:
  - each class holds a `seq` of rows and the next value of the `id` sequence;
  - lookups are functions that read the table;
  - insert, update, delete and publish are methods. Each method states the
    whole new table in terms of the old one.
  - Row selection is a `RowFilter` value interpreted by `Keeps`. The
    `UPDATE ... WHERE` of the source is `UpdateWhere`.
- `Middleware` covers the authentication chain:
  - `Authenticate` is the pure decision.
  - `Auth` writes the caller's id into a `Request` object, which stands for the
    request extension.
- `UserHandlers` and `SpellHandlers` are the endpoints. Each one has:
  - a pure function from the repository's outcome to the `Http.Response` (status
    code and body);
  - for the endpoints that change state, a method over the tables. The method
    runs the source's checks in order, with early returns.
- `Text` holds the string helpers: ASCII case folding, substring search, and the
  decimal rendering of the 64-bit hash.
- `LikePattern` models SQL `ILIKE` with its wildcards. See "Findings".

Parameters stand for what the source gets from outside:
- the generated key (`uuid::Uuid::new_v4`);
- the generated `nanoid!()`;
- `calculate_hash`, an arbitrary function `string -> u64`.

Where the modelled behaviour follows the code rather than the documented API:

- `publish_spell` and `unpublish_spell` take a body `{name}` and find the spell
  by name, ignoring case. They do not take a nanoid.
- The 404 text of get, update and delete is the fixed "You don't have a spell
  with this id in your spellbook." It does not quote the id.
- Unpublishing a spell that is not published, or that does not exist, gives 400
  "Your spell "…" is not published.". The later 404 branch is unreachable
  (`SpellHandlers.UnpublishSpell`).
- An update body with no field at all gives 500 "error updating spell". The
  changeset derives `AsChangeset` with every field optional, and Diesel refuses
  an `UPDATE` with nothing to set; that happens before any row is looked at, so
  the answer does not depend on the nanoid (`SpellHandlers.UpdateSpell`).
  Diesel itself is not part of this model; this is its documented behaviour.
- The spell handlers call repository functions keyed by nanoid
  (`get_spell_by_nanoid`, and `update_spell` and `delete_spell` on a nanoid),
  plus `get_spell_by_name`. The repository file in this snapshot has none of
  these: it keys `get_spell` by `ILIKE` on the name, and `update_spell` and
  `delete_spell` by exact name. The model has one keyed operation per
  repository function, parameterised by a `SpellKey`:
  - `NameLike` (`ILIKE`, literal, ASCII case-insensitive);
  - `NameIs` (`=`);
  - `NanoidIs`, which is what the handlers call.
- `PublishSpellRequest { name }`, `CreateUserRequest { username }` and
  `calculate_hash` are used but not defined in this snapshot. Their shapes are
  taken from their uses.

Owner isolation, "nothing else changes" and consistency are stated about the
tables:
- `Consistent` means per-owner case-insensitive name uniqueness plus globally
  unique nanoids.
- Each handler keeps `Consistent`, provided that:
  - the generated nanoid is fresh, for `PostSpell`;
  - the name check passes, which the handler itself checks.

## Model

| member | source | states |
|---|---|---|
| Text.IsSubstringIffOccurs | src/repositories/spells.rs:91 | the recursive containment test used for `%keyword%` holds exactly when the keyword occurs at some position of the name |
| Text.EmptyKeywordMatches | src/repositories/spells.rs:91 | the empty keyword is contained in every name |
| Text.NatToString | src/handlers/users.rs:19 | `to_string` of the hash is non-empty, all decimal digits, with no leading zero |
| Text.DecimalRoundTrip | src/handlers/users.rs:19 | reading the rendered digits back gives the hash value |
| Text.NatToStringInjective | src/middleware.rs:30 | two hashes render to the same key_hash string exactly when they are equal |
| Enums.FromStr | src/enums.rs:3-13 | parsing succeeds exactly for the eight variant names, and the parsed variant's name is the input |
| Enums.VariantsInDeclarationOrder | src/enums.rs:3-13 | `VARIANTS` has eight entries, the i-th naming the i-th declared variant, and every variant is listed |
| Enums.FromStrName | src/enums.rs:3-13 | parsing a variant's name gives that variant |
| Enums.FromStrIsExact | src/enums.rs:3 | parsing is case-sensitive, does not trim and rejects prefixes ("evocation", " Evocation", "Evoc", "") |
| Errors.Message | src/errors.rs:6-15 | each message is the fixed prefix, the offending value verbatim, then the fixed suffix (`" expected "Cantrip" or "Level [1-9]"` for a level, `" expected one of: "` and the debug list of `VARIANTS` for a school), with its exact length |
| Errors.SchoolListText | src/errors.rs:10-14 | the school list is `["Abjuration", …, "Transmutation"]`, the debug rendering of `VARIANTS` |
| Errors.KindsRenderApart | src/errors.rs:8-14 | a level error never renders like a school error |
| Errors.MessageDeterminesError | src/errors.rs:6-15 | two validation errors render alike exactly when they are equal, so the value is embedded without loss |
| Errors.ValidationIsNotAuthMessage | src/errors.rs:17-21 | no validation message equals "Authentication failed" |
| Validators.IsLevelIffListed | src/validators/spells.rs:14 | the anchored level regex admits exactly "Cantrip" and "Level 1" … "Level 9" |
| Validators.IsLevelRejects | src/validators/spells.rs:14 | "Level 0", "Level 10", "cantrip", "Level  3", "level 3" and padded forms are rejected |
| Validators.ValidateCreate | src/validators/spells.rs:12-27 | a create request passes exactly when level and school are valid; level is checked first; each error carries the offending value |
| Validators.ValidateUpdate | src/validators/spells.rs:29-48 | a patch passes exactly when each present level or school is valid; absent ones are not checked; level first; errors carry the value |
| Validators.CreateDependsOnLevelAndSchool | src/validators/spells.rs:12-27 | no field other than level and school affects create validation |
| Validators.UpdateDependsOnLevelAndSchool | src/validators/spells.rs:29-48 | no field other than level and school affects patch validation |
| Validators.UpdateWithoutCheckedFieldsPasses | src/validators/spells.rs:31-46 | a patch without level and school, the all-absent one included, passes |
| Validators.UpdateAgreesWithCreate | src/validators/spells.rs:31-44 | a present level and school are held to the create rule with the same error |
| Models.Apply | src/models/spells.rs:39-51 | applying a changeset never alters `id`, `user_id`, `published` or `nanoid` |
| Models.ApplyRequest | src/models/spells.rs:53-66 | the changeset from a request writes each present field unchanged and keeps each absent one; hidden columns never change |
| Models.EmptyRequestLeavesRow | src/models/spells.rs:42-66 | the all-absent request leaves the row identical |
| Models.NoChangesIffEmptyRequest | src/models/spells.rs:39-66 | the changeset built from a request has no present field exactly when the request is the all-absent patch |
| Models.ApplyIdempotent | src/models/spells.rs:42-51 | applying a changeset twice equals applying it once |
| Models.Inserted | src/models/spells.rs:23-37 | the inserted row carries every supplied value, `user_id`, `published` and `nanoid` included, plus its id |
| Models.InsertedAsNew | src/models/spells.rs:8-37 | a row is exactly its insert values plus its id |
| Resources.ResourceIsVisibleFields | src/resources/spells.rs:8-35 | two rows give the same `SpellResource` exactly when their nine visible columns agree, whatever their id, owner and nanoid |
| Resources.PublicResourceFields | src/resources/spells.rs:45-72 | two pairs give the same `PublicSpellResource` exactly when the eight spell columns and the username agree; `published` is not shown |
| Resources.IntoCollection | src/resources/spells.rs:37-43 | same length and order, element-wise projection |
| Resources.IntoPublicCollection | src/resources/spells.rs:74-80 | same length and order, element-wise projection of the pairs |
| Resources.CollectionMembers | src/resources/spells.rs:37-43 | a resource is in the collection exactly when some row projects to it |
| Resources.PublicCollectionMembers | src/resources/spells.rs:74-80 | a public resource is in the collection exactly when some spell and owner pair projects to it |
| SpellRepository.Filter | src/repositories/spells.rs:17-22 | the filtered rows are exactly the rows the filter keeps, no more than there were |
| SpellRepository.FilterAppend | src/repositories/spells.rs:17-22 | filtering keeps table order |
| SpellRepository.FilterSplits | src/repositories/spells.rs:60-69 | rows selected by a key plus rows not selected make up the table |
| SpellRepository.FirstIndex | src/repositories/spells.rs:24-34 | the index found is the first kept row; none means no row is kept |
| SpellRepository.ApplyChange | src/repositories/spells.rs:71-83 | a change keeps id, owner and nanoid; setting the flag changes nothing but `published` |
| SpellRepository.UpdateWhere | src/repositories/spells.rs:46-58 | same length; each selected row is changed, every other row is kept in place |
| SpellRepository.UpdateNothingSelected | src/repositories/spells.rs:46-58 | an update whose key selects nothing leaves the table as it is |
| SpellRepository.UpdateIsolation | src/repositories/spells.rs:46-58 | an update by one user leaves every other user's spellbook unchanged |
| SpellRepository.DeleteIsolation | src/repositories/spells.rs:60-69 | a delete by one user leaves every other user's spellbook unchanged |
| SpellRepository.InsertIsolation | src/repositories/spells.rs:36-44 | inserting a row of one user leaves every other user's spellbook unchanged |
| SpellRepository.FilterKeepsPairwise | src/repositories/spells.rs:60-69 | removing rows keeps ids distinct and the unique indexes satisfied |
| SpellRepository.UpdateKeepsIds | src/repositories/spells.rs:46-58 | an update moves no id, so ids stay distinct and below the sequence |
| SpellRepository.ConsistentUnderSameColumns | src/repositories/spells.rs:71-83 | changing only columns outside the unique indexes keeps them satisfied |
| SpellRepository.OthersUnselected | src/repositories/spells.rs:24-34 | under the unique indexes a key selects at most one row of a user |
| SpellRepository.AtMostOneSelected | src/repositories/spells.rs:60-69 | under the unique indexes a keyed delete removes at most one row |
| SpellRepository.InsertKeepsConsistent | src/repositories/spells.rs:36-44 | appending a row compatible with all others keeps the unique indexes |
| SpellRepository.AppendedFoundByNanoid | src/handlers/spells.rs:71-86 | a spell inserted with a fresh nanoid is the one a lookup by that nanoid finds |
| SpellRepository.PublishKeepsConsistent | src/repositories/spells.rs:71-83 | setting the flag keeps the unique indexes |
| SpellRepository.RenameKeepsConsistent | src/handlers/spells.rs:105-122 | an update by nanoid keeps the unique indexes when no other spell of the owner has the new name |
| SpellRepository.RenamePair | src/handlers/spells.rs:105-122 | for any two rows, renaming the one with the updated nanoid keeps them compatible when the new name is not the other's |
| SpellRepository.NameCheckKeepsConsistent | src/handlers/spells.rs:105-122 | the handler's check (the first spell with the new name is the updated one, or there is none) suffices for the update to keep the unique indexes |
| SpellRepository.PublishMakesVisible | src/repositories/spells.rs:71-95 | a published spell is returned by every public search whose keyword its name contains |
| SpellRepository.UnpublishHides | src/repositories/spells.rs:71-95 | after unpublishing, the spell is returned by no public search |
| SpellRepository.EmptyKeywordListsAllPublished | src/repositories/spells.rs:85-95 | the empty keyword lists every published spell and nothing else |
| SpellRepository.OwnerPairs | src/repositories/spells.rs:90 | the join pairs a spell with exactly the users whose id is its owner |
| SpellRepository.Join | src/repositories/spells.rs:89-90 | inner join: exactly the pairs of a spell and its owner |
| SpellRepository.SpellTable.GetSpells | src/repositories/spells.rs:17-22 | exactly the rows of the caller, in table order |
| SpellRepository.SpellTable.GetSpell | src/repositories/spells.rs:24-34 | the first of the caller's rows the key selects, or NotFound exactly when there is none |
| SpellRepository.SpellTable.IsPublished | src/repositories/spells.rs:97-108 | the flag of the row `get_spell` finds, or NotFound |
| SpellRepository.SpellTable.QueryPublicSpells | src/repositories/spells.rs:85-95 | exactly the published rows whose name contains the keyword ignoring case, each with its owner |
| SpellRepository.SpellTable.InsertSpell | src/repositories/spells.rs:36-44 | appends one row equal to the insert values with a fresh id; all earlier rows are unchanged |
| SpellRepository.SpellTable.UpdateSpell | src/repositories/spells.rs:46-58 | a changeset with no present field is refused with a database error and changes nothing; otherwise only selected rows change, and only in the fields present in the changeset; returns the updated first selected row or NotFound |
| SpellRepository.SpellTable.PublishSpell | src/repositories/spells.rs:71-83 | only `published` of the selected rows changes; returns the changed row or NotFound |
| SpellRepository.SpellTable.DeleteSpell | src/repositories/spells.rs:60-69 | removes exactly the selected rows, keeps the others in order, returns how many went; zero exactly when nothing was found |
| UserRepository.FindByKeyHash | src/repositories/users.rs:15-23 | the first user whose key_hash equals the given one, or NotFound exactly when there is none |
| UserRepository.FindAppended | src/repositories/users.rs:15-33 | a user just appended, whose hash no earlier user has, is the one the lookup finds |
| UserRepository.UserTable.GetUsers | src/repositories/users.rs:11-13 | every row, in table order |
| UserRepository.UserTable.InsertUser | src/repositories/users.rs:25-33 | appends one row with the username and key_hash and returns it; a taken username is a unique violation and changes nothing |
| Middleware.HeaderToStr | src/middleware.rs:19-28 | the header is text exactly when every byte is visible ASCII or tab, and then character by character the same |
| Middleware.HeaderRoundTrip | src/middleware.rs:19-20 | a key of visible ASCII characters is read back unchanged from its header |
| Middleware.Authenticate | src/middleware.rs:10-45 | missing header, then invalid header, then unknown key, each 401 with its own text (a readable header that is rejected always gets "A user with this api key does not exist"); forwarding happens exactly when some user's key_hash is the rendered hash of the key, and carries the first such user's id |
| Middleware.SignUpThenAuthenticate | src/middleware.rs:30-44 | a key just registered authenticates as the new user, provided no earlier user's stored hash equals it |
| Middleware.DistinctHashesDoNotMatch | src/middleware.rs:30 | keys whose hashes differ never match each other's stored hash |
| Middleware.Auth | src/middleware.rs:10-45 | decides as `Authenticate`; attaches the user id only when forwarding, and leaves a rejected request as it was |
| UserHandlers.PostUserResponse | src/handlers/users.rs:22-40 | 200 with the welcome text and key exactly on success, 422 naming the username exactly on a unique violation, 500 "Failed to insert user" otherwise |
| UserHandlers.PostUser | src/handlers/users.rs:9-41 | stores only the username and the decimal hash of the key, never the key; answers 422 and stores nothing when the username is taken |
| SpellHandlers.SpellsResponse | src/handlers/spells.rs:14-25 | 200 with the collection exactly on success, 500 "error retrieving spells" otherwise |
| SpellHandlers.SpellResponse | src/handlers/spells.rs:33-46 | 200 with the resource exactly on success, 404 with the fixed text exactly on NotFound, 500 otherwise |
| SpellHandlers.InsertResponse | src/handlers/spells.rs:85-91 | 200 with the stored resource exactly on success, 500 "error inserting spell" on any failure |
| SpellHandlers.DeleteResponse | src/handlers/spells.rs:142-157 | 200 exactly when one row was removed, 404 for any other count, 500 on failure |
| SpellHandlers.ToggleResponse | src/handlers/spells.rs:174-192 | 200 naming the stored spell exactly on success, 404 naming the requested name exactly on NotFound, 500 otherwise |
| SpellHandlers.PublicSpellsResponse | src/handlers/spells.rs:242-252 | 200 with the public collection exactly on success, 500 otherwise |
| SpellHandlers.GetSpells | src/handlers/spells.rs:14-25 | 200 listing the resources of all and only the caller's spells |
| SpellHandlers.GetSpell | src/handlers/spells.rs:27-47 | 200 with the spell exactly when the caller owns a spell with that nanoid, otherwise 404 with the fixed text |
| SpellHandlers.QueryPublicSpells | src/handlers/spells.rs:237-253 | 200 listing every published spell of any owner whose name contains the keyword, with the owner's username |
| SpellHandlers.PostSpell | src/handlers/spells.rs:49-92 | invalid: 422 with the error text, table unchanged; name owned (ignoring case): 422 quoting the stored name, unchanged; else one row appended with the request's fields, the caller, unpublished and the nanoid; a following GET returns exactly the submitted fields |
| SpellHandlers.UpdateSpell | src/handlers/spells.rs:94-134 | invalid: 422, unchanged; new name held by another nanoid of the caller: 422, unchanged; the all-absent patch: 500 "error updating spell", unchanged, whether or not the spell exists; else update by nanoid, 404 when the caller has no such spell; keeps the unique indexes |
| SpellHandlers.DeleteSpell | src/handlers/spells.rs:136-158 | removes exactly the caller's spell with that nanoid; 200 exactly when one row went, else 404 with the fixed text |
| SpellHandlers.PublishSpell | src/handlers/spells.rs:160-193 | already published: 422, unchanged; else the flag is set; 404 naming the name when missing; on 200 the spell reads as published |
| SpellHandlers.UnpublishSpell | src/handlers/spells.rs:195-235 | not published (missing included): 400, unchanged; else the flag is cleared and the spell reads as unpublished; never 404 |
| LikePattern.LiteralPattern | src/repositories/spells.rs:32 | a pattern without wildcards matches exactly itself |
| LikePattern.LiteralThenPercent | src/repositories/spells.rs:91 | `k%` matches exactly the strings starting with `k` |
| LikePattern.PercentMatchesAll | src/repositories/spells.rs:91 | `%` matches every string |
| LikePattern.SurroundedByPercent | src/repositories/spells.rs:91 | `%k%` matches exactly the strings containing `k`, for a wildcard-free `k` |
| LikePattern.IlikeLiteral | src/repositories/spells.rs:32 | for a name without wildcards, `ILIKE` is case-insensitive equality |
| LikePattern.IlikeContains | src/repositories/spells.rs:91 | for a keyword without wildcards, `ILIKE '%k%'` is case-insensitive containment |
| LikePattern.UnderscoreKeywordMatchesAll | src/repositories/spells.rs:91 | as written, the keyword `_` matches every non-empty name, while a name without `_` does not contain that keyword |
| LikePattern.PercentSelectsEveryOwnedSpell | src/repositories/spells.rs:79 | as written, the name `%` selects every spell of the caller |
| LikePattern.WildcardSelectsTwo | src/repositories/spells.rs:105 | as written, `%` selects two distinct spells of one owner, where the literal lookup selects at most one |

## Findings

| source | as written | input that shows it | evidently intended | confidence | as-written member | corrected member |
|---|---|---|---|---|---|---|
| src/repositories/spells.rs:32,79,105 | the requested name is passed to `ILIKE` as the pattern, so `%`, `_` and `\` in it are wildcards | a caller owning "Fireball" and "Frostbolt" sends `publish_spell` with name `%`: both are published, and `post_spell` with name `%` is refused as a duplicate | the name is compared literally, ignoring case, so a lookup selects at most one spell | high; not executed | LikePattern.WildcardSelectsTwo | SpellRepository.AtMostOneSelected |
| src/repositories/spells.rs:91 | the keyword is spliced into `%keyword%` unescaped | keyword `_` lists every published spell with a non-empty name, "Fireball" included, though it contains no underscore | the keyword is searched for literally, ignoring case | high; not executed | LikePattern.UnderscoreKeywordMatchesAll | LikePattern.IlikeContains |

The rest of the model uses the corrected, literal comparisons of module `Text`.
`LikePattern.IlikeLiteral` and `LikePattern.IlikeContains` show that they agree
with the source whenever the client's text has no wildcard.

## Left out

- `establish_connection` and the Postgres connection, plus all of src/lib.rs: I/O. Database failures other than NotFound and UniqueViolation appear as `OtherDbError`. The table methods produce it only for an update whose changeset has no present field, which Diesel refuses to turn into a query; connection and server failures are not modelled, so the other 500 branches are stated in the response functions and are not reachable from the methods.
- SpellHandlers.PostSpell: consistency of the table is stated only when the generated nanoid is fresh. The uniqueness of `nanoid!()` is probabilistic, and the database's unique index is not modelled.
- Concurrency: the check-then-insert and check-then-update races between requests. Each handler runs alone.
- `ILIKE` folds case only for ASCII letters here. Locale-aware folding of other letters is not modelled.
- LikePattern.LikeMatch: a pattern ending in a lone `\` is taken literally, whereas Postgres reports an error.
- Ids are unbounded integers, not the source's `i32`. The `id` sequence is modelled as a counter that only moves on a successful insert.
- `calculate_hash` is not part of this model. It is a parameter `string -> u64`. The uuid key and the nanoid are parameters too.
- JSON encoding and decoding, axum extraction, `eprintln!` logging, and the `next.run` call: side channels and framework plumbing. `Middleware.Auth` returns the decision instead of running the next handler.
- src/main.rs (routes, CORS, server), src/schema.rs, and the superseded src/models.rs, src/requests.rs and src/resources.rs are not part of this model. Neither are the `query_spells` and `copy_public_spell` handlers, which main.rs names but this snapshot does not contain.
- The repository functions `get_spell_by_nanoid` and `get_spell_by_name`, and the nanoid-keyed `update_spell` and `delete_spell`, that the handlers call are not in this snapshot. They are modelled as `SpellTable.GetSpell`, `UpdateSpell` and `DeleteSpell` with the key `NanoidIs` or `NameLike`.
