/** The spell endpoints (src/handlers/spells.rs). Each authenticated
    handler receives the caller's id `u` from the middleware. The response
    of each database outcome is a pure function, and each handler is a
    method over the spells table. */
module SpellHandlers {
  import opened Wrappers
  import opened Database
  import opened Text
  import opened Models
  import opened Requests
  import opened Resources
  import opened Errors
  import opened Validators
  import opened Http
  import opened SpellRepository
  import UserRepository

  const NoSpellWithId: string := "You don't have a spell with this id in your spellbook."
  const Erased: string := "The spell was successfully erased from your spellbook."
  const UpdateFailed: string := "error updating spell"

  function AlreadyHave(name: string): string
  {
    "You already have a spell with the name \"" + name + "\" in your spellbook."
  }

  function NoSpellWithName(name: string): string
  {
    "You don't have a spell with the name \"" + name + "\" in your spellbook."
  }

  function AlreadyPublished(name: string): string
  {
    "Your spell \"" + name + "\" is already published."
  }

  function NotPublished(name: string): string
  {
    "Your spell \"" + name + "\" is not published."
  }

  /** The success text of publishing (`publish`) or unpublishing. */
  function Toggled(name: string, publish: bool): string
  {
    "Your spell \"" + name + "\" was successfully " + (if publish then "published." else "unpublished.")
  }

  // ---- Responses to repository outcomes ----

  /** `get_spells`: the caller's collection, or 500. */
  function SpellsResponse(r: Result<seq<Spell>, DbError>): (resp: Response)
    ensures resp.status == OK <==> r.Ok?
    ensures r.Ok? ==> resp.body == SpellListJson(IntoCollection(r.value))
    ensures r.Err? ==> resp == Response(INTERNAL_SERVER_ERROR, Text("error retrieving spells"))
  {
    match r
    case Ok(spells) => Response(OK, SpellListJson(IntoCollection(spells)))
    case Err(_) => Response(INTERNAL_SERVER_ERROR, Text("error retrieving spells"))
  }

  /** `get_spell` and `update_spell` by nanoid: the resource on success,
      404 exactly when the row was not found, 500 with `failure` otherwise. */
  function SpellResponse(r: Result<Spell, DbError>, failure: string): (resp: Response)
    ensures resp.status == OK <==> r.Ok?
    ensures resp.status == NOT_FOUND <==> r == Err(NotFound)
    ensures resp.status == INTERNAL_SERVER_ERROR <==> r.Err? && r.error != NotFound
    ensures r.Ok? ==> resp.body == SpellJson(IntoResource(r.value))
    ensures r == Err(NotFound) ==> resp.body == Text(NoSpellWithId)
    ensures r.Err? && r.error != NotFound ==> resp.body == Text(failure)
  {
    match r
    case Ok(spell) => Response(OK, SpellJson(IntoResource(spell)))
    case Err(NotFound) => Response(NOT_FOUND, Text(NoSpellWithId))
    case Err(_) => Response(INTERNAL_SERVER_ERROR, Text(failure))
  }

  /** `post_spell` after validation: the stored resource, or 500 for any
      failure of the insert. */
  function InsertResponse(r: Result<Spell, DbError>): (resp: Response)
    ensures resp.status == OK <==> r.Ok?
    ensures r.Ok? ==> resp.body == SpellJson(IntoResource(r.value))
    ensures r.Err? ==> resp == Response(INTERNAL_SERVER_ERROR, Text("error inserting spell"))
  {
    match r
    case Ok(spell) => Response(OK, SpellJson(IntoResource(spell)))
    case Err(_) => Response(INTERNAL_SERVER_ERROR, Text("error inserting spell"))
  }

  /** `delete_spell` by nanoid: 200 exactly when one row was removed, 404
      for any other count, 500 on failure. */
  function DeleteResponse(r: Result<nat, DbError>): (resp: Response)
    ensures resp.status == OK <==> r == Ok(1)
    ensures resp.status == NOT_FOUND <==> r.Ok? && r.value != 1
    ensures resp.status == INTERNAL_SERVER_ERROR <==> r.Err?
    ensures resp.status == OK ==> resp.body == Text(Erased)
    ensures resp.status == NOT_FOUND ==> resp.body == Text(NoSpellWithId)
    ensures r.Err? ==> resp.body == Text("error deleting spell")
  {
    match r
    case Ok(1) => Response(OK, Text(Erased))
    case Ok(_) => Response(NOT_FOUND, Text(NoSpellWithId))
    case Err(_) => Response(INTERNAL_SERVER_ERROR, Text("error deleting spell"))
  }

  /** `publish_spell` / `unpublish_spell` after the flag check: the success
      text names the stored spell, the 404 text the requested name. */
  function ToggleResponse(name: string, publish: bool, r: Result<Spell, DbError>): (resp: Response)
    ensures resp.status == OK <==> r.Ok?
    ensures resp.status == NOT_FOUND <==> r == Err(NotFound)
    ensures resp.status == INTERNAL_SERVER_ERROR <==> r.Err? && r.error != NotFound
    ensures r.Ok? ==> resp.body == Text(Toggled(r.value.name, publish))
    ensures r == Err(NotFound) ==> resp.body == Text(NoSpellWithName(name))
    ensures r.Err? && r.error != NotFound ==>
      resp.body == Text(if publish then "error publishing spell" else "error unpublishing spell")
  {
    match r
    case Ok(spell) => Response(OK, Text(Toggled(spell.name, publish)))
    case Err(NotFound) => Response(NOT_FOUND, Text(NoSpellWithName(name)))
    case Err(_) =>
      Response(INTERNAL_SERVER_ERROR, Text(if publish then "error publishing spell" else "error unpublishing spell"))
  }

  /** `query_public_spells`: the public collection, or 500. */
  function PublicSpellsResponse(r: Result<seq<(Spell, User)>, DbError>): (resp: Response)
    ensures resp.status == OK <==> r.Ok?
    ensures r.Ok? ==> resp.body == PublicSpellListJson(IntoPublicCollection(r.value))
    ensures r.Err? ==> resp == Response(INTERNAL_SERVER_ERROR, Text("error querying public spells"))
  {
    match r
    case Ok(pairs) => Response(OK, PublicSpellListJson(IntoPublicCollection(pairs)))
    case Err(_) => Response(INTERNAL_SERVER_ERROR, Text("error querying public spells"))
  }

  // ---- Read-only handlers ----

  /** `GET /spells`: the resources of the caller's spells, all and only them. */
  function GetSpells(table: SpellTable, u: int): (resp: Response)
    reads table
    ensures resp.status == OK && resp.body.SpellListJson?
    ensures forall x :: x in resp.body.spells <==>
      exists s :: s in table.rows && s.userId == u && x == IntoResource(s)
  {
    var rows := table.GetSpells(u);
    CollectionMembers(rows);
    SpellsResponse(Ok(rows))
  }

  /** `GET /spell/:nanoid`: 200 with the spell exactly when the caller owns
      a spell with that nanoid, 404 otherwise. */
  function GetSpell(table: SpellTable, u: int, nanoid: string): (resp: Response)
    reads table
    ensures resp.status == OK <==> exists s :: s in table.rows && s.userId == u && s.nanoid == nanoid
    ensures resp.status == OK ==>
      exists s :: s in table.rows && s.userId == u && s.nanoid == nanoid && resp.body == SpellJson(IntoResource(s))
    ensures resp.status != OK ==> resp == Response(NOT_FOUND, Text(NoSpellWithId))
  {
    SpellResponse(table.GetSpell(u, NanoidIs(nanoid)), "error retrieving spell")
  }

  /** `POST /public/spells/query`, behind the authentication middleware like
      every spell route: every published spell, of any owner, whose name
      contains the keyword ignoring case, shown with its owner's username. */
  function QueryPublicSpells(table: SpellTable, users: UserRepository.UserTable, request: GetPublicSpellRequest)
    : (resp: Response)
    reads table, users
    ensures resp.status == OK && resp.body.PublicSpellListJson?
    ensures forall x :: x in resp.body.publicSpells <==>
      exists s, owner :: && s in table.rows && s.published && ContainsIgnoreCase(s.name, request.keyword)
                         && owner in users.rows && owner.id == s.userId
                         && x == IntoPublicResource(s, owner)
  {
    var pairs := table.QueryPublicSpells(request.keyword, users.rows);
    PublicCollectionMembers(pairs);
    PublicSpellsResponse(Ok(pairs))
  }

  // ---- State-changing handlers ----

  /** The insert values `post_spell` builds: the request's fields, the
      caller as owner, unpublished, and a freshly generated nanoid. */
  function NewSpellFor(request: CreateSpellRequest, u: int, nanoid: string): NewSpell
  {
    NewSpell(request.name, request.level, request.castingTime, request.magicSchool,
             request.concentration, request.range, request.duration, request.description,
             u, false, nanoid)
  }

  /** The resource a client gets back for a created spell: exactly what it sent, unpublished. */
  function CreatedResource(request: CreateSpellRequest): SpellResource
  {
    SpellResource(request.name, request.level, request.castingTime, request.magicSchool,
                  request.concentration, request.range, request.duration, request.description, false)
  }

  /** The nanoid is used by no row. */
  predicate FreshNanoid(rows: seq<Spell>, nanoid: string)
  {
    forall s :: s in rows ==> s.nanoid != nanoid
  }

  /** `POST /spells` with `nanoid` the generated handle: validation first,
      then the case-insensitive name check in the caller's spellbook, then
      the insert. */
  method PostSpell(table: SpellTable, u: int, request: CreateSpellRequest, nanoid: string) returns (resp: Response)
    requires table.Valid()
    modifies table
    ensures table.Valid()
    ensures ValidateCreate(request).Fail? ==>
      resp == Response(UNPROCESSABLE_ENTITY, Text(Message(ValidateCreate(request).error))) && unchanged(table)
    ensures ValidateCreate(request).Pass? && old(table.GetSpell(u, NameLike(request.name))).Ok? ==>
      && resp == Response(UNPROCESSABLE_ENTITY, Text(AlreadyHave(old(table.GetSpell(u, NameLike(request.name))).value.name)))
      && unchanged(table)
    ensures ValidateCreate(request).Pass? && old(table.GetSpell(u, NameLike(request.name))).Err? ==>
      && table.rows == old(table.rows) + [Inserted(NewSpellFor(request, u, nanoid), old(table.nextId))]
      && resp == Response(OK, SpellJson(CreatedResource(request)))
    ensures Consistent(old(table.rows)) && FreshNanoid(old(table.rows), nanoid) ==> Consistent(table.rows)
    ensures resp.status == OK && FreshNanoid(old(table.rows), nanoid) ==>
      GetSpell(table, u, nanoid) == Response(OK, SpellJson(CreatedResource(request)))
  {
    var validation := ValidateCreate(request);
    if validation.Fail? {
      return Response(UNPROCESSABLE_ENTITY, Text(Message(validation.error)));
    }
    var existing := table.GetSpell(u, NameLike(request.name));
    if existing.Ok? {
      return Response(UNPROCESSABLE_ENTITY, Text(AlreadyHave(existing.value.name)));
    }
    ghost var before := table.rows;
    var r := table.InsertSpell(NewSpellFor(request, u, nanoid));
    resp := InsertResponse(r);
    if FreshNanoid(before, nanoid) {
      if Consistent(before) {
        InsertKeepsConsistent(before, r.value);
      }
      AppendedFoundByNanoid(before, r.value);
    }
  }

  /** The spell of the caller that already carries `name` ignoring case,
      when it is not the spell being updated. */
  function NameTakenByOther(table: SpellTable, u: int, nanoid: string, name: Option<string>): Option<Spell>
    reads table
  {
    if name.None? then None
    else match table.GetSpell(u, NameLike(name.value))
      case Ok(spell) => if spell.nanoid != nanoid then Some(spell) else None
      case Err(_) => None
  }

  /** `PUT /spell/:nanoid`: validation first, then the name check against
      the caller's other spells, then the update of the row with that
      nanoid. */
  method UpdateSpell(table: SpellTable, u: int, nanoid: string, request: UpdatedSpellData) returns (resp: Response)
    requires table.Valid()
    modifies table
    ensures table.Valid()
    ensures ValidateUpdate(request).Fail? ==>
      resp == Response(UNPROCESSABLE_ENTITY, Text(Message(ValidateUpdate(request).error))) && unchanged(table)
    ensures ValidateUpdate(request).Pass? && old(NameTakenByOther(table, u, nanoid, request.name)).Some? ==>
      && resp == Response(UNPROCESSABLE_ENTITY, Text(AlreadyHave(old(NameTakenByOther(table, u, nanoid, request.name)).value.name)))
      && unchanged(table)
    ensures request == EmptyUpdate ==>
      resp == Response(INTERNAL_SERVER_ERROR, Text(UpdateFailed)) && unchanged(table)
    ensures (&& request != EmptyUpdate && ValidateUpdate(request).Pass?
             && old(NameTakenByOther(table, u, nanoid, request.name)).None?) ==>
      && table.rows == UpdateWhere(old(table.rows), u, NanoidIs(nanoid), SetFields(FromRequest(request)))
      && (old(table.GetSpell(u, NanoidIs(nanoid))).Err? ==> resp == Response(NOT_FOUND, Text(NoSpellWithId)))
      && (old(table.GetSpell(u, NanoidIs(nanoid))).Ok? ==>
            resp == Response(OK, SpellJson(IntoResource(Apply(old(table.GetSpell(u, NanoidIs(nanoid))).value, FromRequest(request))))))
    ensures Consistent(old(table.rows)) ==> Consistent(table.rows)
  {
    var validation := ValidateUpdate(request);
    if validation.Fail? {
      return Response(UNPROCESSABLE_ENTITY, Text(Message(validation.error)));
    }
    if request.name.Some? {
      var existing := table.GetSpell(u, NameLike(request.name.value));
      if existing.Ok? && existing.value.nanoid != nanoid {
        return Response(UNPROCESSABLE_ENTITY, Text(AlreadyHave(existing.value.name)));
      }
    }
    ghost var before := table.rows;
    NoChangesIffEmptyRequest(request);
    var r := table.UpdateSpell(u, NanoidIs(nanoid), FromRequest(request));
    resp := SpellResponse(r, UpdateFailed);
    if Consistent(before) {
      NameCheckKeepsConsistent(before, u, nanoid, FromRequest(request));
    }
  }

  /** `DELETE /spell/:nanoid`: removes the caller's spell with that nanoid;
      200 exactly when one row went. */
  method DeleteSpell(table: SpellTable, u: int, nanoid: string) returns (resp: Response)
    requires table.Valid()
    modifies table
    ensures table.Valid()
    ensures table.rows == Filter(old(table.rows), Unselected(u, NanoidIs(nanoid)))
    ensures resp.status == OK <==> |Filter(old(table.rows), Selected(u, NanoidIs(nanoid)))| == 1
    ensures resp.status == OK ==> resp.body == Text(Erased)
    ensures resp.status != OK ==> resp == Response(NOT_FOUND, Text(NoSpellWithId))
    ensures Consistent(old(table.rows)) ==>
      && Consistent(table.rows)
      && (resp.status == OK <==> exists s :: s in old(table.rows) && s.userId == u && s.nanoid == nanoid)
  {
    ghost var before := table.rows;
    var r := table.DeleteSpell(u, NanoidIs(nanoid));
    resp := DeleteResponse(r);
    if Consistent(before) {
      AtMostOneSelected(before, u, NanoidIs(nanoid));
      FilterKeepsPairwise(before, Unselected(u, NanoidIs(nanoid)), CompatibleRows);
    }
  }

  /** `PATCH /spell/publish/:nanoid` (the path segment is not read; the spell
      is named in the body): 422 when the spell is already published, otherwise
      sets the flag on the caller's spell with that name (ignoring case). */
  method PublishSpell(table: SpellTable, u: int, request: PublishSpellRequest) returns (resp: Response)
    requires table.Valid()
    modifies table
    ensures table.Valid()
    ensures old(table.IsPublished(u, NameLike(request.name))) == Ok(true) ==>
      resp == Response(UNPROCESSABLE_ENTITY, Text(AlreadyPublished(request.name))) && unchanged(table)
    ensures old(table.IsPublished(u, NameLike(request.name))) != Ok(true) ==>
      && table.rows == UpdateWhere(old(table.rows), u, NameLike(request.name), SetPublished(true))
      && (old(table.GetSpell(u, NameLike(request.name))).Err? ==>
            resp == Response(NOT_FOUND, Text(NoSpellWithName(request.name))))
      && (old(table.GetSpell(u, NameLike(request.name))).Ok? ==>
            resp == Response(OK, Text(Toggled(old(table.GetSpell(u, NameLike(request.name))).value.name, true))))
    ensures Consistent(old(table.rows)) ==> Consistent(table.rows)
    ensures resp.status == OK ==> table.IsPublished(u, NameLike(request.name)) == Ok(true)
  {
    var key := NameLike(request.name);
    if table.IsPublished(u, key) == Ok(true) {
      return Response(UNPROCESSABLE_ENTITY, Text(AlreadyPublished(request.name)));
    }
    ghost var before := table.rows;
    var r := table.PublishSpell(u, key, true);
    resp := ToggleResponse(request.name, true, r);
    if Consistent(before) {
      PublishKeepsConsistent(before, u, key, true);
    }
    if r.Ok? {
      FlagAfterToggle(before, u, key, true);
    }
  }

  /** `PATCH /spell/unpublish`: 400 unless the spell is published, otherwise clears
      the flag. Its 404 branch cannot be reached. */
  method UnpublishSpell(table: SpellTable, u: int, request: PublishSpellRequest) returns (resp: Response)
    requires table.Valid()
    modifies table
    ensures table.Valid()
    ensures old(table.IsPublished(u, NameLike(request.name))) != Ok(true) ==>
      resp == Response(BAD_REQUEST, Text(NotPublished(request.name))) && unchanged(table)
    ensures old(table.IsPublished(u, NameLike(request.name))) == Ok(true) ==>
      && table.rows == UpdateWhere(old(table.rows), u, NameLike(request.name), SetPublished(false))
      && resp == Response(OK, Text(Toggled(old(table.GetSpell(u, NameLike(request.name))).value.name, false)))
      && table.IsPublished(u, NameLike(request.name)) == Ok(false)
    ensures resp.status != NOT_FOUND
    ensures Consistent(old(table.rows)) ==> Consistent(table.rows)
  {
    var key := NameLike(request.name);
    if table.IsPublished(u, key) != Ok(true) {
      return Response(BAD_REQUEST, Text(NotPublished(request.name)));
    }
    ghost var before := table.rows;
    var r := table.PublishSpell(u, key, false);
    resp := ToggleResponse(request.name, false, r);
    if Consistent(before) {
      PublishKeepsConsistent(before, u, key, false);
    }
    FlagAfterToggle(before, u, key, false);
  }

  /** After setting the flag of the rows a key selects, the row the key
      finds first is the same one, now with the new flag. */
  lemma FlagAfterToggle(rows: seq<Spell>, u: int, key: SpellKey, b: bool)
    requires FirstIndex(rows, Selected(u, key)).Some?
    ensures var r := UpdateWhere(rows, u, key, SetPublished(b));
      && FirstIndex(r, Selected(u, key)) == FirstIndex(rows, Selected(u, key))
      && r[FirstIndex(rows, Selected(u, key)).value].published == b
  {
    var r := UpdateWhere(rows, u, key, SetPublished(b));
    assert forall i :: 0 <= i < |rows| ==> (Selects(r[i], u, key) <==> Selects(rows[i], u, key));
    FirstIndexUnique(r, rows, Selected(u, key));
  }

  /** Two tables of equal length whose rows a filter keeps at the same
      positions have the same first kept index. */
  lemma {:induction false} FirstIndexUnique(a: seq<Spell>, b: seq<Spell>, f: RowFilter)
    requires |a| == |b|
    requires forall i :: 0 <= i < |a| ==> (Keeps(f, a[i]) <==> Keeps(f, b[i]))
    ensures FirstIndex(a, f) == FirstIndex(b, f)
  {
    if a != [] {
      FirstIndexUnique(a[1..], b[1..], f);
    }
  }
}
