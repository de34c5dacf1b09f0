/** The responses handlers produce: a status code and a body that is either
    plain text or one of the JSON resources. */
module Http {
  import opened Resources

  const OK: nat := 200
  const BAD_REQUEST: nat := 400
  const UNAUTHORIZED: nat := 401
  const NOT_FOUND: nat := 404
  const UNPROCESSABLE_ENTITY: nat := 422
  const INTERNAL_SERVER_ERROR: nat := 500

  datatype Body =
    | Text(text: string)
    | SpellJson(spell: SpellResource)
    | SpellListJson(spells: seq<SpellResource>)
    | PublicSpellListJson(publicSpells: seq<PublicSpellResource>)

  datatype Response = Response(status: nat, body: Body)
}
