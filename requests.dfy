/** Request bodies as the JSON extractor hands them to the handlers
    (src/requests/spells.rs; `PublishSpellRequest` and `CreateUserRequest`
    are not part of this model's sources and are given the one field the
    handlers read from them). */
module Requests {
  import opened Wrappers

  datatype CreateSpellRequest = CreateSpellRequest(
    name: string,
    level: string,
    castingTime: string,
    magicSchool: string,
    concentration: bool,
    range: string,
    duration: string,
    description: string)

  /** The partial update body: an absent field means "leave it alone". */
  datatype UpdatedSpellData = UpdatedSpellData(
    name: Option<string>,
    level: Option<string>,
    castingTime: Option<string>,
    magicSchool: Option<string>,
    concentration: Option<bool>,
    range: Option<string>,
    duration: Option<string>,
    description: Option<string>)

  /** The patch with every field absent. */
  const EmptyUpdate: UpdatedSpellData :=
    UpdatedSpellData(None, None, None, None, None, None, None, None)

  datatype GetPublicSpellRequest = GetPublicSpellRequest(keyword: string)

  datatype PublishSpellRequest = PublishSpellRequest(name: string)

  datatype CreateUserRequest = CreateUserRequest(username: string)
}
