/** Table rows and the values written into them (src/models/spells.rs,
    src/models/users.rs). */
module Models {
  import opened Wrappers
  import opened Requests

  /** A row of the `spells` table. `id`, `userId` (the owner) and `nanoid`
      (the public handle) are never shown to clients. */
  datatype Spell = Spell(
    id: int,
    name: string,
    level: string,
    castingTime: string,
    magicSchool: string,
    concentration: bool,
    range: string,
    duration: string,
    description: string,
    userId: int,
    published: bool,
    nanoid: string)

  /** The values of an insert: every column except the server-assigned `id`. */
  datatype NewSpell = NewSpell(
    name: string,
    level: string,
    castingTime: string,
    magicSchool: string,
    concentration: bool,
    range: string,
    duration: string,
    description: string,
    userId: int,
    published: bool,
    nanoid: string)

  /** The changeset of a partial update. It has no `id`, `userId`,
      `published` or `nanoid` field, so an update cannot reach those columns. */
  datatype UpdatedSpell = UpdatedSpell(
    name: Option<string>,
    level: Option<string>,
    castingTime: Option<string>,
    magicSchool: Option<string>,
    concentration: Option<bool>,
    range: Option<string>,
    duration: Option<string>,
    description: Option<string>)

  /** A row of the `users` table. */
  datatype User = User(id: int, username: string, keyHash: string)

  /** The values of a user insert. */
  datatype NewUser = NewUser(username: string, keyHash: string)

  /** `UpdatedSpell::from_request`: the changeset built from an update body. */
  function FromRequest(r: UpdatedSpellData): UpdatedSpell
  {
    UpdatedSpell(r.name, r.level, r.castingTime, r.magicSchool,
                 r.concentration, r.range, r.duration, r.description)
  }

  function OrElse<T>(o: Option<T>, default: T): T
  {
    if o.Some? then o.value else default
  }

  /** The row after `UPDATE ... SET` with a changeset: present fields are
      written, absent ones keep the column's value. */
  function Apply(s: Spell, c: UpdatedSpell): (t: Spell)
    ensures t.id == s.id && t.userId == s.userId && t.published == s.published && t.nanoid == s.nanoid
  {
    s.(name := OrElse(c.name, s.name),
       level := OrElse(c.level, s.level),
       castingTime := OrElse(c.castingTime, s.castingTime),
       magicSchool := OrElse(c.magicSchool, s.magicSchool),
       concentration := OrElse(c.concentration, s.concentration),
       range := OrElse(c.range, s.range),
       duration := OrElse(c.duration, s.duration),
       description := OrElse(c.description, s.description))
  }

  /** Updating a row with the changeset built from a request: each field the
      request carries is written unchanged, each field it leaves out keeps
      the row's value, and the hidden columns never change. */
  lemma ApplyRequest(s: Spell, r: UpdatedSpellData)
    ensures var t := Apply(s, FromRequest(r));
      && (r.name.Some? ==> t.name == r.name.value) && (r.name.None? ==> t.name == s.name)
      && (r.level.Some? ==> t.level == r.level.value) && (r.level.None? ==> t.level == s.level)
      && (r.castingTime.Some? ==> t.castingTime == r.castingTime.value)
      && (r.castingTime.None? ==> t.castingTime == s.castingTime)
      && (r.magicSchool.Some? ==> t.magicSchool == r.magicSchool.value)
      && (r.magicSchool.None? ==> t.magicSchool == s.magicSchool)
      && (r.concentration.Some? ==> t.concentration == r.concentration.value)
      && (r.concentration.None? ==> t.concentration == s.concentration)
      && (r.range.Some? ==> t.range == r.range.value) && (r.range.None? ==> t.range == s.range)
      && (r.duration.Some? ==> t.duration == r.duration.value) && (r.duration.None? ==> t.duration == s.duration)
      && (r.description.Some? ==> t.description == r.description.value)
      && (r.description.None? ==> t.description == s.description)
      && t.id == s.id && t.userId == s.userId && t.published == s.published && t.nanoid == s.nanoid
  {
  }

  /** The all-absent request leaves every row identical. */
  lemma EmptyRequestLeavesRow(s: Spell)
    ensures Apply(s, FromRequest(EmptyUpdate)) == s
  {
  }

  /** A changeset with no present field: `UPDATE ... SET` has nothing to
      write, and Diesel refuses to build the query. */
  predicate NoChanges(c: UpdatedSpell)
  {
    c.name.None? && c.level.None? && c.castingTime.None? && c.magicSchool.None? &&
    c.concentration.None? && c.range.None? && c.duration.None? && c.description.None?
  }

  /** The changeset of a request is empty exactly when the request is the
      all-absent patch. */
  lemma NoChangesIffEmptyRequest(r: UpdatedSpellData)
    ensures NoChanges(FromRequest(r)) <==> r == EmptyUpdate
  {
  }

  /** Applying the same changeset twice is the same as applying it once. */
  lemma ApplyIdempotent(s: Spell, c: UpdatedSpell)
    ensures Apply(Apply(s, c), c) == Apply(s, c)
  {
  }

  /** The insert values of a row, that is the row without its `id`. */
  function AsNew(s: Spell): NewSpell
  {
    NewSpell(s.name, s.level, s.castingTime, s.magicSchool, s.concentration,
             s.range, s.duration, s.description, s.userId, s.published, s.nanoid)
  }

  /** The row the database returns for an insert of `n` that it gave `id`:
      every supplied value, `userId`, `published` and `nanoid` included, is
      stored as given. */
  function Inserted(n: NewSpell, id: int): (s: Spell)
    ensures AsNew(s) == n && s.id == id
  {
    Spell(id, n.name, n.level, n.castingTime, n.magicSchool, n.concentration,
          n.range, n.duration, n.description, n.userId, n.published, n.nanoid)
  }

  /** A row is its insert values plus its `id`. */
  lemma InsertedAsNew(s: Spell)
    ensures Inserted(AsNew(s), s.id) == s
  {
  }

  /** The row the database returns for a user insert that it gave `id`. */
  function InsertedUser(n: NewUser, id: int): User
  {
    User(id, n.username, n.keyHash)
  }
}
