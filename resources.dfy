/** Outbound JSON shapes of spells (src/resources/spells.rs). */
module Resources {
  import opened Models

  /** A spell as its owner sees it: no `id`, `userId` or `nanoid`. */
  datatype SpellResource = SpellResource(
    name: string,
    level: string,
    castingTime: string,
    magicSchool: string,
    concentration: bool,
    range: string,
    duration: string,
    description: string,
    published: bool)

  /** A published spell as anyone sees it: no `published` flag, but the
      owner's username. */
  datatype PublicSpellResource = PublicSpellResource(
    name: string,
    level: string,
    castingTime: string,
    magicSchool: string,
    concentration: bool,
    range: string,
    duration: string,
    description: string,
    username: string)

  /** `into_resource` for a row. */
  function IntoResource(s: Spell): SpellResource
  {
    SpellResource(s.name, s.level, s.castingTime, s.magicSchool, s.concentration,
                  s.range, s.duration, s.description, s.published)
  }

  /** `into_resource` for a row joined with its owner. */
  function IntoPublicResource(s: Spell, u: User): PublicSpellResource
  {
    PublicSpellResource(s.name, s.level, s.castingTime, s.magicSchool, s.concentration,
                        s.range, s.duration, s.description, u.username)
  }

  /** The nine visible columns of two rows agree. */
  predicate SameVisibleFields(a: Spell, b: Spell)
  {
    && a.name == b.name && a.level == b.level && a.castingTime == b.castingTime
    && a.magicSchool == b.magicSchool && a.concentration == b.concentration
    && a.range == b.range && a.duration == b.duration && a.description == b.description
    && a.published == b.published
  }

  /** The resource copies exactly the nine visible columns: two rows have
      the same resource precisely when those columns agree, whatever their
      `id`, owner and `nanoid`. */
  lemma ResourceIsVisibleFields(a: Spell, b: Spell)
    ensures IntoResource(a) == IntoResource(b) <==> SameVisibleFields(a, b)
  {
  }

  /** The public resource copies the eight spell columns and the owner's
      username, and nothing else: not `published`, not any id. */
  lemma PublicResourceFields(a: Spell, ua: User, b: Spell, ub: User)
    ensures IntoPublicResource(a, ua) == IntoPublicResource(b, ub) <==>
      SameVisibleFields(a.(published := b.published), b) && ua.username == ub.username
  {
  }

  /** `into_collection` for rows: the element-wise projection, same length,
      same order. */
  function IntoCollection(rows: seq<Spell>): (r: seq<SpellResource>)
    ensures |r| == |rows|
    ensures forall i :: 0 <= i < |rows| ==> r[i] == IntoResource(rows[i])
  {
    if rows == [] then [] else [IntoResource(rows[0])] + IntoCollection(rows[1..])
  }

  /** `into_collection` for joined rows: the element-wise projection, same
      length, same order. */
  function IntoPublicCollection(rows: seq<(Spell, User)>): (r: seq<PublicSpellResource>)
    ensures |r| == |rows|
    ensures forall i :: 0 <= i < |rows| ==> r[i] == IntoPublicResource(rows[i].0, rows[i].1)
  {
    if rows == [] then [] else [IntoPublicResource(rows[0].0, rows[0].1)] + IntoPublicCollection(rows[1..])
  }

  /** A resource is in the collection exactly when some row projects to it. */
  lemma CollectionMembers(rows: seq<Spell>)
    ensures forall x :: x in IntoCollection(rows) <==> exists s :: s in rows && x == IntoResource(s)
  {
    var r := IntoCollection(rows);
    forall s | s in rows ensures IntoResource(s) in r {
      var i :| 0 <= i < |rows| && rows[i] == s;
      assert r[i] == IntoResource(s);
    }
  }

  /** A public resource is in the collection exactly when some pair projects to it. */
  lemma PublicCollectionMembers(pairs: seq<(Spell, User)>)
    ensures forall x :: x in IntoPublicCollection(pairs) <==>
      exists s, u :: (s, u) in pairs && x == IntoPublicResource(s, u)
  {
    var r := IntoPublicCollection(pairs);
    forall s, u | (s, u) in pairs ensures IntoPublicResource(s, u) in r {
      var i :| 0 <= i < |pairs| && pairs[i] == (s, u);
      assert r[i] == IntoPublicResource(s, u);
    }
    forall x | x in r ensures exists s, u :: (s, u) in pairs && x == IntoPublicResource(s, u) {
      var i :| 0 <= i < |r| && r[i] == x;
      assert pairs[i] == (pairs[i].0, pairs[i].1);
    }
  }
}
