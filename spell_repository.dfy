/** The spells table and the repository operations over it
    (src/repositories/spells.rs, plus the by-nanoid variants that the
    handlers in src/handlers/spells.rs call). */
module SpellRepository {
  import opened Wrappers
  import opened Database
  import opened Text
  import opened Models

  /** How an operation picks the caller's row: `name ILIKE n` (modelled as
      ASCII case-insensitive equality), `name = n`, or `nanoid = id`. */
  datatype SpellKey =
    | NameLike(name: string)
    | NameIs(name: string)
    | NanoidIs(nanoid: string)

  /** The `WHERE user_id = u AND <key>` of a keyed operation. */
  predicate Selects(s: Spell, userId: int, key: SpellKey)
  {
    s.userId == userId &&
    match key
    case NameLike(n) => EqualsIgnoreCase(s.name, n)
    case NameIs(n) => s.name == n
    case NanoidIs(id) => s.nanoid == id
  }

  /** The row filters the repository applies. */
  datatype RowFilter =
    | OwnedBy(userId: int)
    | Selected(userId: int, key: SpellKey)
    | Unselected(userId: int, key: SpellKey)
    | PublishedNameContains(keyword: string)

  predicate Keeps(f: RowFilter, s: Spell)
  {
    match f
    case OwnedBy(u) => s.userId == u
    case Selected(u, key) => Selects(s, u, key)
    case Unselected(u, key) => !Selects(s, u, key)
    case PublishedNameContains(k) => s.published && ContainsIgnoreCase(s.name, k)
  }

  /** The rows a filter keeps, in table order. */
  function Filter(rows: seq<Spell>, f: RowFilter): (r: seq<Spell>)
    ensures |r| <= |rows|
    ensures forall s :: s in r <==> s in rows && Keeps(f, s)
  {
    if rows == [] then []
    else (if Keeps(f, rows[0]) then [rows[0]] else []) + Filter(rows[1..], f)
  }

  /** Filtering keeps table order: it distributes over concatenation. */
  lemma {:induction false} FilterAppend(a: seq<Spell>, b: seq<Spell>, f: RowFilter)
    ensures Filter(a + b, f) == Filter(a, f) + Filter(b, f)
  {
    if a == [] {
      assert a + b == b;
    } else {
      assert (a + b)[1..] == a[1..] + b;
      FilterAppend(a[1..], b, f);
    }
  }

  /** Every row is either selected by a key or not: the two filters split the table. */
  lemma {:induction false} FilterSplits(rows: seq<Spell>, u: int, key: SpellKey)
    ensures |Filter(rows, Selected(u, key))| + |Filter(rows, Unselected(u, key))| == |rows|
  {
    if rows != [] {
      FilterSplits(rows[1..], u, key);
    }
  }

  /** A filter that keeps no row yields the empty table. */
  lemma {:induction false} FilterNone(rows: seq<Spell>, f: RowFilter)
    requires forall s :: s in rows ==> !Keeps(f, s)
    ensures Filter(rows, f) == []
  {
    if rows != [] {
      assert forall s :: s in rows[1..] ==> s in rows;
      FilterNone(rows[1..], f);
    }
  }

  /** The index of the first row a filter keeps. */
  function FirstIndex(rows: seq<Spell>, f: RowFilter): (r: Option<nat>)
    ensures r.Some? ==> r.value < |rows| && Keeps(f, rows[r.value])
    ensures r.Some? ==> forall j :: 0 <= j < r.value ==> !Keeps(f, rows[j])
    ensures r.None? ==> forall j :: 0 <= j < |rows| ==> !Keeps(f, rows[j])
  {
    if rows == [] then None
    else if Keeps(f, rows[0]) then Some(0)
    else match FirstIndex(rows[1..], f)
      case None => None
      case Some(k) => Some(k + 1)
  }

  /** A change an `UPDATE` applies to the rows it selects. */
  datatype Change =
    | SetFields(changes: UpdatedSpell)
    | SetPublished(published: bool)

  function ApplyChange(s: Spell, c: Change): (t: Spell)
    ensures t.id == s.id && t.userId == s.userId && t.nanoid == s.nanoid
    ensures c.SetPublished? ==> t.published == c.published && t == s.(published := t.published)
  {
    match c
    case SetFields(changes) => Apply(s, changes)
    case SetPublished(b) => s.(published := b)
  }

  /** The table after `UPDATE spells SET <c> WHERE user_id = u AND <key>`:
      the selected rows are changed, every other row is kept, in place. */
  function UpdateWhere(rows: seq<Spell>, u: int, key: SpellKey, c: Change): (r: seq<Spell>)
    ensures |r| == |rows|
    ensures forall i :: 0 <= i < |rows| ==>
      r[i] == if Selects(rows[i], u, key) then ApplyChange(rows[i], c) else rows[i]
  {
    if rows == [] then []
    else [if Selects(rows[0], u, key) then ApplyChange(rows[0], c) else rows[0]]
         + UpdateWhere(rows[1..], u, key, c)
  }

  /** When the key selects nothing, an update leaves the table as it is. */
  lemma UpdateNothingSelected(rows: seq<Spell>, u: int, key: SpellKey, c: Change)
    requires FirstIndex(rows, Selected(u, key)).None?
    ensures UpdateWhere(rows, u, key, c) == rows
  {
  }

  /** Owner isolation of updates: another user's spellbook is unchanged. */
  lemma {:induction false} UpdateIsolation(rows: seq<Spell>, u: int, key: SpellKey, c: Change, v: int)
    requires v != u
    ensures Filter(UpdateWhere(rows, u, key, c), OwnedBy(v)) == Filter(rows, OwnedBy(v))
  {
    if rows != [] {
      var r := UpdateWhere(rows, u, key, c);
      assert r[1..] == UpdateWhere(rows[1..], u, key, c);
      UpdateIsolation(rows[1..], u, key, c, v);
    }
  }

  /** Owner isolation of deletes: another user's spellbook is unchanged. */
  lemma {:induction false} DeleteIsolation(rows: seq<Spell>, u: int, key: SpellKey, v: int)
    requires v != u
    ensures Filter(Filter(rows, Unselected(u, key)), OwnedBy(v)) == Filter(rows, OwnedBy(v))
  {
    if rows != [] {
      DeleteIsolation(rows[1..], u, key, v);
      var t := Filter(rows[1..], Unselected(u, key));
      if Keeps(Unselected(u, key), rows[0]) {
        assert Filter(rows, Unselected(u, key)) == [rows[0]] + t;
        assert ([rows[0]] + t)[1..] == t;
      } else {
        assert Filter(rows, Unselected(u, key)) == t;
        assert !Keeps(OwnedBy(v), rows[0]);
      }
    }
  }

  /** Owner isolation of inserts: a row of user `u` leaves user `v`'s
      spellbook unchanged. */
  lemma InsertIsolation(rows: seq<Spell>, s: Spell, v: int)
    requires s.userId != v
    ensures Filter(rows + [s], OwnedBy(v)) == Filter(rows, OwnedBy(v))
  {
    FilterAppend(rows, [s], OwnedBy(v));
  }

  /** Two rows the unique indexes allow side by side: distinct nanoids, and
      names that differ ignoring case when both rows have the same owner. */
  predicate Compatible(a: Spell, b: Spell)
  {
    a.nanoid != b.nanoid && (a.userId == b.userId ==> !EqualsIgnoreCase(a.name, b.name))
  }

  /** The two relations the table keeps between any two of its rows. */
  datatype RowRelation = IdsDiffer | CompatibleRows

  predicate Related(rel: RowRelation, a: Spell, b: Spell)
  {
    match rel
    case IdsDiffer => a.id != b.id
    case CompatibleRows => Compatible(a, b)
  }

  /** Every earlier row is related to every later one. */
  predicate Pairwise(rows: seq<Spell>, rel: RowRelation)
  {
    forall i, j :: 0 <= i < j < |rows| ==> Related(rel, rows[i], rows[j])
  }

  /** No two rows share an `id` (the primary key). */
  predicate DistinctIds(rows: seq<Spell>)
  {
    Pairwise(rows, IdsDiffer)
  }

  /** Per-owner case-insensitive name uniqueness and global nanoid uniqueness. */
  predicate Consistent(rows: seq<Spell>)
  {
    Pairwise(rows, CompatibleRows)
  }

  lemma PairwiseTail(rows: seq<Spell>, rel: RowRelation)
    requires rows != [] && Pairwise(rows, rel)
    ensures Pairwise(rows[1..], rel)
  {
    var t := rows[1..];
    forall i, j | 0 <= i < j < |t| ensures Related(rel, t[i], t[j]) {
      assert t[i] == rows[i + 1] && t[j] == rows[j + 1];
    }
  }

  /** A filtered table keeps every pairwise relation, so it keeps distinct
      ids and consistency. */
  lemma {:induction false} FilterKeepsPairwise(rows: seq<Spell>, f: RowFilter, rel: RowRelation)
    requires Pairwise(rows, rel)
    ensures Pairwise(Filter(rows, f), rel)
  {
    if rows != [] {
      var x, t := rows[0], rows[1..];
      PairwiseTail(rows, rel);
      FilterKeepsPairwise(t, f, rel);
      var ft := Filter(t, f);
      var r := Filter(rows, f);
      if Keeps(f, x) {
        assert r == [x] + ft;
        forall j | 0 <= j < |ft| ensures Related(rel, x, ft[j]) {
          assert ft[j] in t;
          var k :| 0 <= k < |t| && t[k] == ft[j];
          assert rows[k + 1] == ft[j];
        }
        forall i, j | 0 <= i < j < |r| ensures Related(rel, r[i], r[j]) {
          if i > 0 {
            assert r[i] == ft[i - 1] && r[j] == ft[j - 1];
          }
        }
      } else {
        assert r == ft;
      }
    }
  }

  /** An update never moves ids, so it keeps them distinct and below the sequence. */
  lemma UpdateKeepsIds(rows: seq<Spell>, u: int, key: SpellKey, c: Change, nextId: int)
    requires DistinctIds(rows) && forall i :: 0 <= i < |rows| ==> rows[i].id < nextId
    ensures var r := UpdateWhere(rows, u, key, c);
      DistinctIds(r) && forall i :: 0 <= i < |r| ==> r[i].id < nextId
  {
    var r := UpdateWhere(rows, u, key, c);
    assert forall i :: 0 <= i < |r| ==> r[i].id == rows[i].id;
    forall i, j | 0 <= i < j < |r| ensures Related(IdsDiffer, r[i], r[j]) {
      assert Related(IdsDiffer, rows[i], rows[j]);
    }
  }

  /** Two rows agree on the columns the unique indexes look at. */
  predicate SameIndexedColumns(a: Spell, b: Spell)
  {
    a.name == b.name && a.userId == b.userId && a.nanoid == b.nanoid
  }

  /** Changing only columns no unique index looks at keeps consistency. */
  lemma ConsistentUnderSameColumns(rows: seq<Spell>, r: seq<Spell>)
    requires Consistent(rows) && |r| == |rows|
    requires forall i :: 0 <= i < |rows| ==> SameIndexedColumns(rows[i], r[i])
    ensures Consistent(r)
  {
    forall i, j | 0 <= i < j < |r| ensures Compatible(r[i], r[j]) {
      assert Related(CompatibleRows, rows[i], rows[j]);
      assert SameIndexedColumns(rows[i], r[i]) && SameIndexedColumns(rows[j], r[j]);
    }
  }

  /** Under the unique indexes a key selects at most one row of a user: the
      row at `i` is the only one. */
  lemma OthersUnselected(rows: seq<Spell>, u: int, key: SpellKey, i: nat)
    requires Consistent(rows)
    requires i < |rows| && Selects(rows[i], u, key)
    ensures forall j :: 0 <= j < |rows| && j != i ==> !Selects(rows[j], u, key)
  {
    forall j | 0 <= j < |rows| && j != i
      ensures !Selects(rows[j], u, key)
    {
      if j < i {
        assert Related(CompatibleRows, rows[j], rows[i]);
      } else {
        assert Related(CompatibleRows, rows[i], rows[j]);
      }
    }
  }

  /** Under the unique indexes a keyed delete removes at most one row. */
  lemma {:induction false} AtMostOneSelected(rows: seq<Spell>, u: int, key: SpellKey)
    requires Consistent(rows)
    ensures |Filter(rows, Selected(u, key))| <= 1
  {
    if rows != [] {
      var t := rows[1..];
      PairwiseTail(rows, CompatibleRows);
      AtMostOneSelected(t, u, key);
      if Selects(rows[0], u, key) {
        OthersUnselected(rows, u, key, 0);
        assert forall s :: s in t ==> !Selects(s, u, key) by {
          forall s | s in t ensures !Selects(s, u, key) {
            var k :| 0 <= k < |t| && t[k] == s;
            assert rows[k + 1] == s;
          }
        }
        FilterNone(t, Selected(u, key));
      }
    }
  }

  /** A row compatible with every row can be appended without breaking the
      unique indexes. */
  lemma InsertKeepsConsistent(rows: seq<Spell>, s: Spell)
    requires Consistent(rows)
    requires forall t :: t in rows ==> Compatible(t, s)
    ensures Consistent(rows + [s])
  {
    var r := rows + [s];
    forall i, j | 0 <= i < j < |r| ensures Related(CompatibleRows, r[i], r[j]) {
      if j == |rows| {
        assert r[i] in rows;
      } else {
        assert r[i] == rows[i] && r[j] == rows[j];
      }
    }
  }

  /** A row appended with a nanoid no earlier row has is the one a lookup
      by that nanoid finds. */
  lemma AppendedFoundByNanoid(rows: seq<Spell>, s: Spell)
    requires forall t :: t in rows ==> t.nanoid != s.nanoid
    ensures FirstIndex(rows + [s], Selected(s.userId, NanoidIs(s.nanoid))) == Some(|rows|)
  {
    var r := rows + [s];
    assert forall j :: 0 <= j < |rows| ==> r[j] == rows[j] && rows[j] in rows;
    var f := FirstIndex(r, Selected(s.userId, NanoidIs(s.nanoid)));
    assert Keeps(Selected(s.userId, NanoidIs(s.nanoid)), r[|rows|]);
  }

  /** Publishing and unpublishing touch no indexed column. */
  lemma PublishKeepsConsistent(rows: seq<Spell>, u: int, key: SpellKey, b: bool)
    requires Consistent(rows)
    ensures Consistent(UpdateWhere(rows, u, key, SetPublished(b)))
  {
    var r := UpdateWhere(rows, u, key, SetPublished(b));
    forall i | 0 <= i < |rows| ensures SameIndexedColumns(rows[i], r[i]) {
      if Selects(rows[i], u, key) {
        assert r[i] == ApplyChange(rows[i], SetPublished(b));
      }
    }
    ConsistentUnderSameColumns(rows, r);
  }

  /** The row an update by nanoid leaves at one position. */
  function UpdatedRow(s: Spell, u: int, id: string, ch: UpdatedSpell): Spell
  {
    if Selects(s, u, NanoidIs(id)) then Apply(s, ch) else s
  }

  /** One pair of rows: renaming the row with nanoid `id` keeps the pair
      compatible when the new name is not another row's of the owner. */
  lemma RenamePair(a: Spell, b: Spell, u: int, id: string, ch: UpdatedSpell)
    requires Compatible(a, b)
    requires ch.name.Some? ==> (Selects(a, u, NameLike(ch.name.value)) ==> a.nanoid == id)
    requires ch.name.Some? ==> (Selects(b, u, NameLike(ch.name.value)) ==> b.nanoid == id)
    ensures Compatible(UpdatedRow(a, u, id, ch), UpdatedRow(b, u, id, ch))
  {
  }

  /** An update of the row with nanoid `id` keeps the unique indexes when no
      other row of the owner already has the new name, ignoring case. */
  lemma RenameKeepsConsistent(rows: seq<Spell>, u: int, id: string, ch: UpdatedSpell)
    requires Consistent(rows)
    requires ch.name.Some? ==>
      forall i :: 0 <= i < |rows| && Selects(rows[i], u, NameLike(ch.name.value)) ==> rows[i].nanoid == id
    ensures Consistent(UpdateWhere(rows, u, NanoidIs(id), SetFields(ch)))
  {
    var r := UpdateWhere(rows, u, NanoidIs(id), SetFields(ch));
    forall i, j | 0 <= i < j < |r| ensures Related(CompatibleRows, r[i], r[j]) {
      assert Related(CompatibleRows, rows[i], rows[j]);
      assert r[i] == UpdatedRow(rows[i], u, id, ch) && r[j] == UpdatedRow(rows[j], u, id, ch);
      RenamePair(rows[i], rows[j], u, id, ch);
    }
  }

  /** The name check of the update handler suffices: when the first row of
      the owner with the new name, ignoring case, is the row being updated
      (or there is none), the update keeps the unique indexes. */
  lemma NameCheckKeepsConsistent(rows: seq<Spell>, u: int, id: string, ch: UpdatedSpell)
    requires Consistent(rows)
    requires ch.name.Some? && FirstIndex(rows, Selected(u, NameLike(ch.name.value))).Some? ==>
      rows[FirstIndex(rows, Selected(u, NameLike(ch.name.value))).value].nanoid == id
    ensures Consistent(UpdateWhere(rows, u, NanoidIs(id), SetFields(ch)))
  {
    if ch.name.Some? {
      var first := FirstIndex(rows, Selected(u, NameLike(ch.name.value)));
      if first.Some? {
        OthersUnselected(rows, u, NameLike(ch.name.value), first.value);
      }
    }
    RenameKeepsConsistent(rows, u, id, ch);
  }

  /** Publishing a row makes it show up in every public search whose
      keyword its name contains. */
  lemma PublishMakesVisible(rows: seq<Spell>, u: int, key: SpellKey, i: nat, keyword: string)
    requires i < |rows| && Selects(rows[i], u, key) && ContainsIgnoreCase(rows[i].name, keyword)
    ensures rows[i].(published := true) in Filter(UpdateWhere(rows, u, key, SetPublished(true)), PublishedNameContains(keyword))
  {
    var r := UpdateWhere(rows, u, key, SetPublished(true));
    assert r[i] == rows[i].(published := true);
  }

  /** After unpublishing, no row the key selects shows up in any public search. */
  lemma UnpublishHides(rows: seq<Spell>, u: int, key: SpellKey, keyword: string)
    ensures forall s :: (s in Filter(UpdateWhere(rows, u, key, SetPublished(false)), PublishedNameContains(keyword))
                         ==> !Selects(s, u, key))
  {
    var r := UpdateWhere(rows, u, key, SetPublished(false));
    forall s | s in Filter(r, PublishedNameContains(keyword)) ensures !Selects(s, u, key) {
      var k :| 0 <= k < |r| && r[k] == s;
    }
  }

  /** The empty keyword lists every published row. */
  lemma EmptyKeywordListsAllPublished(rows: seq<Spell>)
    ensures forall s :: s in Filter(rows, PublishedNameContains("")) <==> s in rows && s.published
  {
    forall s: Spell { EmptyKeywordMatches(s.name); }
  }

  /** The pairs a spell forms with its owner in an inner join, in user table order. */
  function OwnerPairs(s: Spell, users: seq<User>): (r: seq<(Spell, User)>)
    ensures forall p :: p in r <==> p.0 == s && p.1 in users && p.1.id == s.userId
  {
    if users == [] then []
    else (if users[0].id == s.userId then [(s, users[0])] else []) + OwnerPairs(s, users[1..])
  }

  /** `spells INNER JOIN users ON spells.user_id = users.id`, in spell table order. */
  function Join(rows: seq<Spell>, users: seq<User>): (r: seq<(Spell, User)>)
    ensures forall p :: p in r <==> p.0 in rows && p.1 in users && p.1.id == p.0.userId
  {
    if rows == [] then [] else OwnerPairs(rows[0], users) + Join(rows[1..], users)
  }

  /** The spells table. `nextId` is the next value of the `id` sequence. */
  class SpellTable {
    var rows: seq<Spell>
    var nextId: int

    ghost predicate Valid()
      reads this
    {
      (forall i :: 0 <= i < |rows| ==> rows[i].id < nextId) && DistinctIds(rows)
    }

    constructor ()
      ensures Valid() && rows == [] && nextId == 1
    {
      rows := [];
      nextId := 1;
    }

    /** `get_spells`: the caller's rows, all of them and only them, in table order. */
    function GetSpells(u: int): (r: seq<Spell>)
      reads this
      ensures forall s :: s in r <==> s in rows && s.userId == u
    {
      Filter(rows, OwnedBy(u))
    }

    /** `get_spell` / `get_spell_by_name` (key `NameLike`) and
        `get_spell_by_nanoid` (key `NanoidIs`): the first of the caller's
        rows the key selects, or `NotFound` when there is none. */
    function GetSpell(u: int, key: SpellKey): (r: Result<Spell, DbError>)
      reads this
      ensures r.Ok? <==> exists s :: s in rows && Selects(s, u, key)
      ensures r.Ok? ==> exists i :: 0 <= i < |rows| && rows[i] == r.value && Selects(rows[i], u, key)
                          && forall j :: 0 <= j < i ==> !Selects(rows[j], u, key)
      ensures r.Err? ==> r.error == NotFound
    {
      match FirstIndex(rows, Selected(u, key))
      case Some(i) => Ok(rows[i])
      case None => Err(NotFound)
    }

    /** `is_published`: the `published` flag of the row `GetSpell` finds, or `NotFound`. */
    function IsPublished(u: int, key: SpellKey): (r: Result<bool, DbError>)
      reads this
      ensures GetSpell(u, key).Ok? ==> r == Ok(GetSpell(u, key).value.published)
      ensures GetSpell(u, key).Err? ==> r == Err(NotFound)
    {
      match FirstIndex(rows, Selected(u, key))
      case Some(i) => Ok(rows[i].published)
      case None => Err(NotFound)
    }

    /** `query_public_spells`: published rows whose name contains the keyword
        ignoring case, each paired with its owner. */
    function QueryPublicSpells(keyword: string, users: seq<User>): (r: seq<(Spell, User)>)
      reads this
      ensures forall p :: p in r <==>
        && p.0 in rows && p.0.published && ContainsIgnoreCase(p.0.name, keyword)
        && p.1 in users && p.1.id == p.0.userId
    {
      Join(Filter(rows, PublishedNameContains(keyword)), users)
    }

    /** `insert_spell`: appends one row carrying the insert values and a fresh
        `id`, and returns it. */
    method InsertSpell(n: NewSpell) returns (r: Result<Spell, DbError>)
      requires Valid()
      modifies this
      ensures Valid()
      ensures r == Ok(Inserted(n, old(nextId)))
      ensures rows == old(rows) + [r.value] && nextId == old(nextId) + 1
    {
      var s := Inserted(n, nextId);
      rows := rows + [s];
      nextId := nextId + 1;
      r := Ok(s);
    }

    /** `update_spell` (key `NameIs` in the repository, `NanoidIs` from the
        handler): a changeset with no present field is refused before any
        row is looked at (Diesel's "no changes to save" query builder error)
        and nothing changes. Otherwise every selected row gets the present
        fields of the changeset, nothing else changes, and the result is the
        updated version of the first selected row, or `NotFound`. */
    method UpdateSpell(u: int, key: SpellKey, changes: UpdatedSpell) returns (r: Result<Spell, DbError>)
      requires Valid()
      modifies this
      ensures Valid() && nextId == old(nextId)
      ensures NoChanges(changes) ==> r == Err(OtherDbError) && unchanged(this)
      ensures !NoChanges(changes) ==> rows == UpdateWhere(old(rows), u, key, SetFields(changes))
      ensures |rows| == |old(rows)|
      ensures !NoChanges(changes) ==> forall i :: 0 <= i < |rows| ==>
        rows[i] == if Selects(old(rows)[i], u, key) then Apply(old(rows)[i], changes) else old(rows)[i]
      ensures !NoChanges(changes) && old(GetSpell(u, key)).Err? ==> r == Err(NotFound) && rows == old(rows)
      ensures !NoChanges(changes) && old(GetSpell(u, key)).Ok? ==> r == Ok(Apply(old(GetSpell(u, key)).value, changes))
    {
      if NoChanges(changes) {
        return Err(OtherDbError);
      }
      r := Change(u, key, SetFields(changes));
    }

    /** `publish_spell`: sets `published` on every selected row and touches
        no other column and no other row; the result is the first selected
        row after the change, or `NotFound`. */
    method PublishSpell(u: int, key: SpellKey, publish: bool) returns (r: Result<Spell, DbError>)
      requires Valid()
      modifies this
      ensures Valid() && nextId == old(nextId)
      ensures rows == UpdateWhere(old(rows), u, key, SetPublished(publish))
      ensures |rows| == |old(rows)|
      ensures forall i :: 0 <= i < |rows| ==>
        rows[i] == if Selects(old(rows)[i], u, key) then old(rows)[i].(published := publish) else old(rows)[i]
      ensures old(GetSpell(u, key)).Err? ==> r == Err(NotFound) && rows == old(rows)
      ensures old(GetSpell(u, key)).Ok? ==> r == Ok(old(GetSpell(u, key)).value.(published := publish))
    {
      r := Change(u, key, SetPublished(publish));
    }

    /** The shared `UPDATE ... RETURNING` of the two methods above. */
    method Change(u: int, key: SpellKey, c: Change) returns (r: Result<Spell, DbError>)
      requires Valid()
      modifies this
      ensures Valid() && nextId == old(nextId)
      ensures rows == UpdateWhere(old(rows), u, key, c)
      ensures old(GetSpell(u, key)).Err? ==> r == Err(NotFound) && rows == old(rows)
      ensures old(GetSpell(u, key)).Ok? ==> r == Ok(ApplyChange(old(GetSpell(u, key)).value, c))
    {
      var first := FirstIndex(rows, Selected(u, key));
      var before := rows;
      UpdateKeepsIds(rows, u, key, c, nextId);
      rows := UpdateWhere(rows, u, key, c);
      match first
      case None =>
        UpdateNothingSelected(before, u, key, c);
        r := Err(NotFound);
      case Some(i) =>
        r := Ok(rows[i]);
    }

    /** `delete_spell` (key `NameIs` in the repository, `NanoidIs` from the
        handler): removes exactly the selected rows, keeps the others in
        order, and returns how many it removed. */
    method DeleteSpell(u: int, key: SpellKey) returns (r: Result<nat, DbError>)
      requires Valid()
      modifies this
      ensures Valid() && nextId == old(nextId)
      ensures rows == Filter(old(rows), Unselected(u, key))
      ensures r == Ok(|Filter(old(rows), Selected(u, key))|)
      ensures r.value == |old(rows)| - |rows|
      ensures r.value == 0 <==> old(GetSpell(u, key)).Err?
    {
      var removed := Filter(rows, Selected(u, key));
      FilterSplits(rows, u, key);
      FilterKeepsPairwise(rows, Unselected(u, key), IdsDiffer);
      ghost var before := rows;
      rows := Filter(rows, Unselected(u, key));
      forall i | 0 <= i < |rows| ensures rows[i].id < nextId {
        assert rows[i] in before;
      }
      r := Ok(|removed|);
      if |removed| > 0 {
        assert removed[0] in before;
      }
    }
  }
}
