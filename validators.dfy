/** Field validation of spell requests (src/validators/spells.rs). */
module Validators {
  import opened Wrappers
  import opened Errors
  import Enums
  import opened Requests

  /** The anchored regular expression `^Level [1-9]$|^Cantrip$`, read
      alternative by alternative. */
  predicate IsLevel(s: string)
  {
    (|s| == 7 && s[..6] == "Level " && '1' <= s[6] <= '9') || s == "Cantrip"
  }

  /** The ten strings the level rule admits. */
  const Levels: set<string> :=
    {"Cantrip", "Level 1", "Level 2", "Level 3", "Level 4",
     "Level 5", "Level 6", "Level 7", "Level 8", "Level 9"}

  /** The regular expression admits exactly the ten listed levels. */
  lemma IsLevelIffListed(s: string)
    ensures IsLevel(s) <==> s in Levels
  {
    if |s| == 7 && s[..6] == "Level " && '1' <= s[6] <= '9' {
      assert s == "Level " + [s[6]];
      var d := s[6];
      if d == '1' { assert s == "Level 1"; }
      else if d == '2' { assert s == "Level 2"; }
      else if d == '3' { assert s == "Level 3"; }
      else if d == '4' { assert s == "Level 4"; }
      else if d == '5' { assert s == "Level 5"; }
      else if d == '6' { assert s == "Level 6"; }
      else if d == '7' { assert s == "Level 7"; }
      else if d == '8' { assert s == "Level 8"; }
      else { assert s == "Level 9"; }
    }
    if s in Levels && s != "Cantrip" {
      assert |s| == 7 && s[..6] == "Level " && '1' <= s[6] <= '9';
    }
  }

  /** The match is anchored and exact. */
  lemma IsLevelRejects()
    ensures !IsLevel("Level 0") && !IsLevel("Level 10") && !IsLevel("cantrip")
    ensures !IsLevel("Level  3") && !IsLevel(" Cantrip") && !IsLevel("Cantrip ") && !IsLevel("level 3")
  {
    assert "level 3"[..6][0] != "Level "[0];
  }

  /** The school rule: the value names a `MagicSchool` variant. */
  predicate IsSchool(s: string)
  {
    Enums.FromStr(s).Some?
  }

  /** `validate` for a create request: the level is checked first, then the
      school; each error carries the offending value verbatim. */
  function ValidateCreate(r: CreateSpellRequest): (res: Outcome<SpellValidationError>)
    ensures res.Pass? <==> IsLevel(r.level) && r.magicSchool in Enums.Variants
    ensures !IsLevel(r.level) ==> res == Fail(InvalidSpellLevel(r.level))
    ensures IsLevel(r.level) && r.magicSchool !in Enums.Variants ==>
      res == Fail(InvalidMagicSchool(r.magicSchool))
  {
    if !IsLevel(r.level) then Fail(InvalidSpellLevel(r.level))
    else if !IsSchool(r.magicSchool) then Fail(InvalidMagicSchool(r.magicSchool))
    else Pass
  }

  /** `validate` for a partial update: only present fields are checked,
      level before school. */
  function ValidateUpdate(r: UpdatedSpellData): (res: Outcome<SpellValidationError>)
    ensures res.Pass? <==>
      (r.level.Some? ==> IsLevel(r.level.value)) && (r.magicSchool.Some? ==> r.magicSchool.value in Enums.Variants)
    ensures r.level.Some? && !IsLevel(r.level.value) ==> res == Fail(InvalidSpellLevel(r.level.value))
    ensures (r.level.Some? ==> IsLevel(r.level.value)) && r.magicSchool.Some? && r.magicSchool.value !in Enums.Variants ==>
      res == Fail(InvalidMagicSchool(r.magicSchool.value))
  {
    if r.level.Some? && !IsLevel(r.level.value) then Fail(InvalidSpellLevel(r.level.value))
    else if r.magicSchool.Some? && !IsSchool(r.magicSchool.value) then Fail(InvalidMagicSchool(r.magicSchool.value))
    else Pass
  }

  /** Only the level and the school decide a create request's validity. */
  lemma CreateDependsOnLevelAndSchool(a: CreateSpellRequest, b: CreateSpellRequest)
    requires a.level == b.level && a.magicSchool == b.magicSchool
    ensures ValidateCreate(a) == ValidateCreate(b)
  {
  }

  /** Only the level and the school decide a patch's validity. */
  lemma UpdateDependsOnLevelAndSchool(a: UpdatedSpellData, b: UpdatedSpellData)
    requires a.level == b.level && a.magicSchool == b.magicSchool
    ensures ValidateUpdate(a) == ValidateUpdate(b)
  {
  }

  /** A patch without level and school passes, the all-absent patch in particular. */
  lemma UpdateWithoutCheckedFieldsPasses(r: UpdatedSpellData)
    requires r.level.None? && r.magicSchool.None?
    ensures ValidateUpdate(r) == Pass
    ensures ValidateUpdate(EmptyUpdate) == Pass
  {
  }

  /** A patch carrying both a level and a school is held to the create rule,
      with the same error. */
  lemma UpdateAgreesWithCreate(u: UpdatedSpellData, c: CreateSpellRequest)
    requires u.level == Some(c.level) && u.magicSchool == Some(c.magicSchool)
    ensures ValidateUpdate(u) == ValidateCreate(c)
  {
  }
}
