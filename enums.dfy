/** The closed set of schools of magic (src/enums.rs). */
module Enums {
  import opened Wrappers

  datatype MagicSchool =
    | Abjuration
    | Conjuration
    | Divination
    | Enchantment
    | Evocation
    | Illusion
    | Necromancy
    | Transmutation

  /** Every school, in declaration order. */
  const AllSchools: seq<MagicSchool> :=
    [Abjuration, Conjuration, Divination, Enchantment, Evocation, Illusion, Necromancy, Transmutation]

  /** `MagicSchool::VARIANTS`: the variant names in declaration order. */
  const Variants: seq<string> :=
    ["Abjuration", "Conjuration", "Divination", "Enchantment",
     "Evocation", "Illusion", "Necromancy", "Transmutation"]

  /** The variant name, as the derived string conversion spells it. */
  function Name(m: MagicSchool): string
  {
    match m
    case Abjuration => "Abjuration"
    case Conjuration => "Conjuration"
    case Divination => "Divination"
    case Enchantment => "Enchantment"
    case Evocation => "Evocation"
    case Illusion => "Illusion"
    case Necromancy => "Necromancy"
    case Transmutation => "Transmutation"
  }

  /** `MagicSchool::from_str`: exact, case-sensitive match against a variant name. */
  function FromStr(s: string): (r: Option<MagicSchool>)
    ensures r.Some? ==> Name(r.value) == s
    ensures r.Some? <==> s in Variants
  {
    if s == "Abjuration" then Some(Abjuration)
    else if s == "Conjuration" then Some(Conjuration)
    else if s == "Divination" then Some(Divination)
    else if s == "Enchantment" then Some(Enchantment)
    else if s == "Evocation" then Some(Evocation)
    else if s == "Illusion" then Some(Illusion)
    else if s == "Necromancy" then Some(Necromancy)
    else if s == "Transmutation" then Some(Transmutation)
    else None
  }

  /** `VARIANTS` lists the names of the variants, position by position in
      declaration order, and every variant occurs in it. */
  lemma VariantsInDeclarationOrder()
    ensures |Variants| == |AllSchools| == 8
    ensures forall i :: 0 <= i < 8 ==> Variants[i] == Name(AllSchools[i])
    ensures forall m: MagicSchool :: m in AllSchools
  {
    forall m: MagicSchool
      ensures m in AllSchools
    {
      match m
      case Abjuration => assert AllSchools[0] == m;
      case Conjuration => assert AllSchools[1] == m;
      case Divination => assert AllSchools[2] == m;
      case Enchantment => assert AllSchools[3] == m;
      case Evocation => assert AllSchools[4] == m;
      case Illusion => assert AllSchools[5] == m;
      case Necromancy => assert AllSchools[6] == m;
      case Transmutation => assert AllSchools[7] == m;
    }
  }

  /** Parsing a variant's name gives that variant back. */
  lemma FromStrName(m: MagicSchool)
    ensures FromStr(Name(m)) == Some(m)
  {
  }

  /** Parsing neither folds case, nor trims, nor accepts prefixes. */
  lemma FromStrIsExact()
    ensures FromStr("evocation").None?
    ensures FromStr(" Evocation").None?
    ensures FromStr("Evocation ").None?
    ensures FromStr("Evoc").None?
    ensures FromStr("EVOCATION").None?
    ensures FromStr("").None?
  {
  }
}
