/** Display texts of the validation and authentication errors (src/errors.rs). */
module Errors {
  import Enums

  datatype SpellValidationError =
    | InvalidSpellLevel(value: string)
    | InvalidMagicSchool(value: string)

  datatype AuthError = AuthError

  const LevelPrefix: string := "Invalid spell level \""
  const LevelSuffix: string := "\" expected \"Cantrip\" or \"Level [1-9]\""
  const SchoolPrefix: string := "Invalid school of magic \""

  /** Rust's `{:?}` of a string without characters that need escaping. */
  function DebugStr(s: string): string
  {
    "\"" + s + "\""
  }

  function DebugItems(items: seq<string>): string
    decreases |items|
  {
    if |items| == 0 then ""
    else if |items| == 1 then DebugStr(items[0])
    else DebugStr(items[0]) + ", " + DebugItems(items[1..])
  }

  /** Rust's `{:?}` of a slice of strings: `["a", "b"]`. */
  function DebugList(items: seq<string>): string
  {
    "[" + DebugItems(items) + "]"
  }

  function SchoolSuffix(): string
  {
    "\" expected one of: " + DebugList(Enums.Variants)
  }

  /** The `Display` text of a validation error: a fixed text around the
      offending value, which is embedded verbatim. */
  function Message(e: SpellValidationError): (r: string)
    ensures e.InvalidSpellLevel? ==> |r| == |LevelPrefix| + |e.value| + |LevelSuffix|
    ensures e.InvalidMagicSchool? ==> |r| == |SchoolPrefix| + |e.value| + |SchoolSuffix()|
    ensures e.InvalidSpellLevel? ==>
      r[..|LevelPrefix|] == LevelPrefix && r[|LevelPrefix|..|LevelPrefix| + |e.value|] == e.value
    ensures e.InvalidMagicSchool? ==>
      r[..|SchoolPrefix|] == SchoolPrefix && r[|SchoolPrefix|..|SchoolPrefix| + |e.value|] == e.value
    ensures e.InvalidSpellLevel? ==> r[|LevelPrefix| + |e.value|..] == LevelSuffix
    ensures e.InvalidMagicSchool? ==> r[|SchoolPrefix| + |e.value|..] == SchoolSuffix()
  {
    match e
    case InvalidSpellLevel(v) => LevelPrefix + v + LevelSuffix
    case InvalidMagicSchool(v) => SchoolPrefix + v + SchoolSuffix()
  }

  /** The `Display` text of `AuthError`. */
  function AuthMessage(e: AuthError): string
  {
    "Authentication failed"
  }

  /** The school list in the message is Rust's debug rendering of `VARIANTS`:
      each name quoted, in declaration order, separated by a comma and a space. */
  lemma SchoolListText()
    ensures DebugList(Enums.Variants) ==
      "[" + (DebugStr("Abjuration") + (", " + (DebugStr("Conjuration") + (", " +
      (DebugStr("Divination") + (", " + (DebugStr("Enchantment") + (", " +
      (DebugStr("Evocation") + (", " + (DebugStr("Illusion") + (", " +
      (DebugStr("Necromancy") + (", " + DebugStr("Transmutation"))))))))))))))) + "]"
  {
    var v := Enums.Variants;
    DebugItemsOfEight(v[0], v[1], v[2], v[3], v[4], v[5], v[6], v[7]);
    assert v == [v[0], v[1], v[2], v[3], v[4], v[5], v[6], v[7]];
  }

  lemma DebugItemsCons(x: string, rest: seq<string>)
    requires |rest| >= 1
    ensures DebugItems([x] + rest) == DebugStr(x) + (", " + DebugItems(rest))
  {
    assert ([x] + rest)[1..] == rest;
  }

  lemma DebugItemsOfEight(a: string, b: string, c: string, d: string, e: string, f: string, g: string, h: string)
    ensures DebugItems([a, b, c, d, e, f, g, h]) ==
      DebugStr(a) + (", " + (DebugStr(b) + (", " + (DebugStr(c) + (", " + (DebugStr(d) + (", " +
      (DebugStr(e) + (", " + (DebugStr(f) + (", " + (DebugStr(g) + (", " + DebugStr(h))))))))))))))
  {
    DebugItemsCons(g, [h]);
    DebugItemsCons(f, [g, h]);
    DebugItemsCons(e, [f, g, h]);
    DebugItemsCons(d, [e, f, g, h]);
    DebugItemsCons(c, [d, e, f, g, h]);
    DebugItemsCons(b, [c, d, e, f, g, h]);
    DebugItemsCons(a, [b, c, d, e, f, g, h]);
  }

  /** Messages of the two kinds never coincide. */
  lemma KindsRenderApart(l: string, sc: string)
    ensures Message(InvalidSpellLevel(l)) != Message(InvalidMagicSchool(sc))
  {
    PrefixesDiffer(l, sc, LevelSuffix, SchoolSuffix());
  }

  /** Whatever follows them, the two prefixes differ at position 9. */
  lemma PrefixesDiffer(l: string, sc: string, s1: string, s2: string)
    ensures LevelPrefix + l + s1 != SchoolPrefix + sc + s2
  {
    var m1, m2 := LevelPrefix + l + s1, SchoolPrefix + sc + s2;
    assert m1[9] == LevelPrefix[9] == 'p';
    assert m2[9] == SchoolPrefix[9] == 'c';
  }

  /** Nothing is lost in rendering: two validation errors render alike only
      when they are the same error. */
  lemma MessageDeterminesError(e1: SpellValidationError, e2: SpellValidationError)
    ensures Message(e1) == Message(e2) <==> e1 == e2
  {
    var m1, m2 := Message(e1), Message(e2);
    if m1 == m2 {
      if e1.InvalidSpellLevel? && e2.InvalidMagicSchool? {
        KindsRenderApart(e1.value, e2.value);
      } else if e2.InvalidSpellLevel? && e1.InvalidMagicSchool? {
        KindsRenderApart(e2.value, e1.value);
      } else {
        var p := if e1.InvalidSpellLevel? then LevelPrefix else SchoolPrefix;
        assert |e1.value| == |e2.value|;
        assert e1.value == m1[|p|..|p| + |e1.value|];
        assert e2.value == m2[|p|..|p| + |e2.value|];
      }
    }
  }

  /** No validation message reads like the authentication failure. */
  lemma ValidationIsNotAuthMessage(e: SpellValidationError, a: AuthError)
    ensures Message(e) != AuthMessage(a)
  {
    var p := if e.InvalidSpellLevel? then LevelPrefix else SchoolPrefix;
    assert Message(e)[..|p|] == p;
    assert Message(e)[0] == p[0] == 'I';
    assert AuthMessage(a)[0] == 'A';
  }
}
