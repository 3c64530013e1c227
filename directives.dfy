/** The `autowire` directive grammar: `""`, `"required"`, `"optional"`, `"?"`,
    `<name>` and `<name>,optional`, with the precedence the injector applies. */
module Directives {

  const OptionalSuffix: string := ",optional"

  /** The `,optional` suffix counts only on a tag longer than the suffix itself. */
  predicate HasOptionalSuffix(q: string) {
    |q| > |OptionalSuffix| && q[|q| - |OptionalSuffix|..] == OptionalSuffix
  }

  /** How a qualifier is resolved. */
  datatype Lookup =
    | OptionalByType                        // "optional" or "?": by field type, a miss is no error
    | ByType                                // "" or "required" (with or without the suffix): by field type
    | ByName(name: string, optional: bool)  // any other text: by component name

  /** The qualifier as the resolver reads it: the optional markers first, then
      the suffix is stripped, then `"required"` and `""` select the by-type
      lookup and anything else names a component. */
  function ParseQualifier(q: string): (r: Lookup) {
    if q == "optional" || q == "?" then OptionalByType
    else
      var name := if HasOptionalSuffix(q) then q[..|q| - |OptionalSuffix|] else q;
      if name == "required" || name == "" then ByType
      else ByName(name, HasOptionalSuffix(q))
  }

  /** The test the injector applies to the raw tag to decide whether a failed
      resolution is swallowed. */
  predicate TagIsOptional(tag: string) {
    tag == "optional" || tag == "?" || HasOptionalSuffix(tag)
  }

  /** The tag text that asks for a lookup. */
  function QualifierText(d: Lookup): (r: string) {
    match d
    case OptionalByType => "optional"
    case ByType => ""
    case ByName(n, opt) => if opt then n + OptionalSuffix else n
  }

  /** Lookups some tag text can ask for. */
  predicate Expressible(d: Lookup) {
    d.ByName? ==>
      && d.name != "" && d.name != "required"
      && (!d.optional ==> d.name != "optional" && d.name != "?" && !HasOptionalSuffix(d.name))
  }

  lemma SuffixOf(n: string)
    ensures HasOptionalSuffix(n + OptionalSuffix) <==> n != ""
    ensures (n + OptionalSuffix)[..|n + OptionalSuffix| - |OptionalSuffix|] == n
  {
    assert (n + OptionalSuffix)[|n + OptionalSuffix| - |OptionalSuffix|..] == OptionalSuffix;
  }

  /** Writing a lookup as tag text and parsing it back gives the lookup. */
  lemma ParseQualifierText(d: Lookup)
    requires Expressible(d)
    ensures ParseQualifier(QualifierText(d)) == d
  {
    if d.ByName? && d.optional {
      SuffixOf(d.name);
      assert |d.name + OptionalSuffix| > 9;
    }
  }

  /** Every tag parses to an expressible lookup that writes back to the tag,
      except that the by-type forms all write back as `""`; a by-name lookup
      is optional exactly when the injector treats the tag as optional. */
  lemma ParseQualifierCases(q: string)
    ensures Expressible(ParseQualifier(q))
    ensures ParseQualifier(q).OptionalByType? <==> q == "optional" || q == "?"
    ensures ParseQualifier(q).ByType? <==> q == "" || q == "required" || q == "required" + OptionalSuffix
    ensures ParseQualifier(q).ByName? ==>
      QualifierText(ParseQualifier(q)) == q && ParseQualifier(q).optional == TagIsOptional(q)
    ensures ParseQualifier(q).OptionalByType? ==> TagIsOptional(q)
  {
    var k := |OptionalSuffix|;
    if HasOptionalSuffix(q) {
      assert q == q[..|q| - k] + OptionalSuffix;
      if q[..|q| - k] == "required" {
        assert q == "required" + OptionalSuffix;
      }
    }
    if q == "required" + OptionalSuffix {
      SuffixOf("required");
    }
  }

  /** A tag no longer than the suffix is never read as `<name>,optional`:
      `",optional"` itself names a component called `,optional`, required. */
  lemma ShortSuffixIsAName()
    ensures ParseQualifier(OptionalSuffix) == ByName(OptionalSuffix, false)
    ensures !TagIsOptional(OptionalSuffix)
  {
  }
}
