/** Plural selection: `pick_variant_name` and the key `translate_plural`
    falls back through. */
module Plural {
  import opened Wrappers
  import opened Ascii
  import opened Catalog
  import opened Ordering

  /** `pick_variant_name`. A negative count is always `other`; the default
      rule knows zero, one and other; the Slavic rule looks at the last one
      and two digits; the Arabic rule at the count and its last two digits. */
  function PickVariantName(rule: PluralRule, count: int): (name: string)
    ensures IsVariantValid(name)
    ensures name in {"zero", "one", "two", "few", "many", "other"}
    ensures count < 0 ==> name == "other"
    ensures rule == Default ==> name in {"zero", "one", "other"}
    ensures rule == Slavic && count >= 0 ==> name != "other"
    ensures rule != Arabic ==> name != "two"
  {
    if count < 0 then "other"
    else
      match rule
      case Default =>
        if count == 0 then "zero" else if count == 1 then "one" else "other"
      case Slavic =>
        var mod10 := count % 10;
        var mod100 := count % 100;
        if mod10 == 1 && mod100 != 11 then "one"
        else if 2 <= mod10 <= 4 && !(12 <= mod100 <= 14) then "few"
        else if mod10 == 0 || 5 <= mod10 <= 9 || 11 <= mod100 <= 14 then "many"
        else "other"
      case Arabic =>
        var mod100 := count % 100;
        if count == 0 then "zero"
        else if count == 1 then "one"
        else if count == 2 then "two"
        else if 3 <= mod100 <= 10 then "few"
        else if 11 <= mod100 <= 99 then "many"
        else "other"
  }

  /** The Slavic rule only looks at the last two digits: counts a hundred
      apart get the same name. */
  lemma SlavicPeriodic(count: nat)
    ensures PickVariantName(Slavic, count + 100) == PickVariantName(Slavic, count)
  {
    assert (count + 100) % 10 == count % 10;
    assert (count + 100) % 100 == count % 100;
  }

  /** Past the three small counts, the Arabic rule only looks at the last
      two digits. */
  lemma ArabicPeriodic(count: nat)
    requires count >= 3
    ensures PickVariantName(Arabic, count + 100) == PickVariantName(Arabic, count)
  {
    assert (count + 100) % 100 == count % 100;
  }

  /** Under the default rule every count past one is `other`. */
  lemma DefaultLargeIsOther(count: int)
    requires count >= 2
    ensures PickVariantName(Default, count) == "other"
  {
  }

  /** The key `translate_plural` looks up for a lowercased token. An
      explicit variant is used as written (a variant that parses is never
      empty); otherwise it tries `base{picked}`, `base{other}`, the least
      declared variant of the base, and finally the base itself. */
  function PluralLookup(snap: Snapshot, rule: PluralRule, tokenIn: string, count: int): (lookup: string)
    ensures ParseVariantSuffix(ToLower(tokenIn)).None? ==> StartsWith(lookup, ToLower(tokenIn))
  {
    var normalized := ToLower(tokenIn);
    match ParseVariantSuffix(normalized)
    case Some((b, v)) => b + "{" + v + "}"
    case None =>
      var desired := normalized + "{" + PickVariantName(rule, count) + "}";
      var other := normalized + "{other}";
      if desired in snap.catalog then desired
      else if other in snap.catalog then other
      else if normalized in snap.pluralVariants && snap.pluralVariants[normalized] != {} then
        LexLessIsStrictTotalOrder();
        normalized + "{" + Least(snap.pluralVariants[normalized], LexLess) + "}"
      else normalized
  }

  /** An explicit variant in the token is looked up as it is, lowercased. */
  lemma PluralLookupExplicit(snap: Snapshot, rule: PluralRule, tokenIn: string, count: int)
    requires ParseVariantSuffix(ToLower(tokenIn)).Some?
    ensures PluralLookup(snap, rule, tokenIn, count) == ToLower(tokenIn)
  {
    var normalized := ToLower(tokenIn);
    ParseVariantSuffixJoins(normalized);
    ToLowerIsLower(tokenIn);
    ToLowerIdentity(normalized);
  }

  /** The order of the fallback chain: the picked variant wins when the
      catalog has it, `other` comes next, and the bare base is used only
      when the base has no declared variant. */
  lemma PluralLookupOrder(snap: Snapshot, rule: PluralRule, tokenIn: string, count: int)
    requires ParseVariantSuffix(ToLower(tokenIn)).None?
    ensures ToLower(tokenIn) + "{" + PickVariantName(rule, count) + "}" in snap.catalog ==>
      PluralLookup(snap, rule, tokenIn, count) == ToLower(tokenIn) + "{" + PickVariantName(rule, count) + "}"
    ensures PluralLookup(snap, rule, tokenIn, count) == ToLower(tokenIn) + "{other}" ==>
      ToLower(tokenIn) + "{" + PickVariantName(rule, count) + "}" !in snap.catalog || PickVariantName(rule, count) == "other"
    ensures (ToLower(tokenIn) + "{" + PickVariantName(rule, count) + "}" !in snap.catalog &&
             ToLower(tokenIn) + "{other}" in snap.catalog) ==>
      PluralLookup(snap, rule, tokenIn, count) == ToLower(tokenIn) + "{other}"
    ensures PluralLookup(snap, rule, tokenIn, count) == ToLower(tokenIn) ==>
      ToLower(tokenIn) !in snap.pluralVariants || snap.pluralVariants[ToLower(tokenIn)] == {}
  {
  }

  /** With no picked or `other` text, the least declared variant is used:
      what `std::set::begin()` gives. */
  lemma PluralLookupLeast(snap: Snapshot, rule: PluralRule, tokenIn: string, count: int)
    requires ParseVariantSuffix(ToLower(tokenIn)).None?
    requires ToLower(tokenIn) + "{" + PickVariantName(rule, count) + "}" !in snap.catalog
    requires ToLower(tokenIn) + "{other}" !in snap.catalog
    requires ToLower(tokenIn) in snap.pluralVariants && snap.pluralVariants[ToLower(tokenIn)] != {}
    ensures exists v :: (PluralLookup(snap, rule, tokenIn, count) == ToLower(tokenIn) + "{" + v + "}"
      && IsLeast(v, snap.pluralVariants[ToLower(tokenIn)], LexLess))
  {
    LexLessIsStrictTotalOrder();
    var v := Least(snap.pluralVariants[ToLower(tokenIn)], LexLess);
    assert IsLeast(v, snap.pluralVariants[ToLower(tokenIn)], LexLess);
  }

  /** In a well-formed snapshot, a base with any variant text in the
      catalog never falls through to the bare base: the key looked up is a
      catalog key. */
  lemma PluralLookupFindsVariant(snap: Snapshot, rule: PluralRule, tokenIn: string, count: int, v: string)
    requires WellFormed(snap)
    requires ParseVariantSuffix(ToLower(tokenIn)).None?
    requires ToLower(tokenIn) != "" && NoChar(ToLower(tokenIn), '{') && IsVariantValid(v)
    requires ToLower(tokenIn) + "{" + v + "}" in snap.catalog
    ensures PluralLookup(snap, rule, tokenIn, count) in snap.catalog
  {
    var base := ToLower(tokenIn);
    VariantDeclared(snap, base, v);
    var r := PluralLookup(snap, rule, tokenIn, count);
    if r != base + "{" + PickVariantName(rule, count) + "}" && r != base + "{other}" {
      PluralLookupLeast(snap, rule, tokenIn, count);
      var w :| r == base + "{" + w + "}" && IsLeast(w, snap.pluralVariants[base], LexLess);
      DeclaredVariantIsKey(snap, base, w);
    }
  }

  /** A variant key in the catalog is declared for its base. */
  lemma VariantDeclared(snap: Snapshot, base: string, v: string)
    requires WellFormed(snap)
    requires base != "" && NoChar(base, '{') && IsLowerString(base) && IsVariantValid(v)
    requires base + "{" + v + "}" in snap.catalog
    ensures base in snap.pluralVariants && v in snap.pluralVariants[base]
  {
    ValidVariantShape(v);
    NoCharOfVariant(v);
    ParseVariantSuffixOfJoin(base, v);
    ToLowerIdentity(base);
    ToLowerIdentity(v);
    VariantsOfMembership(snap.catalog.Keys, base, v);
  }

  lemma NoCharOfVariant(v: string)
    requires IsVariantValid(v)
    ensures NoChar(v, '}') && IsVariantValid(ToLower(v))
  {
    ValidVariantShape(v);
    ToLowerIdentity(v);
  }

  /** A declared variant is stored as its `base{variant}` key. */
  lemma DeclaredVariantIsKey(snap: Snapshot, base: string, v: string)
    requires WellFormed(snap)
    requires base in snap.pluralVariants && v in snap.pluralVariants[base]
    ensures base + "{" + v + "}" in snap.catalog
  {
    VariantsOfMembership(snap.catalog.Keys, base, v);
    var k :| k in snap.catalog.Keys && ParseVariantSuffix(k) == Some((base, v));
    assert KeyOf(base, v) == k;
  }
}
