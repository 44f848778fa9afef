/** The engine's data model: plural rules, catalog snapshots, style
    properties, the physics record, and the token-shape rules every loader
    shares (variant suffixes, style tokens, style property lists). */
module Catalog {
  import opened Wrappers
  import opened Ascii
  import opened Bytes

  /** `PluralRule`; `PublicPluralRule` uses the same three byte codes. */
  datatype PluralRule = Default | Slavic | Arabic

  function PluralCode(rule: PluralRule): (code: byte)
    ensures code <= 2
  {
    match rule
    case Default => 0
    case Slavic => 1
    case Arabic => 2
  }

  /** How the binary decoder reads the rule byte: unknown codes fall back to
      DEFAULT. */
  function PluralFromCode(code: byte): (rule: PluralRule)
    ensures code <= 2 ==> PluralCode(rule) == code
    ensures code > 2 ==> rule == Default
  {
    if code == 1 then Slavic else if code == 2 then Arabic else Default
  }

  lemma PluralCodeRoundTrip(rule: PluralRule)
    ensures PluralFromCode(PluralCode(rule)) == rule
  {
  }

  /** `parse_plural_rule_name`: case-insensitive; an unknown name yields
      DEFAULT together with `ok == false`. */
  function ParsePluralRuleName(v: string): (r: (PluralRule, bool))
    ensures !r.1 ==> r.0 == Default
    ensures r.1 <==> ToLower(v) in {"default", "slavic", "arabic"}
  {
    var name := ToLower(v);
    if name == "default" then (Default, true)
    else if name == "slavic" then (Slavic, true)
    else if name == "arabic" then (Arabic, true)
    else (Default, false)
  }

  /** `CatalogSnapshot`: each token maps to exactly one text; labels are a
      separate partial map; `pluralVariants` maps a base token to the set of
      variants declared for it (a `std::set`, so ordered). */
  datatype Snapshot = Snapshot(
    catalog: map<string, string>,
    labels: map<string, string>,
    pluralVariants: map<string, set<string>>,
    locale: string,
    fallback: string,
    note: string,
    plural: PluralRule)

  /** `StyleProperty`: an FNV-1a hash of the name, the lowercased name (empty
      for an unnamed `@` reference), and the raw value. */
  datatype StyleProperty = StyleProperty(hash: u32, name: string, value: string)

  /** `NativeStyle`: the physics record. The engine's floats are modelled as
      reals; the default record has gravity scale 1 and everything else 0. */
  datatype NativeStyle = NativeStyle(
    mass: real,
    friction: real,
    restitution: real,
    drag: real,
    gravityScale: real,
    spacing: real,
    hasPhysical: bool)

  const DefaultNativeStyle := NativeStyle(0.0, 0.0, 0.0, 0.0, 1.0, 0.0, false)

  // ---------------------------------------------------------------------
  // Variant suffixes

  predicate IsVariantChar(c: char) {
    IsLower(c) || IsDigit(c) || c == '_' || c == '-'
  }

  /** `is_variant_valid`: 1 to 16 characters of `[a-z0-9_-]`. */
  predicate IsVariantValid(v: string) {
    1 <= |v| <= 16 && forall i :: 0 <= i < |v| ==> IsVariantChar(v[i])
  }

  lemma ValidVariantShape(v: string)
    requires IsVariantValid(v)
    ensures IsLowerString(v)
    ensures forall i :: 0 <= i < |v| ==> v[i] != '{' && v[i] != '}' && v[i] as int < 0x100
  {
  }

  predicate NoChar(s: string, c: char) {
    forall i :: 0 <= i < |s| ==> s[i] != c
  }

  /** Lowercasing `base{variant}` lowercases the two parts. */
  lemma ToLowerBraced(token: string, open: nat)
    requires open + 1 < |token| && token[open] == '{' && token[|token| - 1] == '}'
    ensures ToLower(token) == ToLower(token[..open]) + "{" + ToLower(token[open + 1..|token| - 1]) + "}"
  {
    var rawVariant := token[open + 1..|token| - 1];
    assert token == token[..open] + "{" + rawVariant + "}";
    ToLowerAppend(token[..open], "{" + rawVariant + "}");
    ToLowerAppend("{", rawVariant + "}");
    ToLowerAppend(rawVariant, "}");
  }

  /** `parse_variant_suffix`: splits `base{variant}`. The first `{` opens the
      suffix, the first `}` after it must be the last character, the variant
      (lowercased) must be valid and the base non-empty; both parts come back
      lowercased. */
  function ParseVariantSuffix(token: string): (r: Option<(string, string)>)
    ensures r.Some? ==> r.value.0 != "" && IsVariantValid(r.value.1) && NoChar(r.value.0, '{')
  {
    match FindChar(token, '{', 0)
    case None => None
    case Some(open) =>
      match FindChar(token, '}', open + 1)
      case None => None
      case Some(close) =>
        if close != |token| - 1 then None
        else
          var rawVariant := token[open + 1..close];
          if rawVariant == "" then None
          else
            var base := ToLower(token[..open]);
            var variant := ToLower(rawVariant);
            if IsVariantValid(variant) && base != "" then
              Some((base, variant))
            else None
  }

  /** A split token is `base{variant}` written out: lowercasing it gives the
      two parts back between their braces. */
  lemma ParseVariantSuffixJoins(token: string)
    requires ParseVariantSuffix(token).Some?
    ensures |token| == |ParseVariantSuffix(token).value.0| + |ParseVariantSuffix(token).value.1| + 2
    ensures ToLower(token) == ParseVariantSuffix(token).value.0 + "{" + ParseVariantSuffix(token).value.1 + "}"
  {
    var open := FindChar(token, '{', 0).value;
    ToLowerBraced(token, open);
  }

  /** Both parts of a split token are lowercase. */
  lemma ParseVariantSuffixLower(token: string)
    requires ParseVariantSuffix(token).Some?
    ensures IsLowerString(ParseVariantSuffix(token).value.0)
    ensures IsLowerString(ParseVariantSuffix(token).value.1)
  {
    ValidVariantShape(ParseVariantSuffix(token).value.1);
  }

  /** Splitting is the inverse of writing `base{variant}`: any base without
      `{` and any variant without `}` that is valid once lowercased come back,
      lowercased. Together with `ParseVariantSuffixJoins` this is
      an if-and-only-if. */
  lemma {:induction false} ParseVariantSuffixOfJoin(b: string, v: string)
    requires b != "" && NoChar(b, '{') && NoChar(v, '}')
    requires IsVariantValid(ToLower(v))
    ensures ParseVariantSuffix(b + "{" + v + "}") == Some((ToLower(b), ToLower(v)))
  {
    var t := b + "{" + v + "}";
    assert t[|b|] == '{';
    assert forall j :: 0 <= j < |b| ==> t[j] == b[j];
    assert FindChar(t, '{', 0) == Some(|b|);
    assert t[|t| - 1] == '}';
    assert forall j :: |b| + 1 <= j < |t| - 1 ==> t[j] == v[j - |b| - 1];
    assert FindChar(t, '}', |b| + 1) == Some(|t| - 1);
    assert t[..|b|] == b;
    assert t[|b| + 1..|t| - 1] == v;
  }

  /** The (base, variant) pair the exporter files a key under: a key that
      does not split is its own base with no variant. */
  function SplitKey(key: string): (string, string) {
    match ParseVariantSuffix(key)
    case Some(p) => p
    case None => (key, "")
  }

  /** The key a (base, variant) entry is stored under. */
  function KeyOf(base: string, variant: string): string {
    if variant == "" then base else base + "{" + variant + "}"
  }

  /** A key of the shape the loaders produce for hex tokens and the binary
      format can carry: a lowercase 6-32 hex base, optionally followed by a
      valid `{variant}`. */
  predicate CanonicalKey(key: string) {
    var (base, variant) := SplitKey(key);
    IsHexToken(base) && IsLowerString(base) && KeyOf(base, variant) == key
  }

  lemma SplitKeyShape(key: string)
    ensures SplitKey(key).1 == "" || IsVariantValid(SplitKey(key).1)
  {
  }

  /** A canonical key is exactly a lowercase hex base plus an optional valid
      variant, and splitting it gives those two parts back. */
  lemma {:induction false} CanonicalKeyOfParts(base: string, variant: string)
    requires IsHexToken(base) && IsLowerString(base)
    requires variant == "" || IsVariantValid(variant)
    ensures CanonicalKey(KeyOf(base, variant))
    ensures SplitKey(KeyOf(base, variant)) == (base, variant)
  {
    assert NoChar(base, '{') by {
      forall i | 0 <= i < |base| ensures base[i] != '{' {
        assert IsHexDigit(base[i]);
      }
    }
    if variant == "" {
      assert FindChar(base, '{', 0).None?;
    } else {
      ValidVariantShape(variant);
      ParseVariantSuffixOfJoin(base, variant);
      ToLowerIdentity(base);
      ToLowerIdentity(variant);
    }
  }

  // ---------------------------------------------------------------------
  // Plural variant index

  // The index is defined for any splitting function and instantiated with
  // `ParseVariantSuffix`; the lemmas about it only need the set algebra.

  function VariantBasesBy(keys: set<string>, split: string -> Option<(string, string)>): set<string> {
    set k | k in keys && split(k).Some? :: split(k).value.0
  }

  function VariantsForBy(keys: set<string>, split: string -> Option<(string, string)>, base: string): set<string> {
    set k | k in keys && split(k).Some? && split(k).value.0 == base :: split(k).value.1
  }

  function VariantsBy(keys: set<string>, split: string -> Option<(string, string)>): map<string, set<string>> {
    map b | b in VariantBasesBy(keys, split) :: VariantsForBy(keys, split, b)
  }

  /** The `plural_variants` index a set of catalog keys determines: each base
      maps to the variants declared for it. */
  function VariantsOf(keys: set<string>): map<string, set<string>> {
    VariantsBy(keys, ParseVariantSuffix)
  }

  /** One `plural_variants[base].insert(variant)` step for a loaded key. */
  function AddVariant(vars: map<string, set<string>>, key: string): map<string, set<string>> {
    match ParseVariantSuffix(key)
    case None => vars
    case Some((b, v)) => vars[b := (if b in vars then vars[b] else {}) + {v}]
  }

  /** `v` is declared for `b` exactly when some key splits into (b, v). */
  lemma VariantsOfMembership(keys: set<string>, b: string, v: string)
    ensures (b in VariantsOf(keys) && v in VariantsOf(keys)[b])
      <==> exists k :: k in keys && ParseVariantSuffix(k) == Some((b, v))
  {
    if k :| k in keys && ParseVariantSuffix(k) == Some((b, v)) {
      assert b in VariantBasesBy(keys, ParseVariantSuffix);
    }
  }

  /** Recording keys one at a time builds the index of all of them. */
  lemma AddVariantExtends(keys: set<string>, key: string)
    ensures AddVariant(VariantsOf(keys), key) == VariantsOf(keys + {key})
  {
    var split := ParseVariantSuffix;
    match split(key)
    case None =>
      AddPlainKeyBy(keys, key, split);
    case Some((b, v)) =>
      AddVariantKeyBy(keys, key, split, b, v);
  }

  lemma AddPlainKeyBy(keys: set<string>, key: string, split: string -> Option<(string, string)>)
    requires split(key).None?
    ensures VariantsBy(keys + {key}, split) == VariantsBy(keys, split)
  {
    var before := VariantsBy(keys, split);
    var after := VariantsBy(keys + {key}, split);
    assert VariantBasesBy(keys + {key}, split) == VariantBasesBy(keys, split);
    forall b | b in after.Keys ensures after[b] == before[b] {
      assert VariantsForBy(keys + {key}, split, b) == VariantsForBy(keys, split, b);
    }
  }

  lemma AddVariantKeyBy(keys: set<string>, key: string, split: string -> Option<(string, string)>,
                        kb: string, kv: string)
    requires split(key) == Some((kb, kv))
    ensures var before := VariantsBy(keys, split);
      before[kb := (if kb in before then before[kb] else {}) + {kv}] == VariantsBy(keys + {key}, split)
  {
    var before := VariantsBy(keys, split);
    var after := VariantsBy(keys + {key}, split);
    assert VariantBasesBy(keys + {key}, split) == VariantBasesBy(keys, split) + {kb};
    var prior := if kb in before then before[kb] else {};
    assert prior == VariantsForBy(keys, split, kb);
    var added := before[kb := prior + {kv}];
    forall b | b in after.Keys ensures added[b] == after[b] {
      if b == kb {
        assert VariantsForBy(keys + {key}, split, b) == VariantsForBy(keys, split, b) + {kv};
      } else {
        assert VariantsForBy(keys + {key}, split, b) == VariantsForBy(keys, split, b);
      }
    }
    assert added.Keys == after.Keys;
  }

  /** The invariant every loaded snapshot keeps: `plural_variants` indexes
      exactly the variant keys of the catalog, variant keys are stored in
      their lowercase `base{variant}` form, and labels only annotate
      catalog keys. */
  ghost predicate WellFormed(s: Snapshot) {
    && s.pluralVariants == VariantsOf(s.catalog.Keys)
    && (forall k :: k in s.catalog && ParseVariantSuffix(k).Some? ==>
          KeyOf(ParseVariantSuffix(k).value.0, ParseVariantSuffix(k).value.1) == k)
    && s.labels.Keys <= s.catalog.Keys
  }

  // ---------------------------------------------------------------------
  // Style tokens and style properties

  /** `is_style_token`: the base (after splitting a variant suffix, if any)
      is `style_` followed by at least one character. */
  predicate IsStyleToken(token: string) {
    var base := match ParseVariantSuffix(token) case Some((b, _)) => b case None => token;
    |base| > 6 && StartsWith(base, "style_")
  }

  /** No hex token is a style token (`s` is not a hex digit), so the two
      token families the text loader accepts never overlap. */
  lemma HexKeyIsNotStyleToken(key: string)
    requires CanonicalKey(key)
    ensures !IsStyleToken(key)
  {
    var (b, v) := SplitKey(key);
    assert IsHexDigit(b[0]);
  }

  /** `parse_style_properties`: `;`-separated segments; `name: value` pairs
      (both trimmed and non-empty, name lowercased and hashed) and bare `@`
      references (kept whole, unnamed, hash 0); everything else is dropped. */
  function ParseStyleProperties(text: string): (r: seq<StyleProperty>)
    ensures forall p :: p in r ==> WellFormedProperty(p)
  {
    SplitProperties(text)
  }

  /** What every parsed property looks like. */
  predicate WellFormedProperty(p: StyleProperty) {
    if p.name == "" then
      p.hash == 0 && |p.value| > 0 && p.value[0] == '@' && NoChar(p.value, ';')
    else
      && IsLowerString(p.name)
      && p.hash == Fnv1a32(OfString(p.name))
      && p.value != "" && !IsSpace(p.value[0]) && !IsSpace(p.value[|p.value| - 1])
      && NoChar(p.value, ';')
      && NoChar(p.name, ':')
  }

  /** The segments of `text`, each parsed: the loop of
      `parse_style_properties`, which goes on after each `;`. */
  function SplitProperties(text: string): (r: seq<StyleProperty>)
    ensures forall p :: p in r ==> WellFormedProperty(p)
    decreases |text|
  {
    if text == [] then []
    else Prepend(ParseSegment(text[..SegmentEnd(text)]), SplitProperties(text[SegmentNext(text)..]))
  }

  /** Where the first segment ends: the first `;`, or the end of the text. */
  function SegmentEnd(text: string): (stop: nat)
    ensures stop <= |text| && NoChar(text[..stop], ';')
  {
    match FindChar(text, ';', 0)
    case None => |text|
    case Some(e) => e
  }

  /** Where the second segment starts: past the first `;`. */
  function SegmentNext(text: string): (next: nat)
    requires text != []
    ensures 0 < next <= |text|
  {
    match FindChar(text, ';', 0)
    case None => |text|
    case Some(e) => e + 1
  }

  /** A parsed segment, if any, in front of the ones after it. */
  function Prepend(p: Option<StyleProperty>, rest: seq<StyleProperty>): (r: seq<StyleProperty>)
    ensures forall q :: q in r ==> (p.Some? && q == p.value) || q in rest
  {
    match p
    case None => rest
    case Some(x) => [x] + rest
  }

  /** One `;`-free segment of a style text. */
  function ParseSegment(raw: string): (r: Option<StyleProperty>)
    requires NoChar(raw, ';')
    ensures r.Some? ==> WellFormedProperty(r.value)
  {
    var segment := Trim(raw);
    TrimKeepsAbsentChar(raw, ';');
    if segment == "" then None
    else
      match FindChar(segment, ':', 0)
      case None =>
        if segment[0] == '@' then Some(StyleProperty(0, "", segment)) else None
      case Some(colon) => ParsePair(segment, colon)
  }

  /** A segment split at its first colon: both trimmed sides must be
      non-empty. */
  function ParsePair(segment: string, colon: nat): (r: Option<StyleProperty>)
    requires NoChar(segment, ';')
    requires colon < |segment| && forall j :: 0 <= j < colon ==> segment[j] != ':'
    ensures r.Some? ==> WellFormedProperty(r.value)
  {
    var name := Trim(segment[..colon]);
    var value := Trim(segment[colon + 1..]);
    SegmentParts(segment, colon);
    if name == "" || value == "" then None
    else Some(NamedProperty(name, value))
  }

  /** A `name: value` property: the name is lowercased and hashed. */
  function NamedProperty(name: string, value: string): (p: StyleProperty)
    requires name != "" && NoChar(name, ':')
    requires value != "" && !IsSpace(value[0]) && !IsSpace(value[|value| - 1]) && NoChar(value, ';')
    ensures WellFormedProperty(p)
  {
    var lower := ToLower(name);
    ToLowerIsLower(name);
    StyleProperty(Fnv1a32(OfString(lower)), lower, value)
  }

  /** Around the first colon of a segment without semicolons, the trimmed
      name has no colon and the trimmed value no semicolon. */
  lemma SegmentParts(segment: string, colon: nat)
    requires NoChar(segment, ';')
    requires colon < |segment| && forall j :: 0 <= j < colon ==> segment[j] != ':'
    ensures NoChar(Trim(segment[..colon]), ':') && NoChar(Trim(segment[colon + 1..]), ';')
  {
    NoCharSlice(segment, ':', 0, colon);
    NoCharSlice(segment, ';', colon + 1, |segment|);
    TrimKeepsAbsentChar(segment[..colon], ':');
    TrimKeepsAbsentChar(segment[colon + 1..], ';');
  }

  lemma NoCharSlice(s: string, c: char, lo: nat, hi: nat)
    requires lo <= hi <= |s|
    requires forall j :: lo <= j < hi ==> s[j] != c
    ensures lo == 0 ==> NoChar(s[..hi], c)
    ensures hi == |s| ==> NoChar(s[lo..], c)
  {
  }

  lemma TrimKeepsAbsentChar(s: string, c: char)
    requires NoChar(s, c)
    ensures NoChar(Trim(s), c)
  {
    var l := TrimLeft(s);
    NoCharSlice(s, c, |s| - |l|, |s|);
    NoCharSlice(l, c, 0, |TrimRight(l)|);
  }

  /** A named property that can be written as `name: value` and read back:
      its name is trimmed and holds no `;`. */
  predicate WritableProperty(p: StyleProperty) {
    WellFormedProperty(p) && p.name != "" && Trimmed(p.name) && NoChar(p.name, ';')
  }

  /** A style text is its first `;`-free segment, then the rest. */
  lemma ParseStylePropertiesCons(segment: string, rest: string)
    requires NoChar(segment, ';')
    ensures ParseStyleProperties(segment + ";" + rest) == Prepend(ParseSegment(segment), ParseStyleProperties(rest))
  {
    var text := segment + ";" + rest;
    forall j | 0 <= j < |segment| ensures text[j] != ';' {
      assert text[j] == segment[j];
    }
    assert text[|segment|] == ';';
    FindCharAt(text, ';', 0, |segment|);
    assert text[..|segment|] == segment;
    assert text[|segment| + 1..] == rest;
  }

  /** The `name: value` text of a property. */
  function Written(p: StyleProperty): string {
    p.name + ": " + p.value
  }

  /** `name: value` holds `;` nowhere when neither part does. */
  lemma PairNoSemicolon(lead: string, name: string, value: string)
    requires NoChar(lead, ';') && NoChar(name, ';') && NoChar(value, ';')
    ensures NoChar(lead + (name + ": " + value), ';')
  {
    var t := lead + (name + ": " + value);
    forall i | 0 <= i < |t| ensures t[i] != ';' {
      if i < |lead| {
        assert t[i] == lead[i];
      } else if i < |lead| + |name| {
        assert t[i] == name[i - |lead|];
      } else if i >= |lead| + |name| + 2 {
        assert t[i] == value[i - |lead| - |name| - 2];
      }
    }
  }

  /** `name: value`, after nothing or one space, trims to itself when its
      ends are no white space. */
  lemma PairTrim(lead: string, name: string, value: string)
    requires lead == "" || lead == " "
    requires name != [] && !IsSpace(name[0]) && value != [] && !IsSpace(value[|value| - 1])
    ensures Trim(lead + (name + ": " + value)) == name + ": " + value
  {
    var body := name + ": " + value;
    assert body[0] == name[0] && body[|body| - 1] == value[|value| - 1];
    TrimOfTrimmed(body);
    assert (lead + body)[|lead|..] == body;
  }

  /** `name: value` splits at the colon after the name. */
  lemma PairColon(name: string, value: string)
    requires NoChar(name, ':')
    ensures FindChar(name + ": " + value, ':', 0) == Some(|name|)
    ensures (name + ": " + value)[..|name|] == name
    ensures (name + ": " + value)[|name| + 1..] == " " + value
  {
    PairParts(name, value);
    var body := name + ": " + value;
    forall j | 0 <= j < |name| ensures body[j] != ':' {
      assert body[j] == body[..|name|][j];
    }
    FindCharAt(body, ':', 0, |name|);
  }

  /** The pieces of `name: value` around its colon. */
  lemma PairParts(name: string, value: string)
    ensures |name + ": " + value| == |name| + 2 + |value|
    ensures (name + ": " + value)[..|name|] == name
    ensures (name + ": " + value)[|name|] == ':'
    ensures (name + ": " + value)[|name| + 1..] == " " + value
  {
    var rest := ": " + value;
    assert name + ": " + value == name + rest;
    assert (name + rest)[..|name|] == name;
    assert (name + rest)[|name|..] == rest;
    assert rest[1..] == " " + value;
  }

  /** One space before a trimmed text trims away. */
  lemma TrimLeadingSpace(value: string)
    requires value != [] && Trimmed(value)
    ensures Trim(" " + value) == value
  {
    assert (" " + value)[1..] == value;
    TrimOfTrimmed(value);
  }

  /** A property built from its own name and value is the property. */
  lemma NamedPropertyOfWritable(p: StyleProperty)
    requires WritableProperty(p)
    ensures NamedProperty(p.name, p.value) == p
  {
    ToLowerIdentity(p.name);
  }

  /** A written property, after nothing or one space, is one segment that
      reads back as the property. */
  lemma ParseWrittenSegment(lead: string, p: StyleProperty)
    requires lead == "" || lead == " "
    requires WritableProperty(p)
    ensures NoChar(lead + Written(p), ';')
    ensures ParseSegment(lead + Written(p)) == Some(p)
  {
    PairNoSemicolon(lead, p.name, p.value);
    PairTrim(lead, p.name, p.value);
    PairColon(p.name, p.value);
    TrimOfTrimmed(p.name);
    TrimLeadingSpace(p.value);
    NamedPropertyOfWritable(p);
  }

  /** `populate_style_registry`: every style token whose text parses to at
      least one property. */
  function StyleRegistry(catalog: map<string, string>): (reg: map<string, seq<StyleProperty>>)
    ensures reg.Keys <= catalog.Keys
    ensures forall k :: k in reg ==> IsStyleToken(k) && |reg[k]| > 0
    ensures forall k :: k in catalog && IsStyleToken(k) && |ParseStyleProperties(catalog[k])| > 0 ==> k in reg
  {
    map k | k in catalog && IsStyleToken(k) && |ParseStyleProperties(catalog[k])| > 0
      :: ParseStyleProperties(catalog[k])
  }
}
