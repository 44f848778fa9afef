/** The engine object: the active snapshot with the meta fields copied from
    it, `load_txt_catalog`, and the public `translate`, `translate_plural`
    and `get_native_style`. Publishing the snapshot atomically is modelled
    as replacing a field of an immutable state. */
module Engine {
  import opened Wrappers
  import opened Ascii
  import opened Bytes
  import opened Catalog
  import TextLoader
  import BinaryCodec
  import Resolver
  import Plural
  import Physics

  /** Why a load failed: an empty source, or the loader's own error. */
  datatype LoadFailure =
    | EmptySource
    | TextFailure(textError: TextLoader.LoadError)
    | BinaryFailure(binaryError: BinaryCodec.DecodeError)

  /** The engine's state: the active snapshot, the meta fields of the last
      installed snapshot, and the last error (`None` when cleared). */
  datatype EngineState = EngineState(
    active: Option<Snapshot>,
    locale: string,
    fallback: string,
    note: string,
    plural: PluralRule,
    lastError: Option<LoadFailure>)

  /** A freshly constructed engine: no catalog, default plural rule. */
  const Fresh := EngineState(None, "", "", "", Default, None)

  /** The meta fields the engine reports are those of its active snapshot. */
  predicate MetaMatches(e: EngineState) {
    e.active.Some? ==>
      && e.locale == e.active.value.locale
      && e.fallback == e.active.value.fallback
      && e.note == e.active.value.note
      && e.plural == e.active.value.plural
  }

  const NoCatalogMarker: string := Resolver.Marker("NO_CATALOG")

  /** `install_snapshot`: copy the meta fields, then publish. */
  function Install(e: EngineState, s: Snapshot): (r: EngineState)
    ensures r.active == Some(s) && MetaMatches(r)
    ensures r.lastError == e.lastError
  {
    e.(active := Some(s), locale := s.locale, fallback := s.fallback, note := s.note, plural := s.plural)
  }

  /** What the source of `load_txt_catalog` is read as: a binary catalog
      when its bytes carry the binary header, text otherwise (after the
      UTF-8 byte order mark is dropped). */
  function Build(src: string, strict: bool): Result<Snapshot, LoadFailure> {
    if BinaryCodec.LooksLikeBinary(OfString(src)) then
      match BinaryCodec.Decode(OfString(src), strict)
      case Ok(s) => Ok(s)
      case Err(d) => Err(BinaryFailure(d))
    else
      match TextLoader.BuildFromText(TextLoader.StripBom(src), strict)
      case Ok(s) => Ok(s)
      case Err(t) => Err(TextFailure(t))
  }

  /** `load_txt_catalog`: the new state and whether the load succeeded. The
      last error is cleared first; an empty source is refused; a snapshot
      is installed only when building it succeeds, so a failed load leaves
      the catalog and its meta fields as they were. */
  function LoadTxtCatalog(e: EngineState, src: string, strict: bool): (r: (EngineState, bool))
    ensures src == [] ==> !r.1 && r.0.lastError == Some(EmptySource)
    ensures !r.1 ==> r.0.lastError.Some? && r.0 == e.(lastError := r.0.lastError)
    ensures r.1 ==> r.0.active.Some? && r.0.lastError.None? && MetaMatches(r.0)
    ensures MetaMatches(e) ==> MetaMatches(r.0)
  {
    var cleared := e.(lastError := None);
    if src == [] then (cleared.(lastError := Some(EmptySource)), false)
    else
      match Build(src, strict)
      case Err(f) => (cleared.(lastError := Some(f)), false)
      case Ok(s) => (Install(cleared, s), true)
  }

  /** A successful load installs exactly the snapshot its source builds. */
  lemma LoadInstallsBuilt(e: EngineState, src: string, strict: bool)
    ensures LoadTxtCatalog(e, src, strict).1 <==> src != [] && Build(src, strict).Ok?
    ensures LoadTxtCatalog(e, src, strict).1 ==>
      LoadTxtCatalog(e, src, strict).0.active == Some(Build(src, strict).value)
  {
  }

  /** Whatever the source, a successful load installs a well-formed
      snapshot. */
  lemma LoadInstallsWellFormed(e: EngineState, src: string, strict: bool)
    requires LoadTxtCatalog(e, src, strict).1
    ensures WellFormed(LoadTxtCatalog(e, src, strict).0.active.value)
  {
    if BinaryCodec.LooksLikeBinary(OfString(src)) {
      BinaryCodec.DecodeWellFormed(OfString(src), strict);
    } else {
      TextLoader.BuildFromTextWellFormed(TextLoader.StripBom(src), strict);
    }
  }

  /** Loading twice in a row from the same source gives the same state as
      loading once. */
  lemma LoadIdempotent(e: EngineState, src: string, strict: bool)
    requires LoadTxtCatalog(e, src, strict).1
    ensures LoadTxtCatalog(LoadTxtCatalog(e, src, strict).0, src, strict) == LoadTxtCatalog(e, src, strict)
  {
  }

  // ---------------------------------------------------------------------
  // Loading a catalog written as text, or exported as bytes

  /** The first character of a catalog written as text is the first
      character of its first key. */
  lemma CatalogTextHead(keys: seq<string>, catalog: map<string, string>)
    requires |keys| > 0 && forall i :: 0 <= i < |keys| ==> keys[i] in catalog
    requires keys[0] != []
    ensures |TextLoader.CatalogText(keys, catalog)| > 0
    ensures TextLoader.CatalogText(keys, catalog)[0] == keys[0][0]
  {
    var lines := TextLoader.CatalogLines(keys, catalog);
    assert lines[0] == keys[0] + (":" + Escape(catalog[keys[0]]));
    if |lines| > 1 {
      assert TextLoader.JoinLines(lines) == lines[0] + "\n" + TextLoader.JoinLines(lines[1..]);
    }
  }

  /** An entry key starts with a hex digit or the `s` of `style_`. */
  lemma EntryKeyHead(k: string)
    requires TextLoader.EntryKey(k)
    ensures IsHexDigit(k[0]) || k[0] == 's'
  {
    var (b, v) := SplitKey(k);
    if IsHexToken(b) {
      assert IsHexDigit(b[0]);
    } else {
      assert IsStyleToken(b);
      var sb := match ParseVariantSuffix(b) case Some((x, _)) => x case None => b;
      assert StartsWith(sb, "style_");
      if ParseVariantSuffix(b).Some? {
        ParseVariantSuffixJoins(b);
      }
      assert sb[0] == 's';
    }
    assert KeyOf(b, v) == k;
    assert k[0] == b[0];
  }

  /** A text catalog is never taken for a binary one: its first character
      is a hex digit or `s`, never the `I` of the binary magic, and it has
      no byte order mark. */
  lemma CatalogTextIsText(keys: seq<string>, catalog: map<string, string>)
    requires |keys| > 0 && forall i :: 0 <= i < |keys| ==> keys[i] in catalog
    requires TextLoader.EntryKey(keys[0])
    ensures !BinaryCodec.LooksLikeBinary(OfString(TextLoader.CatalogText(keys, catalog)))
    ensures TextLoader.StripBom(TextLoader.CatalogText(keys, catalog)) == TextLoader.CatalogText(keys, catalog)
  {
    var text := TextLoader.CatalogText(keys, catalog);
    CatalogTextHead(keys, catalog);
    EntryKeyHead(keys[0]);
    assert OfString(text)[0] == text[0] as int % 0x100 == text[0] as int;
    assert OfString(text)[0] != BinaryCodec.Magic[0];
  }

  /** A catalog written as text loads into the engine: the installed
      snapshot has exactly its entries, their declared variants, no labels
      or meta fields, and the default plural rule. */
  lemma LoadCatalogText(e: EngineState, keys: seq<string>, catalog: map<string, string>, strict: bool)
    requires |keys| > 0 && TextLoader.Distinct(keys) && (forall k :: k in catalog <==> k in keys)
    requires TextLoader.Writable(catalog)
    ensures LoadTxtCatalog(e, TextLoader.CatalogText(keys, catalog), strict).1
    ensures LoadTxtCatalog(e, TextLoader.CatalogText(keys, catalog), strict).0.active
      == Some(Snapshot(catalog, map[], VariantsOf(catalog.Keys), "", "", "", Default))
  {
    assert keys[0] in catalog;
    CatalogTextIsText(keys, catalog);
    TextLoader.TextRoundTrip(keys, catalog, strict);
  }

  lemma OfStringOfChars(data: seq<byte>)
    ensures OfString(Chars(data)) == data
  {
  }

  /** An exported catalog, handed to `load_txt_catalog` as a string, loads
      back strictly: everything but the labels comes back. */
  lemma LoadExported(e: EngineState, s: Snapshot)
    requires BinaryCodec.Representable(s)
    ensures BinaryCodec.Export(s).Some?
    ensures LoadTxtCatalog(e, Chars(BinaryCodec.Export(s).value), true)
      == (Install(e.(lastError := None), s.(labels := map[])), true)
  {
    BinaryCodec.ExportDecodeRoundTrip(s);
    var data := BinaryCodec.Export(s).value;
    OfStringOfChars(data);
  }

  // ---------------------------------------------------------------------
  // Translation

  /** `translate`: without a catalog, the no-catalog marker; otherwise the
      lowercased token, resolved at depth 0 with nothing seen. */
  function Translate(e: EngineState, tokenIn: string, args: seq<string>): (r: string)
    ensures e.active.None? ==> r == NoCatalogMarker
  {
    match e.active
    case None => NoCatalogMarker
    case Some(s) => Resolver.Translate(Resolver.StyleCatalogOf(s), ToLower(tokenIn), args, {}, 0)
  }

  /** Tokens are case-insensitive. */
  lemma TranslateIgnoresCase(e: EngineState, tokenIn: string, args: seq<string>)
    ensures Translate(e, tokenIn, args) == Translate(e, ToLower(tokenIn), args)
  {
    ToLowerIsLower(tokenIn);
    ToLowerIdentity(ToLower(tokenIn));
  }

  /** A lowercase token missing from the catalog comes back between
      markers. */
  lemma TranslateMissing(e: EngineState, token: string, args: seq<string>)
    requires e.active.Some? && IsLowerString(token) && token !in e.active.value.catalog
    ensures Translate(e, token, args) == Resolver.Marker(token)
  {
    ToLowerIdentity(token);
    Resolver.TranslateUnknown(e.active.value, token, args, {}, 0);
  }

  /** Loading a text catalog and translating one of its plain entries gives
      the entry's text back. */
  lemma LoadThenTranslate(e: EngineState, keys: seq<string>, catalog: map<string, string>, strict: bool,
                          k: string, args: seq<string>)
    requires |keys| > 0 && TextLoader.Distinct(keys) && (forall k :: k in catalog <==> k in keys)
    requires TextLoader.Writable(catalog)
    requires k in catalog && !IsStyleToken(k) && Resolver.Verbatim(catalog[k])
    ensures Translate(LoadTxtCatalog(e, TextLoader.CatalogText(keys, catalog), strict).0, k, args) == catalog[k]
  {
    LoadCatalogText(e, keys, catalog, strict);
    var s := LoadTxtCatalog(e, TextLoader.CatalogText(keys, catalog), strict).0.active.value;
    assert TextLoader.EntryKey(k);
    ToLowerIdentity(k);
    Resolver.TranslateVerbatim(s, k, args, {}, 0);
  }

  /** `translate_plural`: the key `PluralLookup` picks under the engine's
      plural rule, resolved at depth 0 with nothing seen. */
  function TranslatePlural(e: EngineState, tokenIn: string, count: int, args: seq<string>): (r: string)
    ensures e.active.None? ==> r == NoCatalogMarker
  {
    match e.active
    case None => NoCatalogMarker
    case Some(s) =>
      Resolver.Translate(Resolver.StyleCatalogOf(s), Plural.PluralLookup(s, e.plural, tokenIn, count), args, {}, 0)
  }

  /** A token that names its variant translates as a plain token, whatever
      the count. */
  lemma TranslatePluralExplicit(e: EngineState, tokenIn: string, count: int, args: seq<string>)
    requires ParseVariantSuffix(ToLower(tokenIn)).Some?
    ensures TranslatePlural(e, tokenIn, count, args) == Translate(e, tokenIn, args)
  {
    if e.active.Some? {
      Plural.PluralLookupExplicit(e.active.value, e.plural, tokenIn, count);
    }
  }

  /** When the catalog has the variant the engine's plural rule picks, that
      variant is what is translated. */
  lemma TranslatePluralPicked(e: EngineState, tokenIn: string, count: int, args: seq<string>)
    requires e.active.Some? && ParseVariantSuffix(ToLower(tokenIn)).None?
    requires ToLower(tokenIn) + "{" + Plural.PickVariantName(e.plural, count) + "}" in e.active.value.catalog
    ensures TranslatePlural(e, tokenIn, count, args)
      == Translate(e, ToLower(tokenIn) + "{" + Plural.PickVariantName(e.plural, count) + "}", args)
  {
    var key := ToLower(tokenIn) + "{" + Plural.PickVariantName(e.plural, count) + "}";
    Plural.PluralLookupOrder(e.active.value, e.plural, tokenIn, count);
    ToLowerIsLower(tokenIn);
    Plural.NoCharOfVariant(Plural.PickVariantName(e.plural, count));
    ToLowerAppend(ToLower(tokenIn), "{" + Plural.PickVariantName(e.plural, count) + "}");
    ToLowerAppend(ToLower(tokenIn) + "{", Plural.PickVariantName(e.plural, count) + "}");
    ToLowerIdentity(ToLower(tokenIn));
    ToLowerIdentity(Plural.PickVariantName(e.plural, count));
    assert ToLower(key) == key;
  }

  // ---------------------------------------------------------------------
  // Native style

  /** `get_native_style`: the physics record of the lowercased style token,
      or the fresh record when there is no catalog or no such style. */
  function NativeStyleFor(e: EngineState, token: string, args: seq<string>,
                          parse: string -> Option<real>): (r: NativeStyle)
    ensures e.active.None? ==> r == DefaultNativeStyle
    ensures e.active.Some? && ToLower(token) !in StyleRegistry(e.active.value.catalog) ==> r == DefaultNativeStyle
  {
    match e.active
    case None => DefaultNativeStyle
    case Some(s) =>
      var c := Resolver.StyleCatalogOf(s);
      var normalized := ToLower(token);
      if normalized !in c.registry then DefaultNativeStyle
      else Physics.EvaluateNativeStyle(c, c.registry[normalized], args, parse)
  }

  /** A token that is not a style token has no physics. */
  lemma NativeStyleOfPlainToken(e: EngineState, token: string, args: seq<string>,
                                parse: string -> Option<real>)
    requires !IsStyleToken(ToLower(token))
    ensures NativeStyleFor(e, token, args, parse) == DefaultNativeStyle
  {
  }

  /** The record has physics exactly when some property of the style sets
      a field. */
  lemma NativeStyleHasPhysical(e: EngineState, token: string, args: seq<string>,
                               parse: string -> Option<real>)
    requires e.active.Some? && ToLower(token) in StyleRegistry(e.active.value.catalog)
    ensures NativeStyleFor(e, token, args, parse).hasPhysical <==>
      exists i :: 0 <= i < |StyleRegistry(e.active.value.catalog)[ToLower(token)]|
        && Physics.PropertySetting(Resolver.StyleCatalogOf(e.active.value),
                                   StyleRegistry(e.active.value.catalog)[ToLower(token)][i], args, parse).Some?
  {
    var c := Resolver.StyleCatalogOf(e.active.value);
    Physics.HasPhysicalIff(c, DefaultNativeStyle, c.registry[ToLower(token)], args, parse);
  }
}
