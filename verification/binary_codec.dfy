/** The binary catalog format: the exporter's buffer layout and the decoder
    that turns a buffer back into a snapshot.

    Layout (all integers little-endian):
      header (24 bytes, version 2): "I18N", version, 0, plural rule, 0,
        entry count (u32), string table size (u32), checksum (u32),
        metadata size (u32)
      metadata: locale, fallback and note lengths (u16 each), then the bytes
      entry table: per entry, base length (u8), base, variant length (u8),
        variant, text offset (u32), text length (u32)
      string table: the texts, back to back
    Version 1 has a 20-byte header, no metadata and a checksum over the
    string table alone. */
module BinaryCodec {
  import opened Wrappers
  import opened Ascii
  import opened Bytes
  import opened Ordering
  import opened Catalog

  const Magic: seq<byte> := [0x49, 0x31, 0x38, 0x4E]
  const VersionV1: byte := 1
  const VersionCurrent: byte := 2
  const HeaderSizeV1: nat := 20
  const HeaderSizeV2: nat := 24
  const MetadataHeaderSize: nat := 6
  const MaxMetaLength: nat := 0xFFFF

  /** The reasons the decoder rejects a buffer, in the order it checks them. */
  datatype DecodeError =
    | HeaderTooShort
    | UnknownFormat
    | UnsupportedVersion
    | HeaderTruncated
    | MetadataTooLarge
    | MetadataTooShort
    | MetadataOverflow
    | MetadataInconsistent
    | EntryTableTruncated
    | BadTokenLength
    | TokenOverrun
    | VariantLengthMissing
    | VariantOverrun
    | BadVariant
    | TokenNotHex
    | EntryTooShort
    | StringTableTooShort
    | ChecksumMismatch
    | TextOutOfRange
    | DuplicateEntry
    | NoEntries
  {
    /** An error of one entry-table row. */
    predicate IsRowError() {
      || EntryTableTruncated? || BadTokenLength? || TokenOverrun? || VariantLengthMissing?
      || VariantOverrun? || BadVariant? || TokenNotHex? || EntryTooShort?
    }

    /** An error of the stages before the string table: header, metadata
        and entry rows. */
    predicate BeforeStringTable() {
      || HeaderTooShort? || UnknownFormat? || UnsupportedVersion? || HeaderTruncated?
      || MetadataTooLarge? || MetadataTooShort? || MetadataOverflow? || MetadataInconsistent?
      || IsRowError()
    }
  }

  /** One row of the entry table. */
  datatype EntryInfo = EntryInfo(base: string, variant: string, textOffset: nat, textLength: nat)

  /** `looks_like_binary_catalog`: what makes `load_txt_catalog` take the
      binary path. */
  predicate LooksLikeBinary(data: seq<byte>) {
    |data| >= HeaderSizeV1 && data[..4] == Magic && (data[4] == VersionV1 || data[4] == VersionCurrent)
  }

  // ---------------------------------------------------------------------
  // Exporter

  /** The exporter's sort order: by base, then by variant. Two keys can only
      share both when they differ in letter case, where `std::sort` leaves the
      order open; the key itself settles it here. */
  predicate KeyLess(a: string, b: string) {
    var (ba, va) := SplitKey(a);
    var (bb, vb) := SplitKey(b);
    LexLess(ba, bb) || (ba == bb && (LexLess(va, vb) || (va == vb && LexLess(a, b))))
  }

  lemma KeyLessIsStrictTotalOrder()
    ensures StrictTotalOrder(KeyLess)
  {
    forall x: string ensures !KeyLess(x, x) {
      LexLessIrreflexive(x);
      LexLessIrreflexive(SplitKey(x).0);
      LexLessIrreflexive(SplitKey(x).1);
    }
    forall x: string, y: string, z: string | KeyLess(x, y) && KeyLess(y, z) ensures KeyLess(x, z) {
      KeyLessTransitive(x, y, z);
    }
    forall x: string, y: string | x != y ensures KeyLess(x, y) || KeyLess(y, x) {
      KeyLessTotal(x, y);
    }
  }

  lemma KeyLessTransitive(x: string, y: string, z: string)
    requires KeyLess(x, y) && KeyLess(y, z)
    ensures KeyLess(x, z)
  {
    var (bx, vx) := SplitKey(x);
    var (bY, vY) := SplitKey(y);
    var (bz, vz) := SplitKey(z);
    if bx != bY && bY != bz {
      LexLessTransitive(bx, bY, bz);
    } else if bx == bY && bY == bz {
      LexLessIrreflexive(bx);
      if vx != vY && vY != vz {
        LexLessTransitive(vx, vY, vz);
      } else if vx == vY && vY == vz {
        LexLessIrreflexive(vx);
        LexLessTransitive(x, y, z);
      }
    }
  }

  lemma KeyLessTotal(x: string, y: string)
    requires x != y
    ensures KeyLess(x, y) || KeyLess(y, x)
  {
    var (bx, vx) := SplitKey(x);
    var (bY, vY) := SplitKey(y);
    if bx != bY {
      LexLessTotal(bx, bY);
    } else if vx != vY {
      LexLessTotal(vx, vY);
    } else {
      LexLessTotal(x, y);
    }
  }
  /** The catalog keys in the order the exporter writes them. */
  function SortedKeys(catalog: map<string, string>): (keys: seq<string>)
    ensures |keys| == |catalog|
    ensures forall k :: k in keys <==> k in catalog
    ensures StrictlySorted(keys, KeyLess)
  {
    KeyLessIsStrictTotalOrder();
    SortedFromSet(catalog.Keys, KeyLess)
  }

  /** Every key splits into a non-empty hex base: the exporter's line-1540
      check. A style token fails it. */
  predicate ExportableKey(key: string) {
    var (base, _) := SplitKey(key);
    base != "" && IsHexToken(base)
  }

  /** The entry rows with their prefix-sum text offsets, as `uint32_t`. */
  function Layout(keys: seq<string>, catalog: map<string, string>, offset: nat): (infos: seq<EntryInfo>)
    requires forall k :: k in keys ==> k in catalog
    ensures |infos| == |keys|
  {
    if keys == [] then []
    else
      var text := catalog[keys[0]];
      [RowOf(keys[0], offset, |text|)] + Layout(keys[1..], catalog, offset + |text|)
  }

  /** The entry row for `key`, whose text is `length` bytes at `offset` of
      the string table. */
  function RowOf(key: string, offset: nat, length: nat): EntryInfo {
    EntryInfo(SplitKey(key).0, SplitKey(key).1, U32(offset), U32(length))
  }

  predicate Encodable(e: EntryInfo) {
    |e.base| < 0x100 && |e.variant| < 0x100 && e.textOffset < U32Limit && e.textLength < U32Limit
  }

  /** The size of an entry row: two length bytes, the token, the variant
      and two 32-bit fields. */
  function EntrySize(e: EntryInfo): nat {
    10 + |e.base| + |e.variant|
  }

  function EntriesSize(infos: seq<EntryInfo>): nat {
    if infos == [] then 0 else EntrySize(infos[0]) + EntriesSize(infos[1..])
  }

  /** One entry-table row. */
  function EncodeEntry(e: EntryInfo): (bytes: seq<byte>)
    requires Encodable(e)
    ensures |bytes| == EntrySize(e)
  {
    [|e.base|] + OfString(e.base) + [|e.variant|] + OfString(e.variant)
      + Le32(e.textOffset) + Le32(e.textLength)
  }

  function EncodeEntries(infos: seq<EntryInfo>): (bytes: seq<byte>)
    requires forall e :: e in infos ==> Encodable(e)
    ensures |bytes| == EntriesSize(infos)
  {
    if infos == [] then [] else EncodeEntry(infos[0]) + EncodeEntries(infos[1..])
  }

  /** The total length of the texts stored under `keys`. */
  function TextsSize(keys: seq<string>, catalog: map<string, string>): nat
    requires forall k :: k in keys ==> k in catalog
  {
    if keys == [] then 0 else |catalog[keys[0]]| + TextsSize(keys[1..], catalog)
  }

  /** The texts back to back, in key order. */
  function StringTable(keys: seq<string>, catalog: map<string, string>): (table: seq<byte>)
    requires forall k :: k in keys ==> k in catalog
    ensures |table| == TextsSize(keys, catalog)
  {
    if keys == [] then [] else OfString(catalog[keys[0]]) + StringTable(keys[1..], catalog)
  }

  /** Metadata strings are cut to 65535 bytes. */
  function Capped(s: string): (r: string)
    ensures |r| <= MaxMetaLength
    ensures |s| <= MaxMetaLength ==> r == s
  {
    if |s| <= MaxMetaLength then s else s[..MaxMetaLength]
  }

  function MetadataBlock(locale: string, fallback: string, note: string): (block: seq<byte>)
    ensures |block| == MetadataHeaderSize + |Capped(locale)| + |Capped(fallback)| + |Capped(note)|
    ensures |block| < U32Limit
  {
    var l := Capped(locale);
    var f := Capped(fallback);
    var n := Capped(note);
    Le16(|l|) + Le16(|f|) + Le16(|n|) + OfString(l) + OfString(f) + OfString(n)
  }

  /** The version-2 checksum: FNV-1a continued over the metadata block (when
      there is one), the entry table and the string table. */
  function ChecksumV2(metadata: seq<byte>, entries: seq<byte>, strings: seq<byte>): u32 {
    var h := if |metadata| > 0 then Fnv1a32Append(FnvOffsetBasis, metadata) else FnvOffsetBasis;
    Fnv1a32Append(Fnv1a32Append(h, entries), strings)
  }

  /** The checksum is the FNV-1a hash of everything after the header, taken
      in one pass. */
  lemma ChecksumV2IsHashOfBody(metadata: seq<byte>, entries: seq<byte>, strings: seq<byte>)
    ensures ChecksumV2(metadata, entries, strings) == Fnv1a32(metadata + entries + strings)
  {
    Fnv1a32IsSeededAppend(metadata + entries + strings);
    Fnv1a32AppendConcat(FnvOffsetBasis, metadata + entries, strings);
    Fnv1a32AppendConcat(FnvOffsetBasis, metadata, entries);
    if |metadata| == 0 {
      assert metadata + entries == entries;
    }
  }

  function Header(plural: PluralRule, count: nat, tableSize: nat, checksum: u32, metadataSize: nat): (h: seq<byte>)
    requires count < U32Limit && tableSize < U32Limit && metadataSize < U32Limit
    ensures |h| == HeaderSizeV2 && h[..4] == Magic && h[4] == VersionCurrent
    ensures h[6] == PluralCode(plural)
    ensures ReadLe32(h, 8) == count && ReadLe32(h, 12) == tableSize
    ensures ReadLe32(h, 16) == checksum && ReadLe32(h, 20) == metadataSize
  {
    var h := Magic + [VersionCurrent, 0, PluralCode(plural), 0]
      + Le32(count) + Le32(tableSize) + Le32(checksum) + Le32(metadataSize);
    ReadLe32OfLe32(h, 8, count);
    ReadLe32OfLe32(h, 12, tableSize);
    ReadLe32OfLe32(h, 16, checksum);
    ReadLe32OfLe32(h, 20, metadataSize);
    h
  }

  lemma LayoutEncodable(keys: seq<string>, catalog: map<string, string>, offset: nat)
    requires forall k :: k in keys ==> k in catalog && ExportableKey(k)
    ensures forall e :: e in Layout(keys, catalog, offset) ==> Encodable(e)
  {
    if keys != [] {
      SplitKeyShape(keys[0]);
      LayoutEncodable(keys[1..], catalog, offset + |catalog[keys[0]]|);
    }
  }

  /** `export_binary_catalog` up to the file write: the buffer, or nothing
      when the catalog is empty or holds a key without a hex base. The
      source takes locale, fallback, note and plural rule from the engine's
      `meta_*` fields; the model takes them from the active snapshot, which
      holds the same values whenever `Engine.MetaMatches` does, and every
      engine operation keeps that. */
  function Export(s: Snapshot): (r: Option<seq<byte>>)
    ensures r.Some? <==> |s.catalog| > 0 && forall k :: k in s.catalog ==> ExportableKey(k)
    ensures r.Some? ==> LooksLikeBinary(r.value) && |r.value| >= HeaderSizeV2 + MetadataHeaderSize
  {
    if |s.catalog| == 0 then None
    else if !(forall k :: k in s.catalog ==> ExportableKey(k)) then None
    else Some(ExportBuffer(s))
  }

  function ExportBuffer(s: Snapshot): (buffer: seq<byte>)
    requires forall k :: k in s.catalog ==> ExportableKey(k)
    ensures LooksLikeBinary(buffer) && |buffer| >= HeaderSizeV2 + MetadataHeaderSize
  {
    var keys := SortedKeys(s.catalog);
    var infos := Layout(keys, s.catalog, 0);
    LayoutEncodable(keys, s.catalog, 0);
    var entries := EncodeEntries(infos);
    var strings := StringTable(keys, s.catalog);
    var metadata := MetadataBlock(s.locale, s.fallback, s.note);
    var checksum := ChecksumV2(metadata, entries, strings);
    var header := Header(s.plural, U32(|keys|), U32(|strings|), checksum, |metadata|);
    HeaderIsRecognised(header, metadata + entries + strings);
    header + (metadata + entries + strings)
  }

  lemma HeaderIsRecognised(header: seq<byte>, body: seq<byte>)
    requires |header| == HeaderSizeV2 && header[..4] == Magic && header[4] == VersionCurrent
    requires |body| >= MetadataHeaderSize
    ensures LooksLikeBinary(header + body) && |header + body| >= HeaderSizeV2 + MetadataHeaderSize
  {
    assert (header + body)[..4] == header[..4];
  }

  // ---------------------------------------------------------------------
  // Decoder

  /** The metadata block at `start`, `size` bytes long (no block when 0). */
  function DecodeMetadata(data: seq<byte>, start: nat, size: nat): (r: Result<(string, string, string), DecodeError>)
    requires size == 0 || size >= MetadataHeaderSize
    ensures r.Ok? ==> IsByteString(r.value.0) && IsByteString(r.value.1) && IsByteString(r.value.2)
    ensures size == 0 ==> r == Ok(("", "", ""))
    ensures size > 0 && start + size > |data| ==> r == Err(MetadataOverflow)
    ensures r.Ok? && size > 0 ==> (start + size <= |data| &&
      MetadataHeaderSize + ReadLe16(data, start) + ReadLe16(data, start + 2) + ReadLe16(data, start + 4) == size)
    ensures r == Err(MetadataInconsistent) <==> (size > 0 && start + size <= |data| &&
      MetadataHeaderSize + ReadLe16(data, start) + ReadLe16(data, start + 2) + ReadLe16(data, start + 4) != size)
    ensures r.Err? ==> r.error.MetadataOverflow? || r.error.MetadataInconsistent?
  {
    if size == 0 then Ok(("", "", ""))
    else if start + size > |data| then Err(MetadataOverflow)
    else
      var localeLen := ReadLe16(data, start);
      var fallbackLen := ReadLe16(data, start + 2);
      var noteLen := ReadLe16(data, start + 4);
      if MetadataHeaderSize + localeLen + fallbackLen + noteLen != size then Err(MetadataInconsistent)
      else
        var c := start + MetadataHeaderSize;
        var locale := CharsAt(data, c, localeLen);
        var fallback := CharsAt(data, c + localeLen, fallbackLen);
        var note := CharsAt(data, c + localeLen + fallbackLen, noteLen);
        Ok((locale, fallback, note))
  }

  /** A decoded metadata block's three texts, in order, are the block's
      bytes after its six-byte header, each as long as its length field. */
  lemma MetadataTexts(data: seq<byte>, start: nat, size: nat)
    requires size >= MetadataHeaderSize
    requires DecodeMetadata(data, start, size).Ok?
    ensures var (locale, fallback, note) := DecodeMetadata(data, start, size).value;
      && start + size <= |data|
      && |locale| == ReadLe16(data, start) && |fallback| == ReadLe16(data, start + 2)
      && |note| == ReadLe16(data, start + 4)
      && locale + fallback + note == CharsAt(data, start + MetadataHeaderSize, size - MetadataHeaderSize)
  {
    var (locale, fallback, note) := DecodeMetadata(data, start, size).value;
    var all := CharsAt(data, start + MetadataHeaderSize, size - MetadataHeaderSize);
    var l, f := |locale|, |fallback|;
    forall i | 0 <= i < |all| ensures (locale + fallback + note)[i] == all[i] {
      if i < l {
      } else if i < l + f {
        assert fallback[i - l] as int == data[start + MetadataHeaderSize + l + (i - l)];
      } else {
        assert note[i - l - f] as int == data[start + MetadataHeaderSize + l + f + (i - l - f)];
      }
    }
  }

  /** What a decoded entry row satisfies. */
  predicate ValidEntry(e: EntryInfo) {
    IsHexToken(e.base) && IsLowerString(e.base) && (e.variant == "" || IsVariantValid(e.variant))
  }

  /** One entry-table row at `offset`, and the offset after it. */
  function ParseEntry(data: seq<byte>, offset: nat): (r: Result<(EntryInfo, nat), DecodeError>)
    ensures r.Ok? ==> offset < r.value.1 <= |data| && ValidEntry(r.value.0)
    ensures r.Err? ==> r.error.IsRowError()
  {
    if offset >= |data| then Err(EntryTableTruncated)
    else
      var tokenLen := data[offset];
      var o1 := offset + 1;
      if tokenLen < 6 || tokenLen > 32 then Err(BadTokenLength)
      else if o1 + tokenLen > |data| then Err(TokenOverrun)
      else
        var base := ToLower(CharsAt(data, o1, tokenLen));
        ToLowerIsLower(CharsAt(data, o1, tokenLen));
        ParseEntryTail(data, base, o1 + tokenLen)
  }

  /** The rest of a row once its token is read: the variant, then the text
      range. The source reads the variant-length byte without checking that
      it is inside the buffer; the model rejects that case
      (`VariantLengthMissing`). */
  function ParseEntryTail(data: seq<byte>, base: string, o2: nat): (r: Result<(EntryInfo, nat), DecodeError>)
    requires IsLowerString(base)
    ensures r.Ok? ==> o2 < r.value.1 <= |data| && ValidEntry(r.value.0) && r.value.0.base == base
    ensures r.Err? ==> r.error.IsRowError()
  {
    if o2 >= |data| then Err(VariantLengthMissing)
    else
      var variantLen := data[o2];
      var o3 := o2 + 1;
      if variantLen > 0 && o3 + variantLen > |data| then Err(VariantOverrun)
      else
        var variant := if variantLen > 0 then ToLower(CharsAt(data, o3, variantLen)) else "";
        var o4 := o3 + variantLen;
        if variantLen > 0 && !IsVariantValid(variant) then Err(BadVariant)
        else if !IsHexToken(base) then Err(TokenNotHex)
        else if o4 + 8 > |data| then Err(EntryTooShort)
        else
          Ok((EntryInfo(base, variant, ReadLe32(data, o4), ReadLe32(data, o4 + 4)), o4 + 8))
  }

  /** `count` consecutive entry rows starting at `offset`. */
  function ParseEntries(data: seq<byte>, offset: nat, count: nat): (r: Result<(seq<EntryInfo>, nat), DecodeError>)
    requires offset <= |data|
    ensures r.Ok? ==> |r.value.0| == count && offset <= r.value.1 <= |data|
    ensures r.Ok? ==> forall e :: e in r.value.0 ==> ValidEntry(e)
    ensures r.Err? ==> r.error.IsRowError()
    decreases count
  {
    if count == 0 then Ok(([], offset))
    else
      var first := ParseEntry(data, offset);
      if first.Err? then Err(first.error)
      else
        var rest := ParseEntries(data, first.value.1, count - 1);
        if rest.Err? then Err(rest.error)
        else Ok(([first.value.0] + rest.value.0, rest.value.1))
  }

  /** Adds the decoded entries to the catalog and the plural-variant index,
      rejecting text ranges outside the string table and repeated keys. */
  function CollectEntries(infos: seq<EntryInfo>, table: seq<byte>,
                          catalog: map<string, string>, variants: map<string, set<string>>)
    : (r: Result<(map<string, string>, map<string, set<string>>), DecodeError>)
    ensures r.Ok? ==> forall e :: e in infos ==> e.textOffset + e.textLength <= |table|
    ensures r == Err(TextOutOfRange) ==> exists e :: e in infos && e.textOffset + e.textLength > |table|
    ensures r.Err? ==> r.error.TextOutOfRange? || r.error.DuplicateEntry?
    decreases |infos|
  {
    if infos == [] then Ok((catalog, variants))
    else
      var e := infos[0];
      if e.textOffset + e.textLength > |table| then Err(TextOutOfRange)
      else
        var value := CharsAt(table, e.textOffset, e.textLength);
        var key := KeyOf(e.base, e.variant);
        if key in catalog then Err(DuplicateEntry)
        else
          var r := CollectEntries(infos[1..], table, catalog[key := value], RecordVariant(variants, e));
          assert forall x :: x in infos[1..] ==> x in infos;
          r
  }

  /** Collecting valid entries keeps the catalog invariant. */
  lemma {:induction false} CollectEntriesInvariant(infos: seq<EntryInfo>, table: seq<byte>,
                                                   catalog: map<string, string>, variants: map<string, set<string>>)
    requires forall e :: e in infos ==> ValidEntry(e)
    requires CatalogInvariant(catalog, variants)
    requires CollectEntries(infos, table, catalog, variants).Ok?
    ensures var r := CollectEntries(infos, table, catalog, variants).value;
      CatalogInvariant(r.0, r.1)
    decreases |infos|
  {
    if infos != [] {
      var e := infos[0];
      assert e in infos;
      assert forall x :: x in infos[1..] ==> x in infos;
      var value := CollectUnfold(infos, table, catalog, variants);
      CollectStep(catalog, variants, e, value);
      CollectEntriesInvariant(infos[1..], table, catalog[KeyOf(e.base, e.variant) := value], RecordVariant(variants, e));
    }
  }

  /** Every collected entry adds a key of its own: a successful collection
      grows the catalog by exactly the number of entries, so no two entries
      share a key. */
  lemma {:induction false} CollectEntriesCount(infos: seq<EntryInfo>, table: seq<byte>,
                                               catalog: map<string, string>, variants: map<string, set<string>>)
    requires CollectEntries(infos, table, catalog, variants).Ok?
    ensures var r := CollectEntries(infos, table, catalog, variants).value;
      |r.0| == |catalog| + |infos| && catalog.Keys <= r.0.Keys
    decreases |infos|
  {
    if infos != [] {
      var e := infos[0];
      var value := CollectUnfold(infos, table, catalog, variants);
      var key := KeyOf(e.base, e.variant);
      assert key !in catalog;
      CollectEntriesCount(infos[1..], table, catalog[key := value], RecordVariant(variants, e));
    }
  }

  /** The first step of a successful `CollectEntries`, and the text it
      stores. */
  lemma CollectUnfold(infos: seq<EntryInfo>, table: seq<byte>,
                      catalog: map<string, string>, variants: map<string, set<string>>)
    returns (value: string)
    requires infos != []
    requires CollectEntries(infos, table, catalog, variants).Ok?
    ensures IsByteString(value)
    ensures KeyOf(infos[0].base, infos[0].variant) !in catalog
    ensures CollectEntries(infos, table, catalog, variants)
         == CollectEntries(infos[1..], table, catalog[KeyOf(infos[0].base, infos[0].variant) := value],
                           RecordVariant(variants, infos[0]))
  {
    var e := infos[0];
    value := CharsAt(table, e.textOffset, e.textLength);
  }

  /** What the decoder keeps true of the catalog it is building: canonical
      keys, byte-string texts and an exact plural-variant index. */
  ghost predicate CatalogInvariant(catalog: map<string, string>, variants: map<string, set<string>>) {
    && (forall k :: k in catalog ==> CanonicalKey(k) && IsByteString(catalog[k]))
    && variants == VariantsOf(catalog.Keys)
  }

  /** The decoder's explicit `plural_variants[base].insert(variant)`. */
  function RecordVariant(variants: map<string, set<string>>, e: EntryInfo): map<string, set<string>> {
    if e.variant != "" then variants[e.base := (if e.base in variants then variants[e.base] else {}) + {e.variant}]
    else variants
  }

  lemma CollectStep(catalog: map<string, string>, variants: map<string, set<string>>, e: EntryInfo, value: string)
    requires CatalogInvariant(catalog, variants) && ValidEntry(e) && IsByteString(value)
    ensures CatalogInvariant(catalog[KeyOf(e.base, e.variant) := value], RecordVariant(variants, e))
  {
    var key := KeyOf(e.base, e.variant);
    CanonicalKeyOfParts(e.base, e.variant);
    RecordEntryVariant(catalog.Keys, e);
    assert (catalog[key := value]).Keys == catalog.Keys + {key};
  }

  /** Recording an entry's variant is the index update for the entry's key. */
  lemma RecordEntryVariant(keys: set<string>, e: EntryInfo)
    requires ValidEntry(e)
    ensures RecordVariant(VariantsOf(keys), e) == VariantsOf(keys + {KeyOf(e.base, e.variant)})
  {
    var key := KeyOf(e.base, e.variant);
    CanonicalKeyOfParts(e.base, e.variant);
    AddVariantExtends(keys, key);
    if e.variant == "" {
      assert NoChar(e.base, '{') by {
        forall i | 0 <= i < |e.base| ensures e.base[i] != '{' {
          assert IsHexDigit(e.base[i]);
        }
      }
      assert FindChar(e.base, '{', 0).None?;
    } else {
      assert ParseVariantSuffix(key) == Some((e.base, e.variant));
    }
  }

  /** The version-2 checksum the decoder recomputes from the buffer. */
  function RecomputedChecksum(data: seq<byte>, v2: bool, metadataStart: nat, entryStart: nat,
                              stringsBase: nat, tableSize: nat): u32
    requires metadataStart <= entryStart <= stringsBase && stringsBase + tableSize <= |data|
  {
    if !v2 then Fnv1a32(data[stringsBase..stringsBase + tableSize])
    else ChecksumV2(data[metadataStart..entryStart], data[entryStart..stringsBase],
                    data[stringsBase..stringsBase + tableSize])
  }

  /** `build_snapshot_from_binary`. The source reads the metadata size at
      bytes 20-23 of a version-2 buffer that may be only 20 bytes long; the
      model rejects a version-2 buffer shorter than its 24-byte header
      (`HeaderTruncated`). */
  function Decode(data: seq<byte>, strict: bool): (r: Result<Snapshot, DecodeError>)
    ensures |data| < HeaderSizeV1 ==> r == Err(HeaderTooShort)
    ensures r.Ok? ==> LooksLikeBinary(data)
  {
    var sections := DecodeSections(data);
    if sections.Err? then Err(sections.error) else DecodeTable(data, strict, sections.value)
  }

  /** What the stages before the string table found: the version, the
      header size, where the entry table and the string table start, the
      parsed entries and the metadata. */
  datatype Sections = Sections(v2: bool, headerSize: nat, entryStart: nat, infos: seq<EntryInfo>,
                               stringsBase: nat, meta: (string, string, string))

  /** The sections lie in order inside the buffer, behind a header of the
      version's size. */
  predicate SectionsFit(data: seq<byte>, sections: Sections) {
    && HeaderSizeV1 <= sections.headerSize <= sections.entryStart <= sections.stringsBase <= |data|
    && (sections.v2 ==> sections.headerSize == HeaderSizeV2)
  }

  /** The header, metadata and entry-table stages of the decoder. */
  function DecodeSections(data: seq<byte>): (r: Result<Sections, DecodeError>)
    ensures |data| < HeaderSizeV1 ==> r == Err(HeaderTooShort)
    ensures r.Ok? ==> LooksLikeBinary(data) && SectionsFit(data, r.value)
    ensures r.Ok? ==> forall e :: e in r.value.infos ==> ValidEntry(e)
    ensures r.Ok? ==> IsByteString(r.value.meta.0) && IsByteString(r.value.meta.1) && IsByteString(r.value.meta.2)
    ensures r.Err? ==> r.error.BeforeStringTable()
  {
    var header := DecodeHeader(data);
    if header.Err? then Err(header.error)
    else
      var h := header.value;
      var meta := DecodeMetadata(data, h.size, h.metadataSize);
      if meta.Err? then Err(meta.error)
      else
        var entryStart := h.size + h.metadataSize;
        var parsed := ParseEntries(data, entryStart, ReadLe32(data, 8));
        if parsed.Err? then Err(parsed.error)
        else Ok(Sections(h.v2, h.size, entryStart, parsed.value.0, parsed.value.1, meta.value))
  }

  /** What the fixed header says about the rest of the buffer. */
  datatype HeaderInfo = HeaderInfo(v2: bool, size: nat, metadataSize: nat)

  /** The checks on the fixed header: length, magic, version, and for
      version 2 the metadata size, which must fit in the buffer and be
      either zero or large enough for the metadata's own header. */
  function DecodeHeader(data: seq<byte>): (r: Result<HeaderInfo, DecodeError>)
    ensures |data| < HeaderSizeV1 ==> r == Err(HeaderTooShort)
    ensures r.Err? ==> r.error.BeforeStringTable() && !r.error.IsRowError()
    ensures r.Ok? <==> LooksLikeBinary(data) && (data[4] == VersionCurrent ==>
      |data| >= HeaderSizeV2 &&
      var size := ReadLe32(data, 20);
      size <= |data| - HeaderSizeV2 && (size == 0 || size >= MetadataHeaderSize))
    ensures r.Ok? ==> && (r.value.v2 <==> data[4] == VersionCurrent)
                      && r.value.size == (if r.value.v2 then HeaderSizeV2 else HeaderSizeV1)
                      && r.value.metadataSize == (if r.value.v2 then ReadLe32(data, 20) else 0)
                      && r.value.size + r.value.metadataSize <= |data|
  {
    if |data| < HeaderSizeV1 then Err(HeaderTooShort)
    else if data[..4] != Magic then Err(UnknownFormat)
    else if data[4] != VersionV1 && data[4] != VersionCurrent then Err(UnsupportedVersion)
    else
      var v2 := data[4] == VersionCurrent;
      var headerSize := if v2 then HeaderSizeV2 else HeaderSizeV1;
      if v2 && |data| < HeaderSizeV2 then Err(HeaderTruncated)
      else
        var metadataSize := if v2 then ReadLe32(data, 20) else 0;
        if v2 && metadataSize > |data| - headerSize then Err(MetadataTooLarge)
        else if v2 && 0 < metadataSize < MetadataHeaderSize then Err(MetadataTooShort)
        else Ok(HeaderInfo(v2, headerSize, metadataSize))
  }

  // ---------------------------------------------------------------------
  // The decoder's checks as written, before two reads past the buffer

  /** The range of `size_t`. */
  const SizeLimit: nat := 0x1_0000_0000_0000_0000

  /** `size - header_size` on `size_t`, as the metadata-size check computes
      it: below zero the subtraction wraps around. */
  function WrappedRoom(size: nat, headerSize: nat): (room: nat)
    requires size < SizeLimit && headerSize < SizeLimit
    ensures room < SizeLimit
    ensures size >= headerSize ==> room == size - headerSize
    ensures size < headerSize ==> room >= SizeLimit - headerSize
  {
    (size - headerSize) % SizeLimit
  }

  /** The header checks as the source writes them: the length is held only
      against the 20-byte version-1 header, and a version-2 metadata size is
      compared with the wrapped room. `metadataSize` stands for whatever the
      four bytes at 20-23 hold, read whether or not they are in the buffer. */
  predicate HeaderAcceptsAsWritten(data: seq<byte>, metadataSize: nat)
    requires |data| < SizeLimit
  {
    && LooksLikeBinary(data)
    && (data[4] == VersionCurrent ==>
          && metadataSize <= WrappedRoom(|data|, HeaderSizeV2)
          && (metadataSize == 0 || metadataSize >= MetadataHeaderSize))
  }

  /** A version-2 header cut off after 20 bytes. */
  const ShortV2Header: seq<byte> := Magic + [VersionCurrent] + seq(15, _ => 0)

  /** The 20-byte version-2 header passes every header check as written,
      whatever metadata size is found past its end, although the size field
      it reads ends at byte 24; the corrected check rejects it. */
  lemma ShortV2HeaderAccepted(metadataSize: nat)
    requires metadataSize < U32Limit && (metadataSize == 0 || metadataSize >= MetadataHeaderSize)
    ensures HeaderAcceptsAsWritten(ShortV2Header, metadataSize)
    ensures |ShortV2Header| < 20 + 4
    ensures DecodeHeader(ShortV2Header) == Err(HeaderTruncated)
  {
    assert |ShortV2Header| == 20 && ShortV2Header[4] == VersionCurrent;
    assert WrappedRoom(20, HeaderSizeV2) >= SizeLimit - HeaderSizeV2;
  }

  /** The row checks as the source writes them before it reads the
      variant-length byte: the row starts inside the buffer and its token
      fits. The byte read next sits at `offset + 1 + token length`. */
  predicate RowHeadAcceptsAsWritten(data: seq<byte>, offset: nat) {
    offset < |data| && 6 <= data[offset] <= 32 && offset + 1 + data[offset] <= |data|
  }

  /** A row that ends right after its six-digit token. */
  const TokenOnlyRow: seq<byte> := [6, 0x61, 0x62, 0x63, 0x64, 0x65, 0x66]

  /** The row passes the checks as written, yet the variant-length byte the
      source reads next is one past the end of the buffer; the corrected
      parser rejects the row. */
  lemma TokenOnlyRowAccepted()
    ensures RowHeadAcceptsAsWritten(TokenOnlyRow, 0)
    ensures 0 + 1 + TokenOnlyRow[0] == |TokenOnlyRow|
    ensures ParseEntry(TokenOnlyRow, 0) == Err(VariantLengthMissing)
  {
    assert ParseEntryTail(TokenOnlyRow, ToLower(CharsAt(TokenOnlyRow, 1, 6)), 7) == Err(VariantLengthMissing);
  }

  /** The string table: its bounds, the checksum, and the entries' texts. */
  function DecodeTable(data: seq<byte>, strict: bool, sections: Sections): (r: Result<Snapshot, DecodeError>)
    requires SectionsFit(data, sections)
  {
    var base := sections.stringsBase;
    var tableSize := ReadLe32(data, 12);
    if base + tableSize > |data| then Err(StringTableTooShort)
    else if RecomputedChecksum(data, sections.v2, sections.headerSize, sections.entryStart, base, tableSize)
              != ReadLe32(data, 16) && strict then Err(ChecksumMismatch)
    else
      var collected := CollectEntries(sections.infos, data[base..base + tableSize], map[], map[]);
      if collected.Err? then Err(collected.error)
      else if |collected.value.0| == 0 then Err(NoEntries)
      else
        Ok(Snapshot(collected.value.0, map[], collected.value.1, sections.meta.0, sections.meta.1,
                    sections.meta.2, PluralFromCode(if sections.v2 then data[6] else 0)))
  }

  /** The checksum check of a strict decode: once the stages before the
      string table pass and the table fits, a strict decode fails with
      `ChecksumMismatch` exactly when the recomputed checksum differs from
      the stored one. */
  lemma DecodeStrictChecksum(data: seq<byte>)
    requires DecodeSections(data).Ok?
    requires DecodeSections(data).value.stringsBase + ReadLe32(data, 12) <= |data|
    ensures var s := DecodeSections(data).value;
      Decode(data, true) == Err(ChecksumMismatch) <==>
        RecomputedChecksum(data, s.v2, s.headerSize, s.entryStart, s.stringsBase, ReadLe32(data, 12)) != ReadLe32(data, 16)
  {
    var s := DecodeSections(data).value;
    var r := CollectEntries(s.infos, data[s.stringsBase..s.stringsBase + ReadLe32(data, 12)], map[], map[]);
    assert r.Err? ==> r.error != ChecksumMismatch;
  }

  /** A buffer a strict decode accepts carries the checksum of its own
      contents. */
  lemma DecodeStrictMatchesChecksum(data: seq<byte>)
    ensures Decode(data, true).Ok? ==> DecodeSections(data).Ok?
    ensures Decode(data, true).Ok? ==> var s := DecodeSections(data).value;
      && s.stringsBase + ReadLe32(data, 12) <= |data|
      && RecomputedChecksum(data, s.v2, s.headerSize, s.entryStart, s.stringsBase, ReadLe32(data, 12)) == ReadLe32(data, 16)
  {
  }

  /** Strictness only adds the checksum check: what a strict decode
      accepts, a lenient decode accepts with the same snapshot. */
  lemma DecodeStrictIsLenient(data: seq<byte>)
    ensures Decode(data, true).Ok? ==> Decode(data, false) == Decode(data, true)
  {
  }

  /** A lenient decode never reports a checksum mismatch. */
  lemma DecodeLenientIgnoresChecksum(data: seq<byte>)
    ensures Decode(data, false) != Err(ChecksumMismatch)
  {
    var sections := DecodeSections(data);
    if sections.Ok? {
      var s := sections.value;
      var tableSize := ReadLe32(data, 12);
      if s.stringsBase + tableSize <= |data| {
        var r := CollectEntries(s.infos, data[s.stringsBase..s.stringsBase + tableSize], map[], map[]);
        assert r.Err? ==> r.error != ChecksumMismatch;
      }
    }
  }

  /** What every decoded snapshot satisfies: it has at least one entry and
      no labels, it is well formed, its keys are canonical, and its texts
      and metadata are byte strings. */
  ghost predicate DecodedShape(s: Snapshot) {
    && |s.catalog| > 0 && s.labels == map[]
    && WellFormed(s)
    && (forall k :: k in s.catalog ==> CanonicalKey(k) && IsByteString(s.catalog[k]))
    && IsByteString(s.locale) && IsByteString(s.fallback) && IsByteString(s.note)
  }

  /** A decoded snapshot is well formed: canonical keys, byte-string texts
      and metadata, and a plural-variant index that matches its keys. */
  lemma DecodeWellFormed(data: seq<byte>, strict: bool)
    requires Decode(data, strict).Ok?
    ensures DecodedShape(Decode(data, strict).value)
  {
    DecodeTableShape(data, strict, DecodeSections(data).value);
  }

  /** A result that, when it is a snapshot, has the decoded shape. */
  ghost predicate Shaped(r: Result<Snapshot, DecodeError>) {
    r.Ok? ==> DecodedShape(r.value)
  }

  lemma DecodeTableShape(data: seq<byte>, strict: bool, sections: Sections)
    requires SectionsFit(data, sections)
    requires forall e :: e in sections.infos ==> ValidEntry(e)
    requires IsByteString(sections.meta.0) && IsByteString(sections.meta.1) && IsByteString(sections.meta.2)
    ensures Shaped(DecodeTable(data, strict, sections))
  {
    var r := DecodeTable(data, strict, sections);
    if r.Ok? {
      var table := data[sections.stringsBase..sections.stringsBase + ReadLe32(data, 12)];
      assert CatalogInvariant(map[], map[]) by {
        assert VariantBasesBy({}, ParseVariantSuffix) == {};
      }
      CollectEntriesInvariant(sections.infos, table, map[], map[]);
      var s := r.value;
      forall k | k in s.catalog && ParseVariantSuffix(k).Some?
        ensures KeyOf(ParseVariantSuffix(k).value.0, ParseVariantSuffix(k).value.1) == k
      {
        assert CanonicalKey(k);
      }
    }
  }

  // ---------------------------------------------------------------------
  // Round trip

  /** The decoder reads back the metadata block the exporter writes. */
  lemma DecodeMetadataOfBlock(data: seq<byte>, start: nat, locale: string, fallback: string, note: string)
    requires |locale| <= MaxMetaLength && |fallback| <= MaxMetaLength && |note| <= MaxMetaLength
    requires IsByteString(locale) && IsByteString(fallback) && IsByteString(note)
    requires At(data, start, MetadataBlock(locale, fallback, note))
    ensures DecodeMetadata(data, start, |MetadataBlock(locale, fallback, note)|).Ok?
    ensures DecodeMetadata(data, start, |MetadataBlock(locale, fallback, note)|).value == (locale, fallback, note)
  {
    MetadataFieldsAt(data, start, locale, fallback, note);
    DecodeMetadataOfFields(data, start, locale, fallback, note);
  }

  /** The length fields and the texts of a metadata block written at `start`. */
  lemma MetadataFieldsAt(data: seq<byte>, start: nat, locale: string, fallback: string, note: string)
    requires |locale| <= MaxMetaLength && |fallback| <= MaxMetaLength && |note| <= MaxMetaLength
    requires IsByteString(locale) && IsByteString(fallback) && IsByteString(note)
    requires At(data, start, MetadataBlock(locale, fallback, note))
    ensures start + MetadataHeaderSize + |locale| + |fallback| + |note| <= |data|
    ensures ReadLe16(data, start) == |locale| && ReadLe16(data, start + 2) == |fallback|
    ensures ReadLe16(data, start + 4) == |note|
    ensures CharsAt(data, start + 6, |locale|) == locale
    ensures CharsAt(data, start + 6 + |locale|, |fallback|) == fallback
    ensures CharsAt(data, start + 6 + |locale| + |fallback|, |note|) == note
  {
    MetadataPartsAt(data, start, locale, fallback, note);
    ReadLe16OfLe16(data, start, |locale|);
    ReadLe16OfLe16(data, start + 2, |fallback|);
    ReadLe16OfLe16(data, start + 4, |note|);
    CharsAtOfString(data, start + 6, locale);
    CharsAtOfString(data, start + 6 + |locale|, fallback);
    CharsAtOfString(data, start + 6 + |locale| + |fallback|, note);
  }

  /** Where the parts of a metadata block sit once it is written at `start`. */
  lemma MetadataPartsAt(data: seq<byte>, start: nat, locale: string, fallback: string, note: string)
    requires |locale| <= MaxMetaLength && |fallback| <= MaxMetaLength && |note| <= MaxMetaLength
    requires At(data, start, MetadataBlock(locale, fallback, note))
    ensures At(data, start, Le16(|locale|)) && At(data, start + 2, Le16(|fallback|))
    ensures At(data, start + 4, Le16(|note|)) && At(data, start + 6, OfString(locale))
    ensures At(data, start + 6 + |locale|, OfString(fallback))
    ensures At(data, start + 6 + |locale| + |fallback|, OfString(note))
  {
    var l16, f16, n16 := Le16(|locale|), Le16(|fallback|), Le16(|note|);
    var lb, fb, nb := OfString(locale), OfString(fallback), OfString(note);
    assert MetadataBlock(locale, fallback, note) == l16 + f16 + n16 + lb + fb + nb;
    AtSplit(data, start, l16 + f16 + n16 + lb + fb, nb);
    AtSplit(data, start, l16 + f16 + n16 + lb, fb);
    AtSplit(data, start, l16 + f16 + n16, lb);
    AtSplit(data, start, l16 + f16, n16);
    AtSplit(data, start, l16, f16);
  }

  /** A metadata block whose length fields and texts agree decodes to its
      texts. */
  lemma DecodeMetadataOfFields(data: seq<byte>, start: nat, locale: string, fallback: string, note: string)
    requires start + MetadataHeaderSize + |locale| + |fallback| + |note| <= |data|
    requires ReadLe16(data, start) == |locale| && ReadLe16(data, start + 2) == |fallback|
    requires ReadLe16(data, start + 4) == |note|
    requires CharsAt(data, start + 6, |locale|) == locale
    requires CharsAt(data, start + 6 + |locale|, |fallback|) == fallback
    requires CharsAt(data, start + 6 + |locale| + |fallback|, |note|) == note
    ensures DecodeMetadata(data, start, MetadataHeaderSize + |locale| + |fallback| + |note|).Ok?
    ensures DecodeMetadata(data, start, MetadataHeaderSize + |locale| + |fallback| + |note|).value
         == (locale, fallback, note)
  {
  }

  /** Where the parts of an entry row sit once it is written at `p`. */
  lemma EntryPartsAt(data: seq<byte>, p: nat, e: EntryInfo)
    requires Encodable(e) && At(data, p, EncodeEntry(e))
    ensures var b, v := e.base, e.variant;
      && At(data, p, [|b|]) && At(data, p + 1, OfString(b))
      && At(data, p + 1 + |b|, [|v|]) && At(data, p + 2 + |b|, OfString(v))
      && At(data, p + 2 + |b| + |v|, Le32(e.textOffset))
      && At(data, p + 6 + |b| + |v|, Le32(e.textLength))
  {
    var b, v := e.base, e.variant;
    var lb: seq<byte>, lv: seq<byte> := [|b|], [|v|];
    var bb, vb := OfString(b), OfString(v);
    var off, len := Le32(e.textOffset), Le32(e.textLength);
    assert EncodeEntry(e) == lb + bb + lv + vb + off + len;
    AtSplit(data, p, lb + bb + lv + vb + off, len);
    AtSplit(data, p, lb + bb + lv + vb, off);
    AtSplit(data, p, lb + bb + lv, vb);
    AtSplit(data, p, lb + bb, lv);
    AtSplit(data, p, lb, bb);
  }

  /** The values of the fields of an entry row written at `p`, as the
      decoder reads them. */
  lemma EntryFieldsAt(data: seq<byte>, p: nat, e: EntryInfo)
    requires Encodable(e) && ValidEntry(e) && At(data, p, EncodeEntry(e))
    ensures var b, v := e.base, e.variant;
      && p + EntrySize(e) <= |data|
      && data[p] == |b|
      && ToLower(CharsAt(data, p + 1, |b|)) == b
      && data[p + 1 + |b|] == |v|
      && (v != "" ==> ToLower(CharsAt(data, p + 2 + |b|, |v|)) == v)
      && ReadLe32(data, p + 2 + |b| + |v|) == e.textOffset
      && ReadLe32(data, p + 6 + |b| + |v|) == e.textLength
  {
    EntryNumbersAt(data, p, e);
    EntryTextsAt(data, p, e);
  }

  /** The length bytes and the text range of a row written at `p`. */
  lemma EntryNumbersAt(data: seq<byte>, p: nat, e: EntryInfo)
    requires Encodable(e) && At(data, p, EncodeEntry(e))
    ensures var b, v := e.base, e.variant;
      && p + EntrySize(e) <= |data|
      && data[p] == |b| && data[p + 1 + |b|] == |v|
      && ReadLe32(data, p + 2 + |b| + |v|) == e.textOffset
      && ReadLe32(data, p + 6 + |b| + |v|) == e.textLength
  {
    var b, v := e.base, e.variant;
    EntryPartsAt(data, p, e);
    assert data[p..p + 1][0] == data[p];
    assert data[p + 1 + |b|..p + 2 + |b|][0] == data[p + 1 + |b|];
    ReadLe32OfLe32(data, p + 2 + |b| + |v|, e.textOffset);
    ReadLe32OfLe32(data, p + 6 + |b| + |v|, e.textLength);
  }

  /** The token and variant of a row written at `p`, as the decoder reads
      them. */
  lemma EntryTextsAt(data: seq<byte>, p: nat, e: EntryInfo)
    requires Encodable(e) && ValidEntry(e) && At(data, p, EncodeEntry(e))
    ensures var b, v := e.base, e.variant;
      && p + 2 + |b| + |v| <= |data|
      && ToLower(CharsAt(data, p + 1, |b|)) == b
      && (v != "" ==> ToLower(CharsAt(data, p + 2 + |b|, |v|)) == v)
  {
    var b, v := e.base, e.variant;
    EntryPartsAt(data, p, e);
    HexTokenIsByteString(b);
    ReadBackLower(data, p + 1, b);
    if v != "" {
      ValidVariantShape(v);
      ReadBackLower(data, p + 2 + |b|, v);
    }
  }

  /** A written token or variant reads back unchanged through the decoder's
      lower-casing. */
  lemma ReadBackLower(data: seq<byte>, p: nat, s: string)
    requires At(data, p, OfString(s)) && IsByteString(s) && IsLowerString(s)
    ensures ToLower(CharsAt(data, p, |s|)) == s
  {
    CharsAtOfString(data, p, s);
    ToLowerIdentity(s);
  }

  lemma HexTokenIsByteString(s: string)
    requires IsHexToken(s)
    ensures IsByteString(s)
  {
    forall i | 0 <= i < |s| ensures s[i] as int < 0x100 {
      assert IsHexDigit(s[i]);
    }
  }

  /** A parse that succeeded with `x`, stopping at `end`. */
  predicate ParsedAs<T(==)>(r: Result<(T, nat), DecodeError>, x: T, end: nat) {
    r.Ok? && r.value.0 == x && r.value.1 == end
  }

  /** The decoder reads back an entry row the exporter writes. */
  lemma ParseEntryOfEncoding(data: seq<byte>, p: nat, e: EntryInfo, end: nat)
    requires Encodable(e) && ValidEntry(e) && At(data, p, EncodeEntry(e)) && end == p + EntrySize(e)
    ensures ParsedAs(ParseEntry(data, p), e, end)
  {
    EntryFieldsAt(data, p, e);
    ParseEntryOfFields(data, p, e, end);
  }

  /** A row whose fields read back as `e`'s parses as `e`. */
  lemma ParseEntryOfFields(data: seq<byte>, p: nat, e: EntryInfo, end: nat)
    requires ValidEntry(e) && end == p + EntrySize(e) <= |data|
    requires data[p] == |e.base| && ToLower(CharsAt(data, p + 1, |e.base|)) == e.base
    requires data[p + 1 + |e.base|] == |e.variant|
    requires e.variant != "" ==> ToLower(CharsAt(data, p + 2 + |e.base|, |e.variant|)) == e.variant
    requires ReadLe32(data, p + 2 + |e.base| + |e.variant|) == e.textOffset
    requires ReadLe32(data, p + 6 + |e.base| + |e.variant|) == e.textLength
    ensures ParsedAs(ParseEntry(data, p), e, end)
  {
    ParseEntryTailOfFields(data, p + 1 + |e.base|, e, end);
  }

  /** The rest of a row, once its token has been read back. */
  lemma ParseEntryTailOfFields(data: seq<byte>, o2: nat, e: EntryInfo, end: nat)
    requires ValidEntry(e) && end == o2 + 9 + |e.variant| <= |data|
    requires data[o2] == |e.variant|
    requires e.variant != "" ==> ToLower(CharsAt(data, o2 + 1, |e.variant|)) == e.variant
    requires ReadLe32(data, o2 + 1 + |e.variant|) == e.textOffset
    requires ReadLe32(data, o2 + 5 + |e.variant|) == e.textLength
    ensures ParsedAs(ParseEntryTail(data, e.base, o2), e, end)
  {
  }

  /** An encoded row followed by a parsed table parses as one longer
      table. */
  lemma ParseEntriesCons(data: seq<byte>, p: nat, first: EntryInfo, rest: seq<EntryInfo>, next: nat, stop: nat)
    requires Encodable(first) && ValidEntry(first) && At(data, p, EncodeEntry(first)) && next == p + EntrySize(first)
    requires ParsedAs(ParseEntries(data, next, |rest|), rest, stop)
    ensures ParsedAs(ParseEntries(data, p, |rest| + 1), [first] + rest, stop)
  {
    ParseEntryOfEncoding(data, p, first, next);
    ParseEntriesStep(data, p, first, rest, next, stop);
  }

  lemma ParseEntriesStep(data: seq<byte>, p: nat, first: EntryInfo, rest: seq<EntryInfo>, next: nat, stop: nat)
    requires p <= |data|
    requires ParsedAs(ParseEntry(data, p), first, next)
    requires ParsedAs(ParseEntries(data, next, |rest|), rest, stop)
    ensures ParsedAs(ParseEntries(data, p, |rest| + 1), [first] + rest, stop)
  {
  }

  /** The decoder reads back the whole entry table the exporter writes. */
  lemma {:induction false} ParseEntriesOfEncoding(data: seq<byte>, p: nat, end: nat, infos: seq<EntryInfo>)
    requires forall e :: e in infos ==> Encodable(e) && ValidEntry(e)
    requires At(data, p, EncodeEntries(infos)) && end == p + EntriesSize(infos)
    ensures ParsedAs(ParseEntries(data, p, |infos|), infos, end)
    decreases |infos|
  {
    if infos != [] {
      var next := EncodingStep(data, p, infos);
      ParseEntriesOfEncoding(data, next, end, infos[1..]);
      ParseEntriesCons(data, p, infos[0], infos[1..], next, end);
      assert [infos[0]] + infos[1..] == infos;
    }
  }

  /** An encoded table is its first row followed by the rest of the
      table. */
  lemma EncodingStep(data: seq<byte>, p: nat, infos: seq<EntryInfo>) returns (next: nat)
    requires infos != []
    requires forall e :: e in infos ==> Encodable(e) && ValidEntry(e)
    requires At(data, p, EncodeEntries(infos))
    ensures next == p + EntrySize(infos[0]) && Encodable(infos[0]) && ValidEntry(infos[0])
    ensures At(data, p, EncodeEntry(infos[0]))
    ensures At(data, next, EncodeEntries(infos[1..]))
    ensures p + EntriesSize(infos) == next + EntriesSize(infos[1..])
    ensures forall e :: e in infos[1..] ==> Encodable(e) && ValidEntry(e)
  {
    var first, rest := infos[0], infos[1..];
    next := p + EntrySize(first);
    assert first in infos;
    assert forall e :: e in rest ==> e in infos;
    AtSplit(data, p, EncodeEntry(first), EncodeEntries(rest));
  }

  /** Rows laid out for canonical keys are rows the decoder accepts. */
  lemma LayoutValid(keys: seq<string>, catalog: map<string, string>, offset: nat)
    requires forall k :: k in keys ==> k in catalog && CanonicalKey(k)
    ensures forall e :: e in Layout(keys, catalog, offset) ==> ValidEntry(e)
  {
    RowsValid(keys, catalog, offset);
    ValidByIndex(Layout(keys, catalog, offset));
  }

  lemma ValidByIndex(rows: seq<EntryInfo>)
    requires forall i :: 0 <= i < |rows| ==> ValidEntry(rows[i])
    ensures forall e :: e in rows ==> ValidEntry(e)
  {
    forall e | e in rows ensures ValidEntry(e) {
      var i :| 0 <= i < |rows| && rows[i] == e;
    }
  }

  lemma {:induction false} RowsValid(keys: seq<string>, catalog: map<string, string>, offset: nat)
    requires forall k :: k in keys ==> k in catalog && CanonicalKey(k)
    ensures forall i :: 0 <= i < |Layout(keys, catalog, offset)| ==> ValidEntry(Layout(keys, catalog, offset)[i])
    decreases |keys|
  {
    if keys != [] {
      var text := catalog[keys[0]];
      CanonicalRowValid(keys[0], offset, |text|);
      RowsValid(keys[1..], catalog, offset + |text|);
      LayoutCons(keys, catalog, offset);
    }
  }

  /** The rows of a layout: the first key's row, then the layout of the
      other keys. */
  lemma LayoutCons(keys: seq<string>, catalog: map<string, string>, offset: nat)
    requires keys != [] && forall k :: k in keys ==> k in catalog
    ensures Layout(keys, catalog, offset)[0] == RowOf(keys[0], offset, |catalog[keys[0]]|)
    ensures forall i :: 1 <= i < |keys| ==>
      Layout(keys, catalog, offset)[i] == Layout(keys[1..], catalog, offset + |catalog[keys[0]]|)[i - 1]
  {
    var head := [RowOf(keys[0], offset, |catalog[keys[0]]|)];
    var rest := Layout(keys[1..], catalog, offset + |catalog[keys[0]]|);
    forall i | 1 <= i < |keys| ensures (head + rest)[i] == rest[i - 1] {
    }
  }

  lemma CanonicalRowValid(key: string, offset: nat, length: nat)
    requires CanonicalKey(key)
    ensures ValidEntry(RowOf(key, offset, length))
  {
    SplitKeyShape(key);
  }

  /** `acc` with the entries of `catalog` named by `keys` added in order. */
  function Fill(acc: map<string, string>, keys: seq<string>, catalog: map<string, string>): map<string, string>
    requires forall k :: k in keys ==> k in catalog
    decreases |keys|
  {
    if keys == [] then acc else Fill(acc[keys[0] := catalog[keys[0]]], keys[1..], catalog)
  }

  /** Filling in every key of a catalog rebuilds it. */
  lemma {:induction false} FillAll(acc: map<string, string>, keys: seq<string>, catalog: map<string, string>)
    requires forall k :: k in keys ==> k in catalog
    requires forall k :: k in acc ==> k in catalog && acc[k] == catalog[k]
    requires forall k :: k in catalog ==> k in acc || k in keys
    ensures Fill(acc, keys, catalog) == catalog
    decreases |keys|
  {
    if keys == [] {
      assert acc == catalog;
    } else {
      var acc' := acc[keys[0] := catalog[keys[0]]];
      forall k | k in catalog ensures k in acc' || k in keys[1..] {
        if k !in acc' {
          var j :| 0 <= j < |keys| && keys[j] == k;
          assert j != 0;
          assert keys[1..][j - 1] == k;
        }
      }
      FillAll(acc', keys[1..], catalog);
    }
  }

  /** With distinct keys, the keys after the first are still absent once the
      first is inserted. */
  lemma StillAbsent(keys: seq<string>, acc: map<string, string>, text: string)
    requires keys != []
    requires forall i, j :: 0 <= i < j < |keys| ==> keys[i] != keys[j]
    requires forall k :: k in keys ==> k !in acc
    ensures forall k :: k in keys[1..] ==> k !in acc[keys[0] := text]
    ensures forall i, j :: 0 <= i < j < |keys[1..]| ==> keys[1..][i] != keys[1..][j]
  {
    forall x | x in keys[1..] ensures x !in acc[keys[0] := text] {
      var j :| 0 <= j < |keys[1..]| && keys[1..][j] == x;
      assert keys[j + 1] == x;
    }
  }

  /** Each text of `keys`, laid end to end from `offset`, reads back from
      `table`. */
  ghost predicate TextsStored(table: seq<byte>, offset: nat, keys: seq<string>, catalog: map<string, string>)
    requires forall k :: k in keys ==> k in catalog
    decreases |keys|
  {
    keys == [] ||
      (var text := catalog[keys[0]];
       && offset + |text| <= |table|
       && CharsAt(table, offset, |text|) == text
       && TextsStored(table, offset + |text|, keys[1..], catalog))
  }

  lemma {:induction false} TextsOfStringTable(table: seq<byte>, offset: nat, keys: seq<string>, catalog: map<string, string>)
    requires forall k :: k in keys ==> k in catalog && IsByteString(catalog[k])
    requires At(table, offset, StringTable(keys, catalog))
    ensures TextsStored(table, offset, keys, catalog)
    decreases |keys|
  {
    if keys != [] {
      var text := catalog[keys[0]];
      assert keys[0] in keys;
      AtSplit(table, offset, OfString(text), StringTable(keys[1..], catalog));
      CharsAtOfString(table, offset, text);
      assert forall k :: k in keys[1..] ==> k in keys;
      TextsOfStringTable(table, offset + |text|, keys[1..], catalog);
    }
  }

  /** `infos` name `keys` in order, and place their texts back to back
      from `offset`. */
  ghost predicate RowsFor(infos: seq<EntryInfo>, keys: seq<string>, catalog: map<string, string>, offset: nat)
    decreases |keys|
  {
    && |infos| == |keys|
    && (keys == [] ||
        (keys[0] in catalog && KeyOf(infos[0].base, infos[0].variant) == keys[0]
         && infos[0].textOffset == offset && infos[0].textLength == |catalog[keys[0]]|
         && RowsFor(infos[1..], keys[1..], catalog, offset + |catalog[keys[0]]|)))
  }

  // The rows-to-keys lemmas below are stated for any splitting function
  // and instantiated with `SplitKey`: they only need that splitting a key
  // and joining the parts again gives the key back.

  /** `infos` are the rows `Layout` gives `keys` from `offset` when keys are
      split by `split`, told field by field. */
  ghost predicate RowsAt(infos: seq<EntryInfo>, keys: seq<string>, catalog: map<string, string>, offset: nat,
                         split: string -> (string, string))
    decreases |keys|
  {
    && |infos| == |keys|
    && (keys == [] ||
        (keys[0] in catalog
         && infos[0].base == split(keys[0]).0 && infos[0].variant == split(keys[0]).1
         && infos[0].textOffset == U32(offset) && infos[0].textLength == U32(|catalog[keys[0]]|)
         && RowsAt(infos[1..], keys[1..], catalog, offset + |catalog[keys[0]]|, split)))
  }

  lemma {:induction false} LayoutRowsAt(keys: seq<string>, catalog: map<string, string>, offset: nat)
    requires forall k :: k in keys ==> k in catalog
    ensures RowsAt(Layout(keys, catalog, offset), keys, catalog, offset, SplitKey)
    decreases |keys|
  {
    if keys != [] {
      LayoutUnfold(keys, catalog, offset);
      LayoutRowsAt(keys[1..], catalog, offset + |catalog[keys[0]]|);
    }
  }

  /** Rows of keys that split and join back, whose texts end below the
      32-bit limit, name the keys and place their texts back to back. */
  lemma {:induction false} RowsAtFor(infos: seq<EntryInfo>, keys: seq<string>, catalog: map<string, string>, offset: nat,
                                     split: string -> (string, string))
    requires forall k :: k in keys ==> k in catalog && KeyOf(split(k).0, split(k).1) == k
    requires offset + TextsSize(keys, catalog) < U32Limit
    requires RowsAt(infos, keys, catalog, offset, split)
    ensures RowsFor(infos, keys, catalog, offset)
    decreases |keys|
  {
    if keys != [] {
      RowsAtFor(infos[1..], keys[1..], catalog, offset + |catalog[keys[0]]|, split);
    }
  }

  /** Collecting the rows laid out for distinct canonical keys over a table
      holding their texts stores every text under its key. */
  lemma {:induction false} CollectLayout(keys: seq<string>, catalog: map<string, string>, offset: nat,
                                         infos: seq<EntryInfo>, table: seq<byte>, acc: map<string, string>,
                                         accVariants: map<string, set<string>>)
    requires LayoutReady(keys, catalog, offset, table, acc) && RowsFor(infos, keys, catalog, offset)
    ensures CollectEntries(infos, table, acc, accVariants).Ok?
    ensures CollectEntries(infos, table, acc, accVariants).value.0 == Fill(acc, keys, catalog)
    decreases |keys|
  {
    if keys != [] {
      CollectLayoutStep(keys, catalog, offset, infos, table, acc, accVariants);
      CollectLayout(keys[1..], catalog, offset + |catalog[keys[0]]|, infos[1..], table,
                    acc[keys[0] := catalog[keys[0]]], RecordVariant(accVariants, infos[0]));
    }
  }

  /** Collecting the first row stores the first key's text and leaves the
      other keys ready to be collected. */
  lemma CollectLayoutStep(keys: seq<string>, catalog: map<string, string>, offset: nat, infos: seq<EntryInfo>,
                          table: seq<byte>, acc: map<string, string>, accVariants: map<string, set<string>>)
    requires keys != [] && LayoutReady(keys, catalog, offset, table, acc) && RowsFor(infos, keys, catalog, offset)
    ensures LayoutReady(keys[1..], catalog, offset + |catalog[keys[0]]|, table, acc[keys[0] := catalog[keys[0]]])
    ensures RowsFor(infos[1..], keys[1..], catalog, offset + |catalog[keys[0]]|)
    ensures CollectEntries(infos, table, acc, accVariants)
         == CollectEntries(infos[1..], table, acc[keys[0] := catalog[keys[0]]], RecordVariant(accVariants, infos[0]))
    ensures Fill(acc, keys, catalog) == Fill(acc[keys[0] := catalog[keys[0]]], keys[1..], catalog)
  {
    LayoutReadyTail(keys, catalog, offset, table, acc);
    CollectCons(infos, table, acc, accVariants, keys[0], catalog[keys[0]]);
  }

  /** What `CollectLayout` needs of the keys still to be collected: they are
      distinct canonical keys of the catalog, not collected yet, and their
      texts are stored back to back from `offset` below the 32-bit limit. */
  ghost predicate LayoutReady(keys: seq<string>, catalog: map<string, string>, offset: nat, table: seq<byte>,
                              acc: map<string, string>)
  {
    && (forall k :: k in keys ==> k in catalog)
    && (forall i, j :: 0 <= i < j < |keys| ==> keys[i] != keys[j])
    && (forall k :: k in keys ==> k !in acc)
    && TextsStored(table, offset, keys, catalog)
  }

  lemma LayoutReadyTail(keys: seq<string>, catalog: map<string, string>, offset: nat, table: seq<byte>,
                        acc: map<string, string>)
    requires keys != [] && LayoutReady(keys, catalog, offset, table, acc)
    ensures keys[0] in catalog && keys[0] !in acc
    ensures offset + |catalog[keys[0]]| <= |table|
    ensures CharsAt(table, offset, |catalog[keys[0]]|) == catalog[keys[0]]
    ensures LayoutReady(keys[1..], catalog, offset + |catalog[keys[0]]|, table, acc[keys[0] := catalog[keys[0]]])
  {
    StillAbsent(keys, acc, catalog[keys[0]]);
  }

  /** A non-empty layout is the first key's row followed by the layout of
      the other keys, from the end of the first key's text. */
  lemma LayoutUnfold(keys: seq<string>, catalog: map<string, string>, offset: nat)
    requires keys != [] && forall k :: k in keys ==> k in catalog
    ensures Layout(keys, catalog, offset)[0] == RowOf(keys[0], offset, |catalog[keys[0]]|)
    ensures Layout(keys, catalog, offset)[1..] == Layout(keys[1..], catalog, offset + |catalog[keys[0]]|)
  {
    var row, tail := RowOf(keys[0], offset, |catalog[keys[0]]|), Layout(keys[1..], catalog, offset + |catalog[keys[0]]|);
    assert Layout(keys, catalog, offset) == [row] + tail;
    DropCons(Layout(keys, catalog, offset), row, tail);
  }

  lemma DropCons<T>(s: seq<T>, x: T, t: seq<T>)
    requires s == [x] + t
    ensures s[0] == x && s[1..] == t
  {
  }

  /** One successful step of `CollectEntries`. */
  lemma CollectCons(infos: seq<EntryInfo>, table: seq<byte>, catalog: map<string, string>,
                    variants: map<string, set<string>>, key: string, value: string)
    requires infos != []
    requires infos[0].textOffset + infos[0].textLength <= |table|
    requires CharsAt(table, infos[0].textOffset, infos[0].textLength) == value
    requires KeyOf(infos[0].base, infos[0].variant) == key && key !in catalog
    ensures CollectEntries(infos, table, catalog, variants)
         == CollectEntries(infos[1..], table, catalog[key := value], RecordVariant(variants, infos[0]))
  {
  }

  /** What a snapshot needs for the binary format to carry it exactly:
      canonical keys, byte-string texts and metadata, metadata within the
      16-bit length fields, an exact plural-variant index, and counts and
      sizes within the 32-bit fields. */
  ghost predicate Representable(s: Snapshot) {
    && |s.catalog| > 0
    && (forall k :: k in s.catalog ==> CanonicalKey(k) && IsByteString(s.catalog[k]))
    && s.pluralVariants == VariantsOf(s.catalog.Keys)
    && IsByteString(s.locale) && IsByteString(s.fallback) && IsByteString(s.note)
    && |s.locale| <= MaxMetaLength && |s.fallback| <= MaxMetaLength && |s.note| <= MaxMetaLength
    && |s.catalog| < U32Limit
    && TextsSize(SortedKeys(s.catalog), s.catalog) < U32Limit
  }

  /** Where the sections of an exported buffer sit. */
  lemma BufferSections(header: seq<byte>, metadata: seq<byte>, entries: seq<byte>, strings: seq<byte>,
                        buffer: seq<byte>, e: nat, t: nat)
    requires |header| == HeaderSizeV2 && buffer == header + (metadata + entries + strings)
    requires e == HeaderSizeV2 + |metadata| && t == e + |entries|
    ensures buffer[..4] == header[..4] && buffer[4] == header[4] && buffer[6] == header[6]
    ensures ReadLe32(buffer, 8) == ReadLe32(header, 8) && ReadLe32(buffer, 12) == ReadLe32(header, 12)
    ensures ReadLe32(buffer, 16) == ReadLe32(header, 16) && ReadLe32(buffer, 20) == ReadLe32(header, 20)
    ensures t + |strings| == |buffer|
    ensures buffer[HeaderSizeV2..e] == metadata && buffer[e..t] == entries && buffer[t..] == strings
  {
    var body := metadata + entries + strings;
    ReadLe32Prefix(header, body, 8);
    ReadLe32Prefix(header, body, 12);
    ReadLe32Prefix(header, body, 16);
    ReadLe32Prefix(header, body, 20);
    SectionsAt(header, metadata, entries, strings, buffer);
    AtSplit(buffer, HeaderSizeV2, metadata + entries, strings);
    assert buffer[t..] == buffer[t..|buffer|];
  }

  /** The metadata block and entry table of an exported buffer, as windows. */
  lemma SectionsAt(header: seq<byte>, metadata: seq<byte>, entries: seq<byte>, strings: seq<byte>, buffer: seq<byte>)
    requires |header| == HeaderSizeV2 && buffer == header + (metadata + entries + strings)
    ensures At(buffer, HeaderSizeV2, metadata) && At(buffer, HeaderSizeV2 + |metadata|, entries)
  {
    var body := metadata + entries + strings;
    assert At(buffer, HeaderSizeV2, body) by { assert buffer[HeaderSizeV2..] == body; }
    AtSplit(buffer, HeaderSizeV2, metadata + entries, strings);
    AtSplit(buffer, HeaderSizeV2, metadata, entries);
  }

  /** A version-2 buffer whose header, metadata block and entry table decode
      goes on to the string-table stage with what they hold. */
  lemma DecodeOfSections(buffer: seq<byte>, metadataSize: nat, e: nat, t: nat, infos: seq<EntryInfo>,
                         meta: (string, string, string))
    requires e == HeaderSizeV2 + metadataSize && e <= t <= |buffer|
    requires buffer[..4] == Magic && buffer[4] == VersionCurrent
    requires ReadLe32(buffer, 8) == |infos| && ReadLe32(buffer, 20) == metadataSize
    requires metadataSize == 0 || metadataSize >= MetadataHeaderSize
    requires DecodeMetadata(buffer, HeaderSizeV2, metadataSize).Ok?
    requires DecodeMetadata(buffer, HeaderSizeV2, metadataSize).value == meta
    requires ParsedAs(ParseEntries(buffer, e, |infos|), infos, t)
    ensures SectionsAre(DecodeSections(buffer), true, HeaderSizeV2, e, infos, t, meta)
  {
    DecodeHeaderV2(buffer, metadataSize);
    DecodeSectionsOfStages(buffer, HeaderInfo(true, HeaderSizeV2, metadataSize), meta, infos, t);
  }

  /** `r` holds exactly the given sections. */
  ghost predicate SectionsAre(r: Result<Sections, DecodeError>, v2: bool, headerSize: nat, entryStart: nat,
                              infos: seq<EntryInfo>, stringsBase: nat, meta: (string, string, string)) {
    && r.Ok? && r.value.v2 == v2 && r.value.headerSize == headerSize && r.value.entryStart == entryStart
    && r.value.infos == infos && r.value.stringsBase == stringsBase && r.value.meta == meta
  }

  /** The sections of a buffer whose header, metadata block and entry table
      decode are what those stages found. */
  lemma DecodeSectionsOfStages(data: seq<byte>, h: HeaderInfo, meta: (string, string, string),
                               infos: seq<EntryInfo>, t: nat)
    requires DecodeHeader(data).Ok? && DecodeHeader(data).value == h
    requires DecodeMetadata(data, h.size, h.metadataSize).Ok?
    requires DecodeMetadata(data, h.size, h.metadataSize).value == meta
    requires ParsedAs(ParseEntries(data, h.size + h.metadataSize, ReadLe32(data, 8)), infos, t)
    ensures SectionsAre(DecodeSections(data), h.v2, h.size, h.size + h.metadataSize, infos, t, meta)
  {
  }

  /** The header of a version-2 buffer whose metadata size fits. */
  lemma DecodeHeaderV2(data: seq<byte>, metadataSize: nat)
    requires |data| >= HeaderSizeV2 && data[..4] == Magic && data[4] == VersionCurrent
    requires ReadLe32(data, 20) == metadataSize && metadataSize <= |data| - HeaderSizeV2
    requires metadataSize == 0 || metadataSize >= MetadataHeaderSize
    ensures DecodeHeader(data).Ok? && DecodeHeader(data).value == HeaderInfo(true, HeaderSizeV2, metadataSize)
  {
  }

  /** The string-table stage of a buffer whose sections are `metadata`,
      `entries` and `strings`, and whose entries collect to the snapshot's
      catalog and index, gives the snapshot back without its labels. */
  lemma DecodeTableOfSections(data: seq<byte>, metadata: seq<byte>, entries: seq<byte>, strings: seq<byte>,
                              e: nat, t: nat, sections: Sections, s: Snapshot)
    requires HeaderSizeV2 <= e <= t && |data| == t + |strings|
    requires sections.v2 && sections.headerSize == HeaderSizeV2 && sections.entryStart == e
    requires sections.stringsBase == t && sections.meta == (s.locale, s.fallback, s.note)
    requires ReadLe32(data, 12) == |strings| && ReadLe32(data, 16) == ChecksumV2(metadata, entries, strings)
    requires data[HeaderSizeV2..e] == metadata && data[e..t] == entries && data[t..] == strings
    requires |s.catalog| > 0 && PluralFromCode(data[6]) == s.plural
    requires var r := CollectEntries(sections.infos, strings, map[], map[]);
      r.Ok? && r.value.0 == s.catalog && r.value.1 == s.pluralVariants
    ensures DecodeTable(data, true, sections) == Ok(s.(labels := map[]))
  {
    assert data[t..t + |strings|] == strings;
    SlicedChecksum(data, e, t, metadata, entries, strings);
    SlicedCollect(data, t, sections.infos, strings);
    assert RecomputedChecksum(data, sections.v2, sections.headerSize, sections.entryStart, t, ReadLe32(data, 12))
        == ReadLe32(data, 16);
    var collected := CollectEntries(sections.infos, data[t..t + ReadLe32(data, 12)], map[], map[]);
    assert collected.value.0 == s.catalog && collected.value.1 == s.pluralVariants;
    assert s.(labels := map[])
        == Snapshot(collected.value.0, map[], collected.value.1, s.locale, s.fallback, s.note, PluralFromCode(data[6]));
  }

  lemma SlicedChecksum(data: seq<byte>, e: nat, t: nat, metadata: seq<byte>, entries: seq<byte>,
                       strings: seq<byte>)
    requires HeaderSizeV2 <= e <= t && t + |strings| <= |data|
    requires data[HeaderSizeV2..e] == metadata && data[e..t] == entries && data[t..t + |strings|] == strings
    ensures RecomputedChecksum(data, true, HeaderSizeV2, e, t, |strings|) == ChecksumV2(metadata, entries, strings)
  {
  }

  lemma SlicedCollect(data: seq<byte>, t: nat, infos: seq<EntryInfo>, strings: seq<byte>)
    requires t + |strings| <= |data| && data[t..t + |strings|] == strings
    ensures CollectEntries(infos, data[t..t + |strings|], map[], map[]) == CollectEntries(infos, strings, map[], map[])
  {
  }

  /** Exporting a representable snapshot and decoding the buffer, with the
      checksum enforced, gives the snapshot back; only the labels, which
      the binary format does not carry, are lost. */
  lemma ExportDecodeRoundTrip(s: Snapshot)
    requires Representable(s)
    ensures Export(s).Some?
    ensures Decode(Export(s).value, true) == Ok(s.(labels := map[]))
  {
    var buffer, metadata, entries, strings, infos, e, t := ExportedSections(s);
    CollectedSnapshot(s, infos, strings);
    DecodeOfSections(buffer, |metadata|, e, t, infos, (s.locale, s.fallback, s.note));
    DecodeTableOfSections(buffer, metadata, entries, strings, e, t, DecodeSections(buffer).value, s);
  }

  /** The exported buffer of a representable snapshot: a version-2 header
      that describes the metadata block, entry table and string table behind
      it, each of which decodes to what it was made from. */
  lemma ExportedSections(s: Snapshot)
    returns (buffer: seq<byte>, metadata: seq<byte>, entries: seq<byte>, strings: seq<byte>, infos: seq<EntryInfo>,
             e: nat, t: nat)
    requires Representable(s)
    ensures Export(s) == Some(buffer)
    ensures infos == Layout(SortedKeys(s.catalog), s.catalog, 0)
    ensures strings == StringTable(SortedKeys(s.catalog), s.catalog)
    ensures e == HeaderSizeV2 + |metadata| && t == e + |entries| && |buffer| == t + |strings|
    ensures buffer[..4] == Magic && buffer[4] == VersionCurrent && PluralFromCode(buffer[6]) == s.plural
    ensures ReadLe32(buffer, 8) == |infos| && ReadLe32(buffer, 12) == |strings|
    ensures ReadLe32(buffer, 16) == ChecksumV2(metadata, entries, strings) && ReadLe32(buffer, 20) == |metadata|
    ensures |metadata| == 0 || |metadata| >= MetadataHeaderSize
    ensures buffer[HeaderSizeV2..e] == metadata && buffer[e..t] == entries && buffer[t..] == strings
    ensures DecodeMetadata(buffer, HeaderSizeV2, |metadata|).Ok?
    ensures DecodeMetadata(buffer, HeaderSizeV2, |metadata|).value == (s.locale, s.fallback, s.note)
    ensures ParsedAs(ParseEntries(buffer, e, |infos|), infos, t)
  {
    var header;
    header, metadata, entries, strings, infos := ExportedParts(s);
    buffer, e, t := DecodableParts(header, metadata, entries, strings, infos, s.locale, s.fallback, s.note);
  }

  /** A header followed by a metadata block, an entry table and a string
      table: where each section sits and what the first two decode to. */
  lemma DecodableParts(header: seq<byte>, metadata: seq<byte>, entries: seq<byte>, strings: seq<byte>,
                       infos: seq<EntryInfo>, locale: string, fallback: string, note: string)
    returns (buffer: seq<byte>, e: nat, t: nat)
    requires |header| == HeaderSizeV2
    requires |locale| <= MaxMetaLength && |fallback| <= MaxMetaLength && |note| <= MaxMetaLength
    requires IsByteString(locale) && IsByteString(fallback) && IsByteString(note)
    requires metadata == MetadataBlock(locale, fallback, note)
    requires forall e :: e in infos ==> Encodable(e) && ValidEntry(e)
    requires entries == EncodeEntries(infos)
    ensures buffer == header + (metadata + entries + strings)
    ensures e == HeaderSizeV2 + |metadata| && t == e + |entries| && |buffer| == t + |strings|
    ensures buffer[..4] == header[..4] && buffer[4] == header[4] && buffer[6] == header[6]
    ensures ReadLe32(buffer, 8) == ReadLe32(header, 8) && ReadLe32(buffer, 12) == ReadLe32(header, 12)
    ensures ReadLe32(buffer, 16) == ReadLe32(header, 16) && ReadLe32(buffer, 20) == ReadLe32(header, 20)
    ensures buffer[HeaderSizeV2..e] == metadata && buffer[e..t] == entries && buffer[t..] == strings
    ensures DecodeMetadata(buffer, HeaderSizeV2, |metadata|).Ok?
    ensures DecodeMetadata(buffer, HeaderSizeV2, |metadata|).value == (locale, fallback, note)
    ensures ParsedAs(ParseEntries(buffer, e, |infos|), infos, t)
  {
    buffer := header + (metadata + entries + strings);
    e := HeaderSizeV2 + |metadata|;
    t := e + |entries|;
    BufferSections(header, metadata, entries, strings, buffer, e, t);
    MetadataSectionDecodes(header, metadata, entries, strings, locale, fallback, note);
    EntriesSectionParses(header, metadata, entries, strings, infos, buffer, e, t);
  }

  /** What the metadata block of such a buffer decodes to. */
  lemma MetadataSectionDecodes(header: seq<byte>, metadata: seq<byte>, entries: seq<byte>, strings: seq<byte>,
                               locale: string, fallback: string, note: string)
    requires |header| == HeaderSizeV2
    requires |locale| <= MaxMetaLength && |fallback| <= MaxMetaLength && |note| <= MaxMetaLength
    requires IsByteString(locale) && IsByteString(fallback) && IsByteString(note)
    requires metadata == MetadataBlock(locale, fallback, note)
    ensures DecodeMetadata(header + (metadata + entries + strings), HeaderSizeV2, |metadata|).Ok?
    ensures DecodeMetadata(header + (metadata + entries + strings), HeaderSizeV2, |metadata|).value
         == (locale, fallback, note)
  {
    SectionsAt(header, metadata, entries, strings, header + (metadata + entries + strings));
    DecodeMetadataOfBlock(header + (metadata + entries + strings), HeaderSizeV2, locale, fallback, note);
  }

  /** What the entry table of such a buffer parses to. */
  lemma EntriesSectionParses(header: seq<byte>, metadata: seq<byte>, entries: seq<byte>, strings: seq<byte>,
                             infos: seq<EntryInfo>, buffer: seq<byte>, e: nat, t: nat)
    requires |header| == HeaderSizeV2 && buffer == header + (metadata + entries + strings)
    requires e == HeaderSizeV2 + |metadata| && t == e + |entries|
    requires forall e :: e in infos ==> Encodable(e) && ValidEntry(e)
    requires entries == EncodeEntries(infos)
    ensures ParsedAs(ParseEntries(buffer, e, |infos|), infos, t)
  {
    SectionsAt(header, metadata, entries, strings, buffer);
    ParseEntriesOfEncoding(buffer, e, t, infos);
  }

  /** The parts `Export` lays end to end for a representable snapshot. */
  lemma ExportedParts(s: Snapshot)
    returns (header: seq<byte>, metadata: seq<byte>, entries: seq<byte>, strings: seq<byte>, infos: seq<EntryInfo>)
    requires Representable(s)
    ensures Export(s) == Some(header + (metadata + entries + strings))
    ensures infos == Layout(SortedKeys(s.catalog), s.catalog, 0)
    ensures strings == StringTable(SortedKeys(s.catalog), s.catalog)
    ensures metadata == MetadataBlock(s.locale, s.fallback, s.note)
    ensures forall e :: e in infos ==> Encodable(e) && ValidEntry(e)
    ensures entries == EncodeEntries(infos)
    ensures |header| == HeaderSizeV2 && header[..4] == Magic && header[4] == VersionCurrent
    ensures PluralFromCode(header[6]) == s.plural
    ensures ReadLe32(header, 8) == |infos| && ReadLe32(header, 12) == |strings|
    ensures ReadLe32(header, 16) == ChecksumV2(metadata, entries, strings) && ReadLe32(header, 20) == |metadata|
    ensures |metadata| == 0 || |metadata| >= MetadataHeaderSize
  {
    var keys := SortedKeys(s.catalog);
    ExportIsBuffer(s);
    infos := Layout(keys, s.catalog, 0);
    LayoutEncodable(keys, s.catalog, 0);
    entries := EncodeEntries(infos);
    strings := StringTable(keys, s.catalog);
    metadata := MetadataBlock(s.locale, s.fallback, s.note);
    header := Header(s.plural, U32(|keys|), U32(|strings|), ChecksumV2(metadata, entries, strings), |metadata|);
    ExportBufferParts(s, keys, infos, entries, strings, metadata, header);
    LayoutValid(keys, s.catalog, 0);
    ExportedCounts(s, keys, infos, strings);
    PluralCodeRoundTrip(s.plural);
  }

  /** A representable snapshot exports; its buffer is what `ExportBuffer`
      builds. */
  lemma ExportIsBuffer(s: Snapshot)
    requires Representable(s)
    ensures forall k :: k in s.catalog ==> ExportableKey(k)
    ensures Export(s) == Some(ExportBuffer(s))
  {
    forall k | k in s.catalog ensures ExportableKey(k) {
      assert CanonicalKey(k);
    }
  }

  /** The buffer `ExportBuffer` builds, named part by part. */
  lemma ExportBufferParts(s: Snapshot, keys: seq<string>, infos: seq<EntryInfo>, entries: seq<byte>,
                          strings: seq<byte>, metadata: seq<byte>, header: seq<byte>)
    requires forall k :: k in s.catalog ==> ExportableKey(k)
    requires keys == SortedKeys(s.catalog) && infos == Layout(keys, s.catalog, 0)
    requires forall e :: e in infos ==> Encodable(e)
    requires entries == EncodeEntries(infos) && strings == StringTable(keys, s.catalog)
    requires metadata == MetadataBlock(s.locale, s.fallback, s.note)
    requires header == Header(s.plural, U32(|keys|), U32(|strings|), ChecksumV2(metadata, entries, strings), |metadata|)
    ensures ExportBuffer(s) == header + (metadata + entries + strings)
  {
  }

  /** The exported counts fit their 32-bit fields, so the header stores
      them unchanged. */
  lemma ExportedCounts(s: Snapshot, keys: seq<string>, infos: seq<EntryInfo>, strings: seq<byte>)
    requires Representable(s)
    requires keys == SortedKeys(s.catalog) && infos == Layout(keys, s.catalog, 0)
    requires strings == StringTable(keys, s.catalog)
    ensures U32(|keys|) == |keys| == |infos| && U32(|strings|) == |strings|
  {
    KeyLessIsStrictTotalOrder();
  }

  /** The rows laid out for a representable snapshot collect to its catalog
      and its plural-variant index. */
  lemma CollectedSnapshot(s: Snapshot, infos: seq<EntryInfo>, strings: seq<byte>)
    requires Representable(s)
    requires infos == Layout(SortedKeys(s.catalog), s.catalog, 0)
    requires strings == StringTable(SortedKeys(s.catalog), s.catalog)
    ensures var r := CollectEntries(infos, strings, map[], map[]);
      r.Ok? && r.value.0 == s.catalog && r.value.1 == s.pluralVariants
  {
    var keys := SortedKeys(s.catalog);
    LayoutValid(keys, s.catalog, 0);
    SortedKeysReady(s, strings);
    LayoutRowsAt(keys, s.catalog, 0);
    forall k | k in keys ensures k in s.catalog && KeyOf(SplitKey(k).0, SplitKey(k).1) == k {
    }
    RowsAtFor(infos, keys, s.catalog, 0, SplitKey);
    CollectLayout(keys, s.catalog, 0, infos, strings, map[], map[]);
    FillAll(map[], keys, s.catalog);
    CollectedIndex(infos, strings, s);
  }

  /** The sorted keys of a representable snapshot, with its string table,
      are ready to be collected from scratch. */
  lemma SortedKeysReady(s: Snapshot, strings: seq<byte>)
    requires Representable(s)
    requires strings == StringTable(SortedKeys(s.catalog), s.catalog)
    ensures LayoutReady(SortedKeys(s.catalog), s.catalog, 0, strings, map[])
  {
    var keys := SortedKeys(s.catalog);
    SortedKeysDistinct(s.catalog);
    assert At(strings, 0, strings);
    TextsOfStringTable(strings, 0, keys, s.catalog);
  }

  lemma SortedKeysDistinct(catalog: map<string, string>)
    ensures var keys := SortedKeys(catalog);
      forall i, j :: 0 <= i < j < |keys| ==> keys[i] != keys[j]
  {
    KeyLessIsStrictTotalOrder();
    var keys := SortedKeys(catalog);
    forall i, j | 0 <= i < j < |keys| ensures keys[i] != keys[j] {
      assert KeyLess(keys[i], keys[j]);
    }
  }

  /** Collecting the rows of a well-formed snapshot's catalog rebuilds its
      plural-variant index too. */
  lemma CollectedIndex(infos: seq<EntryInfo>, strings: seq<byte>, s: Snapshot)
    requires forall e :: e in infos ==> ValidEntry(e)
    requires s.pluralVariants == VariantsOf(s.catalog.Keys)
    requires var r := CollectEntries(infos, strings, map[], map[]); r.Ok? && r.value.0 == s.catalog
    ensures CollectEntries(infos, strings, map[], map[]).value.1 == s.pluralVariants
  {
    assert CatalogInvariant(map[], map[]) by {
      assert VariantBasesBy({}, ParseVariantSuffix) == {};
    }
    CollectEntriesInvariant(infos, strings, map[], map[]);
  }
}
