# Catalog engine, modelled in Dafny

This project models the core of a small localisation and style catalog engine.
It covers:

- the text catalog loader;
- the binary catalog codec;
- the token resolver, with inline `@token` references, `@@` escapes and `%N` placeholders;
- the style registry and the style-string builder;
- the plural-variant lookup;
- the native physics record;
- the engine entry points `load_txt_catalog`, `install_snapshot`, `translate`, `translate_plural` and `get_native_style`.

It also covers the hex colour extractor of `main.cpp`, and the style-block and page-assembly helpers of the two HTML page generators.

Everything is stated over immutable values:

- text is `string`, one `char` per byte of the C++ `std::string`;
- binary buffers are `seq<byte>`;
- the engine is a record holding the active snapshot, the meta fields and the last error.

Each operation is a pure function, except two methods: `ReadDigits` and `CollectHexColors`. The properties come with proofs: round trips, error behaviour and ordering.

Modules, leaf first:

| module | file | what it holds |
|---|---|---|
| `Wrappers` | `wrappers.dfy` | `Option` and `Result` |
| `Ascii` | `ascii.dfy` | lowercasing, trimming, `find`, backslash escapes |
| `Bytes` | `bytes.dfy` | little-endian fields, byte/char views, FNV-1a |
| `Ordering` | `ordering.dfy` | byte-wise string order, least element, sorted set listing |
| `Catalog` | `catalog.dfy` | plural rules, `base{variant}` keys, the variant index, style properties, the style registry |
| `TextLoader` | `textloader.dfy` | `parse_line`, `parse_meta_line`, `build_snapshot_from_text` |
| `BinaryCodec` | `binary_codec.dfy` | `export_binary_catalog`, `build_snapshot_from_binary` |
| `Resolver` | `resolver.dfy` | `try_parse_inline_token`, `translate_impl`, `resolve_arg`, `try_build_style_string`, `scan_inline_refs` |
| `Plural` | `plural.dfy` | `pick_variant_name`, the lookup chain of `translate_plural` |
| `Physics` | `physics.dfy` | `parse_physical_value`, `apply_physical_property`, `evaluate_native_style` |
| `Engine` | `engine.dfy` | the entry points |
| `HexColors` | `hexcolors.dfy` | `hex_digit`, `collect_hex_colors` |
| `Pages` | `pages.dfy` | `split_style`, `extract_style_blocks`, `render_card_set`, the head and link assembly of `build_page` |

Where the written specification of the system and the code disagree, the model follows the code:

- A placeholder with no argument expands to the marker `⟦arg:N⟧`. It does not fail with an arity error (`Resolver.ExpandPlaceholder`).
- Tokens are case-insensitive, because every entry point lowercases its token (`Engine.TranslateIgnoresCase`).
- An unknown `base{variant}` translates to the unknown-token marker. `translate_plural` does fall back, to `{other}`, then to the least declared variant, then to the base (`Plural.PluralLookupOrder`).
- A token without physics gives the fresh record: `has_physical` false, gravity scale 1, every other field 0 (`Engine.NativeStyleOfPlainToken`).
- Labels (`token(label)`) are not part of the binary format. A binary round trip gives the snapshot back without them (`BinaryCodec.ExportDecodeRoundTrip`).
- A duplicate token stops a load in both modes. A lenient load only skips malformed lines (`TextLoader.DuplicateTokenStops`, `TextLoader.MalformedLineSkipped`).
- A lenient load with an unknown `@meta plural=` value resets the rule to the default. This is because `parse_plural_rule_name` returns the default before the strict check.

## Model

| member | source | states |
|---|---|---|
| Ascii.LowerChar | i18n_engine.cpp:211-214 | upper-case ASCII letters become lower case; every other byte is unchanged |
| Ascii.ToLower | i18n_engine.cpp:211-214 | `to_lower_ascii` keeps the length and lowercases each byte on its own |
| Ascii.ToLowerAppend | i18n_engine.cpp:211-214 | lowercasing distributes over concatenation |
| Ascii.ToLowerIsLower | i18n_engine.cpp:211-214 | the result holds no upper-case letter |
| Ascii.ToLowerIdentity | i18n_engine.cpp:211-214 | lowercasing leaves lower-case text unchanged |
| Ascii.FindChar | i18n_engine.cpp:1422 | `find` returns the first index at or after the start that holds the character, or nothing when no later index holds it |
| Ascii.Trim | i18n_engine.cpp:184-194 | `trim_inplace` leaves no white space at either end and never grows the text |
| Ascii.TrimLeft | i18n_engine.cpp:184-194 | exactly the leading white space is dropped |
| Ascii.TrimRight | i18n_engine.cpp:184-194 | exactly the trailing white space is dropped |
| Ascii.TrimOfTrimmed | i18n_engine.cpp:184-194 | trimming is idempotent on text whose ends are no white space |
| Ascii.Unescape | i18n_engine.cpp:216-236 | resolving escapes never lengthens the text |
| Ascii.UnescapeInvertsEscape | i18n_engine.cpp:216-236 | `unescape_txt_min` undoes escaping, so any text can be stored in a line, even one with newlines, backslashes or colons |
| Ascii.EscapeShape | i18n_engine.cpp:216-236 | escaped text holds no line break, and keeps non-space ends, so it survives line splitting and trimming |
| Bytes.U32 | i18n_engine.cpp:1550-1555 | the `uint32_t` cast is below 2^32 and leaves smaller sizes unchanged |
| Bytes.Chars | i18n_engine.cpp:694-696 | each byte of the buffer becomes one character of the same value |
| Bytes.CharsAt | i18n_engine.cpp:980-981 | `std::string(data + p, n)` holds the n bytes at p, in order |
| Bytes.OfString | i18n_engine.cpp:1569-1573 | each character is written as its low eight bits |
| Bytes.CharsOfString | i18n_engine.cpp:1569-1573 | reading back a written byte string gives the string |
| Bytes.OfStringAppend | i18n_engine.cpp:1569-1573 | writing distributes over concatenation |
| Bytes.Le16 | i18n_engine.cpp:43-46 | a 16-bit field takes two bytes |
| Bytes.Le32 | i18n_engine.cpp:48-53 | a 32-bit field takes four bytes |
| Bytes.ReadLe16 | i18n_engine.cpp:32-34 | a read 16-bit field is below 2^16 |
| Bytes.ReadLe32 | i18n_engine.cpp:36-41 | a read 32-bit field is below 2^32 |
| Bytes.ReadLe16OfLe16 | i18n_engine.cpp:32-46 | `read_le_u16` inverts `append_le_u16` |
| Bytes.ReadLe32OfLe32 | i18n_engine.cpp:36-53 | `read_le_u32` inverts `append_le_u32` |
| Bytes.CharsAtOfString | i18n_engine.cpp:937-943 | a byte string written at p reads back unchanged from p |
| Bytes.AtSplit | i18n_engine.cpp:1612-1617 | a window holding `a + b` holds `a`, and `b` right after it |
| Bytes.ReadLe32Prefix | i18n_engine.cpp:1612-1617 | appending bytes does not change a field read from the front |
| Bytes.Fnv1a32AppendConcat | i18n_engine.cpp:55-62 | hashing a concatenation in one go equals hashing the parts in turn, as the three-part checksum does |
| Bytes.Fnv1a32IsSeededAppend | i18n_engine.cpp:1505-1512 | `fnv1a32` is `fnv1a32_append` seeded with the FNV offset basis |
| Ordering.LexLessIsStrictTotalOrder | i18n_engine.cpp:1545-1548 | `std::string`'s `<` is irreflexive, transitive and total |
| Ordering.LexLessIrreflexive | i18n_engine.cpp:1545-1548 | no string is below itself |
| Ordering.LexLessTransitive | i18n_engine.cpp:1545-1548 | the order is transitive |
| Ordering.LexLessTotal | i18n_engine.cpp:1545-1548 | of two different strings one is below the other |
| Ordering.LeastExists | i18n_engine.cpp:1100-1102 | every non-empty finite set has a least element |
| Ordering.Least | i18n_engine.cpp:1100-1102 | `set::begin()` is a member below every other member |
| Ordering.SortedFromSet | i18n_engine.cpp:454-455 | sort followed by unique lists each element of the set exactly once, in increasing order |
| Catalog.PluralCode | i18n_engine.h:14-18 | each rule has a byte code of at most 2 |
| Catalog.PluralFromCode | i18n_engine.cpp:850-854 | known codes decode to their rule; any other code decodes to the default rule |
| Catalog.PluralCodeRoundTrip | i18n_engine.cpp:850-854 | decoding the byte of a rule gives the rule back |
| Catalog.ParsePluralRuleName | i18n_engine.cpp:337-345 | the name is accepted, in any case, exactly when it is `default`, `slavic` or `arabic`; a rejected name gives the default rule |
| Catalog.ParseVariantSuffix | i18n_engine.cpp:1346-1363 | a split gives a non-empty base without `{` and a valid variant |
| Catalog.ParseVariantSuffixJoins | i18n_engine.cpp:1346-1363 | the lowercased token is the base and the variant written out between braces |
| Catalog.ParseVariantSuffixLower | i18n_engine.cpp:1346-1363 | both parts come back lowercase |
| Catalog.ParseVariantSuffixOfJoin | i18n_engine.cpp:1346-1363 | splitting inverts writing `base{variant}`, up to case |
| Catalog.ValidVariantShape | i18n_engine.cpp:1396-1403 | a valid variant is lowercase, holds no brace and is made of bytes |
| Catalog.CanonicalKeyOfParts | i18n_engine.cpp:1346-1363 | a lowercase hex base with an optional valid variant is a canonical key, and splitting the key gives the parts back |
| Catalog.SplitKeyShape | i18n_engine.cpp:790-794 | the variant part of a split key is empty or valid |
| Catalog.VariantsOfMembership | i18n_engine.cpp:790-794 | a variant is listed for a base exactly when some key splits into that base and variant |
| Catalog.AddVariantExtends | i18n_engine.cpp:790-794 | recording keys one at a time builds the index of all of them |
| Catalog.AddPlainKeyBy | i18n_engine.cpp:790-794 | a key without a variant leaves the index unchanged |
| Catalog.AddVariantKeyBy | i18n_engine.cpp:790-794 | a variant key adds its variant to its base's set and changes nothing else |
| Catalog.HexKeyIsNotStyleToken | i18n_engine.cpp:1405-1416 | no hex token is a style token, so the two families of keys never overlap |
| Catalog.ParseStyleProperties | i18n_engine.cpp:1418-1452 | every parsed property is either named (lowercase, trimmed, hashed, non-empty value) or a bare `@` reference |
| Catalog.SplitProperties | i18n_engine.cpp:1421-1451 | the loop over `;` segments yields only well-formed properties |
| Catalog.SegmentEnd | i18n_engine.cpp:1422-1423 | the first segment holds no `;` |
| Catalog.Prepend | i18n_engine.cpp:1433-1450 | the properties are this segment's, if any, and then the ones after it |
| Catalog.ParseSegment | i18n_engine.cpp:1425-1450 | a parsed segment is a well-formed property |
| Catalog.ParsePair | i18n_engine.cpp:1439-1450 | a `name: value` pair with both sides non-empty is a well-formed named property |
| Catalog.NamedProperty | i18n_engine.cpp:1445-1449 | the name is stored lowercase, with its FNV-1a hash |
| Catalog.SegmentParts | i18n_engine.cpp:1427-1443 | around the first colon, the name holds no colon and the value no `;` |
| Catalog.ParseStylePropertiesCons | i18n_engine.cpp:1421-1451 | a style text parses as its first segment, then the rest |
| Catalog.ParseWrittenSegment | i18n_engine.cpp:1425-1450 | a property written as `name: value`, after nothing or one space, is one segment that reads back as the property |
| Catalog.StyleRegistry | i18n_engine.cpp:1493-1503 | only style tokens of the catalog are registered, each with at least one property, and every style token whose text parses to a property is registered |
| TextLoader.DropCR | i18n_engine.cpp:721-729 | exactly one trailing `\r` is dropped, and only when present |
| TextLoader.Lines | i18n_engine.cpp:721-729 | no line holds a `\n` |
| TextLoader.LinesOfJoin | i18n_engine.cpp:721-729 | splitting undoes joining with `\n` when the last line is not empty |
| TextLoader.StripBom | i18n_engine.cpp:202-209 | the UTF-8 byte order mark is dropped exactly when the text starts with it |
| TextLoader.ParseMetaLine | i18n_engine.cpp:313-335 | an accepted meta line starts with `@meta`; its key is lowercase, trimmed and free of `=`, and its value is trimmed and non-empty |
| TextLoader.SplitMeta | i18n_engine.cpp:320-334 | the pair splits at the first `=` into two trimmed, non-empty sides |
| TextLoader.MetaLineRoundTrip | i18n_engine.cpp:313-335 | a written `@meta key=value` line reads back as the key and the value |
| TextLoader.SplitHead | i18n_engine.cpp:265-283 | a head without `(` is the token alone; the head is rejected exactly when a `(` has no later `)` |
| TextLoader.NormalizeToken | i18n_engine.cpp:285-300 | a token with `{` that does not split is rejected; every accepted token comes back as a lowercase key that splits and joins to itself |
| TextLoader.ParseEntryParts | i18n_engine.cpp:259-306 | the part after the colon never yields a blank or colon-less result; an entry's key is a lowercase canonical or style key |
| TextLoader.ParseLine | i18n_engine.cpp:238-307 | blank and `#` lines are skipped; a line without `:` is malformed; an entry's key is a lowercase canonical or style key |
| TextLoader.AddEntryInv | i18n_engine.cpp:790-801 | adding a fresh key keeps the catalog, the label map and the variant index consistent |
| TextLoader.LoadLineInv | i18n_engine.cpp:731-805 | each successful line keeps the loader invariant |
| TextLoader.LoadLinesInv | i18n_engine.cpp:731-805 | the whole line loop keeps the loader invariant |
| TextLoader.BuildFromTextWellFormed | i18n_engine.cpp:712-814 | a loaded snapshot is well formed, non-empty, and holds only keys of the shape `parse_line` produces |
| TextLoader.LoadLineErrors | i18n_engine.cpp:739-799 | a late `@meta` error needs an entry seen during the meta phase; a lenient line fails only on a duplicate token |
| TextLoader.ApplyMetaErrors | i18n_engine.cpp:739-778 | meta errors occur only in strict mode |
| TextLoader.LoadParsedErrors | i18n_engine.cpp:780-799 | whatever the line parser returned, the entry step never raises the late-meta error and, leniently, fails only on a duplicate |
| TextLoader.LoadEntryErrors | i18n_engine.cpp:780-799 | an entry line never raises the late-meta error; in lenient mode it fails only on a duplicate |
| TextLoader.NoMetaAfterEntries | i18n_engine.cpp:742-748 | the "meta after entries" branch can never be reached |
| TextLoader.BuildFromTextNoMetaAfterEntries | i18n_engine.cpp:742-748 | no load of any text ends in the "meta after entries" error |
| TextLoader.StrictLineIsLenient | i18n_engine.cpp:731-805 | a line that a strict load accepts gives the same step in a lenient one |
| TextLoader.StrictMetaIsLenient | i18n_engine.cpp:739-778 | a meta line that strict mode accepts has the same effect in lenient mode |
| TextLoader.StrictEntryIsLenient | i18n_engine.cpp:780-799 | an entry line that strict mode accepts has the same effect in lenient mode |
| TextLoader.StrictLinesAreLenient | i18n_engine.cpp:731-805 | lines that a strict load accepts give the same state in a lenient one |
| TextLoader.StrictLoadIsLenient | i18n_engine.cpp:712-814 | strict mode only adds errors: whatever it builds, lenient mode builds the same |
| TextLoader.LenientLinesErrors | i18n_engine.cpp:780-799 | a lenient line loop fails only on a duplicate token |
| TextLoader.LenientLoadErrors | i18n_engine.cpp:780-810 | a lenient load fails only on a duplicate token or when no entry was loaded |
| TextLoader.DuplicateTokenStops | i18n_engine.cpp:796-799 | a second line for a loaded token stops the load in either mode, at that line |
| TextLoader.MalformedLineSkipped | i18n_engine.cpp:780-788 | a malformed line is an error in strict mode and only ends the meta phase in lenient mode |
| TextLoader.EntryLineParts | i18n_engine.cpp:238-307 | a written `key:text` line trims to itself and splits at the colon after the key |
| TextLoader.NormalizeEntryKey | i18n_engine.cpp:285-300 | normalising an entry key leaves it unchanged |
| TextLoader.ParseEntryLine | i18n_engine.cpp:238-307 | a written entry line parses back to its key and text, with no label, and is no meta line |
| TextLoader.LoadEntryLine | i18n_engine.cpp:780-801 | loading an entry line for a new key adds exactly that entry |
| TextLoader.CatalogLines | i18n_engine.cpp:721-729 | one entry line per key, in the order given |
| TextLoader.LoadEntryLines | i18n_engine.cpp:731-805 | lines that each add a fresh key's entry load as those entries, one after another |
| TextLoader.CatalogLinesStep | i18n_engine.cpp:780-801 | each line of a catalog adds its own key's entry |
| TextLoader.AddEntriesContents | i18n_engine.cpp:790-801 | adding distinct fresh keys adds exactly their texts and changes no earlier entry or label |
| TextLoader.AddEntriesMeta | i18n_engine.cpp:790-801 | adding entries changes no meta field |
| TextLoader.AddEntriesInv | i18n_engine.cpp:790-801 | adding distinct fresh keys keeps the loader invariant |
| TextLoader.LoadCatalogText | i18n_engine.cpp:712-805 | the lines of a written catalog load as its entries |
| TextLoader.TextRoundTrip | i18n_engine.cpp:712-814 | a non-empty catalog written one line per key, in any order, loads back in either mode as that catalog, with its variant index, no labels and default meta fields |
| TextLoader.AddedCatalog | i18n_engine.cpp:790-810 | adding a whole catalog to the start state gives that catalog, its index and the default meta fields |
| TextLoader.CanonicalIsEntryKey | i18n_engine.cpp:285-300 | every key of the binary format can be written as an entry line |
| BinaryCodec.KeyLessIsStrictTotalOrder | i18n_engine.cpp:1545-1548 | the exporter's order, by base and then by variant, is a strict total order |
| BinaryCodec.SortedKeys | i18n_engine.cpp:1532-1548 | the export lists every catalog key exactly once, in increasing order |
| BinaryCodec.Layout | i18n_engine.cpp:1550-1555 | there is one row per key |
| BinaryCodec.EncodeEntry | i18n_engine.cpp:1557-1567 | a row's size is its token, its variant and three length/offset fields |
| BinaryCodec.EncodeEntries | i18n_engine.cpp:1557-1567 | the table's size is the sum of its rows' sizes |
| BinaryCodec.StringTable | i18n_engine.cpp:1569-1573 | the table is as long as all texts together |
| BinaryCodec.Capped | i18n_engine.cpp:1575-1590 | metadata texts are cut to 65535 bytes, and shorter ones are kept whole |
| BinaryCodec.MetadataBlock | i18n_engine.cpp:1575-1590 | the block is the header and the three capped texts |
| BinaryCodec.ChecksumV2IsHashOfBody | i18n_engine.cpp:1592-1595 | the checksum is the FNV-1a hash of everything after the header |
| BinaryCodec.Header | i18n_engine.cpp:1600-1610 | the header holds the magic, the version, the rule byte, the count, the table size, the checksum and the metadata size, each reading back as written |
| BinaryCodec.LayoutEncodable | i18n_engine.cpp:1550-1567 | every laid-out row fits its byte-sized length fields |
| BinaryCodec.Export | i18n_engine.cpp:1514-1617 | a buffer is produced exactly when the catalog is non-empty and every key has a hex base; the buffer is recognised as binary |
| BinaryCodec.ExportBuffer | i18n_engine.cpp:1612-1617 | the buffer starts with a full version-2 header |
| BinaryCodec.DecodeMetadata | i18n_engine.cpp:860-884 | no block gives three empty texts; a block running past the buffer is an overflow; a block is accepted only when its header size plus its three 16-bit lengths equals its size, and rejected as inconsistent exactly when they differ; decoded texts are byte strings |
| BinaryCodec.MetadataTexts | i18n_engine.cpp:877-883 | the three texts are, in order, the block's bytes after its six-byte header, each as long as its length field |
| BinaryCodec.DecodeHeader | i18n_engine.cpp:818-848 | the header is accepted exactly when the magic matches, the version is known, and a version-2 metadata size fits and is zero or at least a block header; a v2 header shorter than 24 bytes is rejected |
| BinaryCodec.ParseEntry | i18n_engine.cpp:897-951 | a parsed row is valid and ends inside the buffer, past its start; a failure is an error of one row |
| BinaryCodec.ParseEntryTail | i18n_engine.cpp:916-951 | the row keeps its token and ends inside the buffer; a missing variant-length byte is an error |
| BinaryCodec.ParseEntries | i18n_engine.cpp:896-951 | exactly `count` valid rows are read, ending inside the buffer; a failure is an error of one row |
| BinaryCodec.CollectEntries | i18n_engine.cpp:974-997 | a collection succeeds only when every row's text range lies inside the string table; an out-of-range error names a row whose range does not; the only errors are an out-of-range text and a repeated key |
| BinaryCodec.CollectEntriesInvariant | i18n_engine.cpp:974-997 | collecting valid rows keeps the catalog and its variant index consistent |
| BinaryCodec.CollectEntriesCount | i18n_engine.cpp:974-997 | every collected row adds a key of its own, so no two rows share a key |
| BinaryCodec.CollectStep | i18n_engine.cpp:974-997 | one collected row keeps the invariant |
| BinaryCodec.RecordEntryVariant | i18n_engine.cpp:984-989 | recording a row's variant is the index update for the row's key |
| BinaryCodec.Decode | i18n_engine.cpp:816-1006 | a buffer shorter than the v1 header is rejected as such; anything decoded carries the magic |
| BinaryCodec.DecodeSections | i18n_engine.cpp:818-951 | the header, metadata and entry stages give valid rows and byte-string metadata, and the sections fit the buffer; they fail only with header, metadata or row errors |
| BinaryCodec.DecodeStrictChecksum | i18n_engine.cpp:959-972 | once the earlier stages pass and the string table fits, a strict decode fails with a checksum mismatch exactly when the recomputed checksum differs from the stored one |
| BinaryCodec.DecodeStrictMatchesChecksum | i18n_engine.cpp:959-972 | a buffer a strict decode accepts stores the checksum of its own metadata, entry table and string table |
| BinaryCodec.DecodeStrictIsLenient | i18n_engine.cpp:969-972 | strictness only adds the checksum check: a buffer a strict decode accepts decodes leniently to the same snapshot |
| BinaryCodec.DecodeLenientIgnoresChecksum | i18n_engine.cpp:969-972 | a lenient decode never reports a checksum mismatch |
| BinaryCodec.DecodeWellFormed | i18n_engine.cpp:974-1002 | a decoded snapshot has canonical keys, byte-string texts and a variant index that matches its keys |
| BinaryCodec.DecodeTableShape | i18n_engine.cpp:953-1002 | the string-table stage yields a well-formed snapshot |
| BinaryCodec.DecodeMetadataOfBlock | i18n_engine.cpp:860-884 | the decoder reads back the metadata block the exporter writes |
| BinaryCodec.MetadataFieldsAt | i18n_engine.cpp:1575-1590 | a written block's length fields and texts read back as written |
| BinaryCodec.EntryFieldsAt | i18n_engine.cpp:1557-1567 | a written row's fields read back as written, through the decoder's lowercasing |
| BinaryCodec.ParseEntryOfEncoding | i18n_engine.cpp:897-951 | the decoder reads back a row the exporter writes |
| BinaryCodec.ParseEntriesOfEncoding | i18n_engine.cpp:896-951 | the decoder reads back the whole entry table the exporter writes |
| BinaryCodec.LayoutValid | i18n_engine.cpp:1550-1567 | rows laid out for canonical keys are rows the decoder accepts |
| BinaryCodec.FillAll | i18n_engine.cpp:974-997 | filling in every key of a catalog rebuilds the catalog |
| BinaryCodec.TextsOfStringTable | i18n_engine.cpp:1569-1573 | each text reads back from the string table at its running offset |
| BinaryCodec.RowsAtFor | i18n_engine.cpp:1550-1567 | laid-out rows name their keys and place the texts back to back |
| BinaryCodec.CollectLayout | i18n_engine.cpp:974-997 | collecting the laid-out rows over the string table stores every text under its key |
| BinaryCodec.DecodeHeaderV2 | i18n_engine.cpp:818-848 | a version-2 header whose metadata size fits is accepted, with that size |
| BinaryCodec.DecodeTableOfSections | i18n_engine.cpp:953-1002 | with the checksum matching and the rows collecting, the snapshot is the catalog without labels |
| BinaryCodec.SlicedChecksum | i18n_engine.cpp:959-972 | the decoder recomputes the exporter's checksum over the same three blocks |
| BinaryCodec.ExportedSections | i18n_engine.cpp:1514-1617 | the exported buffer is a v2 header describing the metadata block, the entry table and the string table behind it, and the first two decode to what was written |
| BinaryCodec.ExportDecodeRoundTrip | i18n_engine.cpp:816-1006 | exporting a representable snapshot and decoding the buffer, with the checksum enforced, gives the snapshot back without its labels |
| BinaryCodec.CollectedSnapshot | i18n_engine.cpp:974-997 | the exported rows collect to the snapshot's catalog and its variant index |
| BinaryCodec.CollectedIndex | i18n_engine.cpp:984-989 | the collected variant index is the snapshot's |
| BinaryCodec.WrappedRoom | i18n_engine.cpp:840 | `size - header_size` on `size_t` wraps below zero, leaving room of nearly 2^64 |
| BinaryCodec.ShortV2HeaderAccepted | i18n_engine.cpp:818-848 | a 20-byte version-2 buffer passes every header check as written, though the size field ends past the buffer; the corrected decoder rejects it |
| BinaryCodec.TokenOnlyRowAccepted | i18n_engine.cpp:904-919 | a row that ends right after its token passes the checks as written, though the variant-length byte read next is past the end; the corrected parser rejects it |
| Resolver.StyleRun | i18n_engine.cpp:365-402 | the name loop stops at the first non-name character, and gives up past 64 name characters |
| Resolver.StyleVariant | i18n_engine.cpp:365-402 | the variant loop stops at a `}` with a valid variant |
| Resolver.StyleRef | i18n_engine.cpp:365-402 | a style reference spans at least `style_` and a name character |
| Resolver.HexRunLen | i18n_engine.cpp:404-432 | the hex loop reads at most 32 hex digits and stops at the first other character |
| Resolver.HexVariantScan | i18n_engine.cpp:404-432 | the variant scan stops inside the text |
| Resolver.HexRef | i18n_engine.cpp:404-432 | a hex reference spans at least six characters |
| Resolver.HexRefIsCanonical | i18n_engine.cpp:404-432 | every token the hex branch reads is a canonical key |
| Resolver.InlineToken | i18n_engine.cpp:347-433 | a reference spans its `@` and at least one more character, inside the text |
| Resolver.InlineTokenShape | i18n_engine.cpp:347-433 | every reference is a canonical hex key or starts with `style_` once lowercased |
| Resolver.InlineTokenOfKey | i18n_engine.cpp:347-433 | `@` and a canonical key, followed by text that cannot extend it, reads back as exactly that key |
| Resolver.InlineTokenOfParts | i18n_engine.cpp:404-432 | a hex base and variant after `@` read back as their key |
| Resolver.InlineTokenOfStyle | i18n_engine.cpp:365-402 | a style name, its case kept, with an optional variant after `@`, reads back as written |
| Resolver.HexRefOfParts | i18n_engine.cpp:404-432 | the hex branch reads a base and variant back as their key |
| Resolver.StyleRefOfParts | i18n_engine.cpp:365-402 | the style branch reads a name and variant back as written |
| Resolver.EscapedAtIsNoToken | i18n_engine.cpp:355-359 | `@@` never starts a reference |
| Resolver.DigitRun | i18n_engine.cpp:544-557 | the placeholder loop reads the maximal run of digits |
| Resolver.Decimal | i18n_engine.cpp:553 | `std::to_string` writes digits only |
| Resolver.DigitsValueOfDecimal | i18n_engine.cpp:544-557 | reading back the decimal form of a number gives the number |
| Resolver.StyleCatalogOf | i18n_engine.h:47-49 | the resolver's view keeps the snapshot's texts |
| Resolver.BuildStyle | i18n_engine.cpp:616-653 | a style string exists only for a registered token, and is non-empty with no trailing space |
| Resolver.DropTrailingSpaces | i18n_engine.cpp:616-653 | exactly the trailing spaces are dropped |
| Resolver.ExpandCopies | i18n_engine.cpp:515-560 | a character that starts no reference, escape or placeholder is copied |
| Resolver.CopyPrefix | i18n_engine.cpp:515-560 | any expansion that copies plain characters copies verbatim text whole |
| Resolver.ExpandVerbatimPrefix | i18n_engine.cpp:515-560 | verbatim text is copied, and expansion goes on with what follows |
| Resolver.ExpandVerbatim | i18n_engine.cpp:515-560 | verbatim text expands to itself |
| Resolver.ExpandEscapedAt | i18n_engine.cpp:530-535 | `@@` expands to one `@` |
| Resolver.ExpandKeyRef | i18n_engine.cpp:521-527 | a hex reference expands to its translation one level deeper, or to the missing marker when the catalog lacks it |
| Resolver.ExpandStyleRef | i18n_engine.cpp:521-527 | a style reference expands the same way |
| Resolver.ExpandPlaceholder | i18n_engine.cpp:544-557 | `%N` expands to argument N, resolved, or to the argument marker when there are too few arguments |
| Resolver.EscapeAt | i18n_engine.cpp:530-535 | doubling `@` never shortens the text, and keeps its first character |
| Resolver.ExpandEscapeAt | i18n_engine.cpp:530-535 | text with every `@` doubled expands back to the text |
| Resolver.NoStyleFor | i18n_engine.cpp:497-503 | a token that is not a style token builds no style |
| Resolver.TranslateUnknown | i18n_engine.cpp:505-509 | an unknown token translates to itself between markers |
| Resolver.TranslateVerbatim | i18n_engine.cpp:488-564 | a non-style text with no reference, escape or placeholder translates to itself |
| Resolver.TranslateSelfReference | i18n_engine.cpp:493-495 | a text that refers to its own key gives the cycle marker, or the recursion marker when the reference lies past depth 32 |
| Resolver.TranslateOneRef | i18n_engine.cpp:517-527 | one reference between verbatim parts gives the parts around the reference's translation, made one level deeper with the outer token seen |
| Resolver.ExpandOneRef | i18n_engine.cpp:517-527 | one reference between verbatim parts expands to the parts around the reference's piece |
| Resolver.TranslatePlaceholder | i18n_engine.cpp:544-557 | a text that is one placeholder gives the resolved argument, or the argument marker |
| Resolver.LowerKeyCanonical | i18n_engine.cpp:458-486 | a lowercase key is canonical exactly when its base is a hex token |
| Resolver.ArgLookupIsLower | i18n_engine.cpp:466-479 | `resolve_arg` looks up the lowercased argument |
| Resolver.ResolveArgCases | i18n_engine.cpp:458-486 | `=x` gives `x`; a hex catalog key, in any case, is translated one level deeper with no arguments; any other argument is passed through |
| Resolver.ResolveArgQuoted | i18n_engine.cpp:462-464 | `=` before any text passes the text through |
| Resolver.ParseDeclarations | i18n_engine.cpp:1418-1452 | style text round trip: the `name: value;` entries of writable properties parse back to the properties, in order |
| Resolver.StyleRegistryOfDeclarations | i18n_engine.cpp:1493-1503 | a style token written as such entries is registered with exactly those properties |
| Resolver.TranslateStyleText | i18n_engine.cpp:616-653 | a style token written as the entries of writable, verbatim properties translates to its own text: parsing and building are inverse |
| Resolver.ResolvePlainVerbatim | i18n_engine.cpp:566-614 | a verbatim value resolves to itself |
| Resolver.StyleEntriesStep | i18n_engine.cpp:640-645 | one round of the property loop appends a named verbatim property's entry |
| Resolver.FoldDeclarations | i18n_engine.cpp:627-648 | any loop that appends one entry per property builds the space-separated entries |
| Resolver.StyleEntriesNamed | i18n_engine.cpp:627-648 | the property loop renders named verbatim properties as their entries, in order |
| Resolver.BuildStyleNamed | i18n_engine.cpp:616-653 | the builder emits `name: value;` per named verbatim property, in order, separated by spaces |
| Resolver.TranslateStyle | i18n_engine.cpp:497-503 | a registered style token with named verbatim properties translates to its style string |
| Resolver.ScanInlineRefs | i18n_engine.cpp:435-456 | the references are listed sorted and once each, and are exactly those the scan finds |
| Resolver.ScanRefsShape | i18n_engine.cpp:435-456 | every listed reference is a canonical hex key or a `style_` token |
| Resolver.ScanRefsEscapeAt | i18n_engine.cpp:440-441 | text with every `@` doubled lists no references |
| Resolver.ScanRefsSkips | i18n_engine.cpp:437-438 | text without `@` lists nothing of its own |
| Resolver.ScanRefsOfKey | i18n_engine.cpp:443-448 | a hex reference in the text is listed, in its place |
| Plural.PickVariantName | i18n_engine.cpp:1365-1394 | the name is one of six valid variants; a negative count is `other`; the default rule uses only zero/one/other; the Slavic rule never gives `other` for a count of zero or more; only the Arabic rule gives `two` |
| Plural.SlavicPeriodic | i18n_engine.cpp:1374-1381 | counts a hundred apart get the same Slavic name |
| Plural.ArabicPeriodic | i18n_engine.cpp:1383-1391 | past the small counts, counts a hundred apart get the same Arabic name |
| Plural.DefaultLargeIsOther | i18n_engine.cpp:1369-1372 | under the default rule every count past one is `other` |
| Plural.PluralLookup | i18n_engine.cpp:1086-1107 | without an explicit variant the key looked up starts with the lowercased token |
| Plural.PluralLookupExplicit | i18n_engine.cpp:1090-1091 | an explicit variant is looked up as written, lowercased |
| Plural.PluralLookupOrder | i18n_engine.cpp:1092-1107 | the picked variant wins when present; without it, `other` is used whenever present, and a lookup of `other` means the picked key was absent; the bare base is used only when no variant is declared |
| Plural.PluralLookupLeast | i18n_engine.cpp:1100-1102 | without the picked or `other` text, the least declared variant is used |
| Plural.PluralLookupFindsVariant | i18n_engine.cpp:1092-1107 | in a well-formed snapshot, a base with any variant text never falls through to the bare base |
| Plural.VariantDeclared | i18n_engine.cpp:790-794 | a variant key in the catalog is declared for its base |
| Plural.DeclaredVariantIsKey | i18n_engine.cpp:790-794 | a declared variant is stored as its `base{variant}` key |
| Physics.StripDashes | i18n_engine.cpp:1466-1467 | one leading `--` is removed, and any other name is kept |
| Physics.ParsePhysicalValue | i18n_engine.cpp:1454-1462 | an empty text never parses |
| Physics.ApplyPhysicalProperty | i18n_engine.cpp:1464-1477 | a recognised, parsable property sets its one field and the physics flag and changes no other field; anything else changes nothing |
| Physics.DefaultRecord | i18n_engine.h:37-45 | the fresh record has no physics, gravity scale 1 and every other field 0 |
| Physics.EvaluateStepSets | i18n_engine.cpp:1485-1489 | one loop round sets what its property says and nothing else |
| Physics.EvaluateAppend | i18n_engine.cpp:1485-1489 | the loop over `props + [p]` is the loop over `props` and then `p` |
| Physics.LaterOverrides | i18n_engine.cpp:1485-1489 | the last property that sets a field decides its value |
| Physics.HasPhysicalIff | i18n_engine.cpp:1479-1491 | the record has physics exactly when it started with physics or some property sets a field |
| Physics.UnsetFieldKept | i18n_engine.cpp:1479-1491 | a field no property sets keeps its value |
| Physics.Named | i18n_engine.cpp:1486 | the named properties, none of them unnamed |
| Physics.UnnamedSkipped | i18n_engine.cpp:1486 | unnamed `@` properties do not affect the record |
| Engine.Install | i18n_engine.cpp:1008-1017 | the snapshot becomes active and the engine's meta fields copy the snapshot's |
| Engine.LoadTxtCatalog | i18n_engine.cpp:688-710 | an empty source is refused; a failed load leaves everything but the last error unchanged; a successful one clears the error and installs a snapshot |
| Engine.LoadInstallsBuilt | i18n_engine.cpp:688-710 | a load succeeds exactly when the source is non-empty and builds, and then installs what it builds |
| Engine.LoadInstallsWellFormed | i18n_engine.cpp:688-710 | whatever the source, a successful load installs a well-formed snapshot |
| Engine.LoadIdempotent | i18n_engine.cpp:688-710 | loading the same source twice gives the state that loading it once gives |
| Engine.CatalogTextIsText | i18n_engine.cpp:1339-1344 | a catalog written as text is never taken for a binary one, and has no byte order mark |
| Engine.LoadCatalogText | i18n_engine.cpp:688-814 | a catalog written as text loads, and the installed snapshot has exactly its entries and their declared variants, with no labels or meta fields |
| Engine.LoadExported | i18n_engine.cpp:688-710 | an exported buffer given to `load_txt_catalog` loads strictly, and the installed snapshot is the exported one without labels |
| Engine.Translate | i18n_engine.cpp:1073-1079 | without a catalog the result is the no-catalog marker |
| Engine.TranslateIgnoresCase | i18n_engine.cpp:1073-1079 | tokens are case-insensitive |
| Engine.TranslateMissing | i18n_engine.cpp:1073-1079 | a lowercase token missing from the catalog comes back between markers |
| Engine.LoadThenTranslate | i18n_engine.cpp:688-710 | after loading a text catalog, translating one of its plain entries gives the entry's text |
| Engine.TranslatePlural | i18n_engine.cpp:1081-1111 | without a catalog the result is the no-catalog marker |
| Engine.TranslatePluralExplicit | i18n_engine.cpp:1090-1091 | a token that names its variant translates as a plain token, whatever the count |
| Engine.TranslatePluralPicked | i18n_engine.cpp:1094-1096 | when the catalog has the variant the rule picks, that variant is translated |
| Engine.NativeStyleFor | i18n_engine.cpp:677-686 | without a catalog, or for an unregistered token, the result is the fresh record |
| Engine.NativeStyleOfPlainToken | i18n_engine.cpp:677-686 | a token that is not a style token has no physics |
| Engine.NativeStyleHasPhysical | i18n_engine.cpp:677-686 | the record has physics exactly when some property of the style sets a field |
| HexColors.HexDigit | main.cpp:24-29 | a hex digit, in either case, gives its value and anything else gives -1; a decimal digit gives its numeric value |
| HexColors.HexDigitOfValue | main.cpp:24-29 | both spellings of each digit value read back as that value |
| HexColors.HexDigitIgnoresCase | main.cpp:24-29 | case does not matter to `hex_digit` |
| HexColors.Channel | main.cpp:51-53 | a channel is below 256 |
| HexColors.FirstPositions | main.cpp:31-57 | the positions where a code appears for the first time, in increasing order, and no others |
| HexColors.HexesBefore | main.cpp:47-48 | the seen set holds exactly the codes found so far |
| HexColors.ReadDigits | main.cpp:36-46 | the inner loop succeeds exactly when all six characters are hex digits, and then gives their values |
| HexColors.CollectHexColors | main.cpp:31-57 | the loop computes the entries of the first occurrences, in order |
| HexColors.ColorStep | main.cpp:47-54 | a code is marked seen, and listed only when it is new |
| HexColors.FirstIffUnseen | main.cpp:47-48 | a code is new at a position exactly when it was not seen before it |
| HexColors.NoCodeNearEnd | main.cpp:34 | no code starts in the last six characters, so the scan can stop there |
| HexColors.ColorsAreCodes | main.cpp:31-57 | every entry is a `#` with six hex digits copied from the text, with channels that are the values of its digit pairs |
| HexColors.ColorsDistinct | main.cpp:47-48 | no code is listed twice |
| HexColors.ColorsInOrder | main.cpp:31-57 | entries come in the order their codes first appear |
| HexColors.ColorsComplete | main.cpp:31-57 | every code in the text is listed |
| HexColors.CaseSensitive | main.cpp:47-48 | two codes that differ only in case are two entries |
| Pages.Strip | generate_html.py:191 | `str.strip()` leaves no white space at either end and keeps stripped text |
| Pages.StripLeft | generate_html.py:191 | exactly the leading white space is dropped |
| Pages.StripRight | generate_html.py:191 | exactly the trailing white space is dropped |
| Pages.FindFrom | generate_html.py:204 | `find` reports the first occurrence at or after the start, or none |
| Pages.Find | generate_html.py:204 | `find` reports the first occurrence, or none when there is none |
| Pages.FindIs | generate_html.py:204 | an occurrence with none before it is the one reported |
| Pages.JoinAppend | generate_matrix_html.py:413 | joining two non-empty lists puts one separator between their joins |
| Pages.ExtractFrom | generate_html.py:203-209 | the loop cuts off only complete blocks, stops when the rest does not start with `<style>` or has no `</style>`, and never grows the text |
| Pages.ExtractStyleBlocks | generate_html.py:200-210 | the leading complete style blocks of the stripped text, and the rest, which starts with no closed block |
| Pages.ExtractFromRemainderStripped | generate_html.py:209 | what is left is stripped |
| Pages.ExtractConcat | generate_html.py:200-210 | blocks written one after another, then a stripped body that is no closed block, come back out as the blocks and the body |
| Pages.CutBlocks | generate_html.py:203-209 | any extractor that cuts a leading block off stripped text inverts writing blocks before a body |
| Pages.ExtractFromBlock | generate_html.py:203-209 | a block followed by stripped text is cut off first |
| Pages.ExtractStyleBlocksConcat | generate_matrix_html.py:347-357 | the same round trip through `extract_style_blocks` |
| Pages.SplitStyle | generate_html.py:190-197 | text without `<style>` is all body; an unclosed style is closed and the body is empty; the body is stripped |
| Pages.SplitStyleIsFirstBlock | generate_html.py:190-210 | with a closing tag, `split_style`'s style is the first block `extract_style_blocks` finds, and the rest of the blocks come from its body |
| Pages.RenderOneCard | generate_html.py:213-221 | one card gives what `extract_style_blocks` gives for it |
| Pages.RenderCardSetAppend | generate_matrix_html.py:360-368 | the cards `a + b` render as `a`, then `b`, for styles and markup alike |
| Pages.InsertVisionLink | generate_matrix_html.py:406-412 | a body without the Insights link is unchanged; otherwise it grows by exactly the Vision link |
| Pages.InsertVisionLinkAtFirst | generate_matrix_html.py:406-412 | the Vision link goes right after the first Insights link, only there, and taking it out gives the body back |
| Pages.InsertedLayout | generate_matrix_html.py:406-412 | the page body is the body up to the first Insights link, the Vision link, and the rest |
| Pages.SamePrefixSameFirst | generate_matrix_html.py:406-412 | texts that agree up to the end of the first occurrence have the same first occurrence |
| Pages.HeadStylesOrder | generate_matrix_html.py:413 | the head holds the template styles, then the card styles, then the extra style, one newline apart |
| Pages.HeadStylesOnlyExtra | generate_matrix_html.py:413 | without styles of its own, the head is just the extra style |

## Left out

- File input: `read_file_utf8`, the memory-mapped file, `load_txt_file`, `reload` and `is_binary_catalog_path`. These are I/O. The model starts from the loaded string.
- Writing the exported buffer to a file. `Export` gives the buffer. The file write, and its error, are I/O.
- The atomic publication of the active snapshot and its memory order. The snapshot is a plain field of the engine record.
- The C API wrappers, the physics JSON serialisation with its float formatting, `dump_table`, `find_any` and `check_catalog_report`. They are outside the modelled core.
- The Python FFI layer, and the HTML, SVG and JavaScript text of the generators, including `build_explosive_animation` and the page template. The generators' text processing is modelled; the rendered strings are inputs.
- The engine's template rendering behind the generators (`render_to_html`), which is a foreign call. Rendered cards and pages are parameters of `Pages`.
- `EXTRA_STYLE_MATRIX`, which is a parameter of `Pages.HeadStyles`.
- `write_assets.py`, `export_catalog.py`, `i18n_qa.py` and the Unity sample. These are consumers of the engine.
- The `main.cpp` plumbing around `collect_hex_colors`: argument handling, file reading and printing.
- `std::strtof`. `Physics.ParsePhysicalValue` takes the float parser as a parameter `parse`. Floating point is modelled as `real`.
- The German error texts. Errors are values of an error datatype, one per distinct message.
- Resolver.ExpandPlaceholder: the index `idx` of `%N` is an `int` that can overflow on long digit runs. The model reads it as an unbounded `nat`.
- TextLoader.NoMetaAfterEntries: the "meta after entries" branch (i18n_engine.cpp:742-748) is proved unreachable. Its error value is kept only so the proof can name it.
- Engine.LoadExported: stated for strict loading of a representable snapshot only. A lenient load of the same buffer skips the checksum and is covered by `BinaryCodec.DecodeWellFormed`.
- Bytes.OfString: characters above 255 keep only their low byte, as a `std::string` holds bytes. The round-trip lemmas require byte strings.

## Findings

| source | as written | input that shows it | evidently intended | confidence | as-written member | corrected member |
|---|---|---|---|---|---|---|
| i18n_engine.cpp:818-848 | a version-2 buffer needs only the 20 bytes of the v1 header before `read_le_u32(data + 20)` reads the metadata size at bytes 20-23 | the 20-byte buffer `I18N`, version 2, zeros: the size read ends four bytes past the buffer, and `size - header_size` wraps so the size check passes | reject a version-2 buffer shorter than its 24-byte header | medium; not executed; through `load_txt_catalog` the byte at `size` is the string's terminating zero | BinaryCodec.ShortV2HeaderAccepted | BinaryCodec.DecodeHeader |
| i18n_engine.cpp:904-919 | after the token, the variant-length byte is read with no check that it is inside the buffer | the row `[6, 'a', 'b', 'c', 'd', 'e', 'f']` as the whole buffer: the token fits exactly, and `data[offset++]` then reads at offset 7 of 7 | reject a row whose variant-length byte is missing | medium; not executed | BinaryCodec.TokenOnlyRowAccepted | BinaryCodec.ParseEntryTail |
