/** The text catalog format: splitting a source into lines, `@meta` lines,
    entry lines, and `build_snapshot_from_text`, which folds the lines into
    a snapshot or stops at the first error. */
module TextLoader {
  import opened Wrappers
  import opened Ascii
  import opened Catalog

  // ---------------------------------------------------------------------
  // Lines

  /** The line `next_line` hands out: without one trailing `\r`. */
  function DropCR(s: string): (r: string)
    ensures s == r || s == r + "\r"
    ensures s == r <==> s == [] || s[|s| - 1] != '\r'
  {
    if |s| > 0 && s[|s| - 1] == '\r' then s[..|s| - 1] else s
  }

  /** `next_line`, repeated: the pieces of `src` between `\n`s, each without
      a trailing `\r`. A final `\n` does not start another, empty line. */
  function Lines(src: string): (r: seq<string>)
    ensures forall i :: 0 <= i < |r| ==> NoChar(r[i], '\n')
    decreases |src|
  {
    if src == [] then []
    else
      match FindChar(src, '\n', 0)
      case None => [DropCR(src)]
      case Some(e) => [DropCR(src[..e])] + Lines(src[e + 1..])
  }

  /** Writes lines one after another, separated by `\n`. */
  function JoinLines(lines: seq<string>): string {
    if lines == [] then ""
    else if |lines| == 1 then lines[0]
    else lines[0] + "\n" + JoinLines(lines[1..])
  }

  /** A line `Lines` hands back unchanged: no `\n`, no trailing `\r`. */
  predicate PlainLine(line: string) {
    NoChar(line, '\n') && (line == [] || line[|line| - 1] != '\r')
  }

  /** Splitting undoes joining, as long as the last line is not empty (an
      empty last line leaves only a final `\n`, which starts no line). */
  lemma {:induction false} LinesOfJoin(lines: seq<string>)
    requires forall i :: 0 <= i < |lines| ==> PlainLine(lines[i])
    requires lines == [] || lines[|lines| - 1] != []
    ensures Lines(JoinLines(lines)) == lines
    decreases |lines|
  {
    if |lines| == 1 {
      assert FindChar(lines[0], '\n', 0).None?;
    } else if |lines| > 1 {
      var rest := JoinLines(lines[1..]);
      var src := lines[0] + "\n" + rest;
      assert JoinLines(lines) == src;
      FindCharAt(src, '\n', 0, |lines[0]|);
      assert src[..|lines[0]|] == lines[0];
      assert src[|lines[0]| + 1..] == rest;
      LinesOfJoin(lines[1..]);
    }
  }

  /** `strip_utf8_bom`: drops the bytes EF BB BF at the start. */
  function StripBom(s: string): (r: string)
    ensures r == s || (|s| >= 3 && s[..3] == Bom && r == s[3..])
    ensures |s| >= 3 && s[..3] == Bom ==> r == s[3..]
  {
    if |s| >= 3 && s[0] == 'ï' && s[1] == '»' && s[2] == '¿' then s[3..] else s
  }

  const Bom: string := "ï»¿"

  // ---------------------------------------------------------------------
  // `@meta` lines

  /** `parse_meta_line`: a trimmed line starting with `@meta`, then
      `key=value` (split at the first `=`), both trimmed and non-empty; the
      key comes back lowercased. */
  function ParseMetaLine(line: string): (r: Option<(string, string)>)
    ensures r.Some? ==> StartsWith(Trim(line), MetaTag)
    ensures r.Some? ==> r.value.0 != "" && IsLowerString(r.value.0) && Trimmed(r.value.0) && NoChar(r.value.0, '=')
    ensures r.Some? ==> r.value.1 != "" && Trimmed(r.value.1)
  {
    var s := Trim(line);
    if !StartsWith(s, MetaTag) then None else SplitMeta(Trim(s[|MetaTag|..]))
  }

  const MetaTag: string := "@meta"

  /** The `key=value` part of a meta line. */
  function SplitMeta(rest: string): (r: Option<(string, string)>)
    ensures r.Some? ==> r.value.0 != "" && IsLowerString(r.value.0) && Trimmed(r.value.0) && NoChar(r.value.0, '=')
    ensures r.Some? ==> r.value.1 != "" && Trimmed(r.value.1)
  {
    if rest == "" then None
    else
      match FindChar(rest, '=', 0)
      case None => None
      case Some(eq) =>
        var rawKey := Trim(rest[..eq]);
        var value := Trim(rest[eq + 1..]);
        MetaKeyShape(rest, eq);
        if rawKey == "" || value == "" then None
        else Some((ToLower(rawKey), value))
  }

  lemma MetaKeyShape(rest: string, eq: nat)
    requires eq < |rest| && forall j :: 0 <= j < eq ==> rest[j] != '='
    ensures IsLowerString(ToLower(Trim(rest[..eq]))) && NoChar(ToLower(Trim(rest[..eq])), '=')
    ensures Trimmed(ToLower(Trim(rest[..eq])))
  {
    var key := Trim(rest[..eq]);
    NoCharSlice(rest, '=', 0, eq);
    TrimKeepsAbsentChar(rest[..eq], '=');
    LowerKeepsShape(key, '=');
  }

  /** Lowercasing keeps a trimmed string trimmed and adds no `c` that is
      not a letter. */
  lemma LowerKeepsShape(s: string, c: char)
    requires Trimmed(s) && NoChar(s, c) && !IsUpper(c) && !IsLower(c)
    ensures IsLowerString(ToLower(s)) && NoChar(ToLower(s), c) && Trimmed(ToLower(s))
  {
    ToLowerIsLower(s);
  }

  /** The `@meta key=value` line. */
  function WriteMeta(key: string, value: string): string {
    MetaTag + (" " + (key + "=" + value))
  }

  /** Reading a written `@meta` line gives the key and the value back, for a
      lowercase key without `=` and a value, both trimmed and non-empty. */
  lemma MetaLineRoundTrip(key: string, value: string)
    requires key != "" && IsLowerString(key) && Trimmed(key) && NoChar(key, '=')
    requires value != "" && Trimmed(value)
    ensures ParseMetaLine(WriteMeta(key, value)) == Some((key, value))
  {
    MetaLineHead(key + "=" + value);
    SplitMetaOfPair(key, value);
  }

  lemma MetaLineHead(body: string)
    requires body != [] && Trimmed(body)
    ensures Trim(MetaTag + (" " + body)) == MetaTag + (" " + body)
    ensures StartsWith(MetaTag + (" " + body), MetaTag)
    ensures Trim((MetaTag + (" " + body))[|MetaTag|..]) == body
  {
    var line := MetaTag + (" " + body);
    assert line[|line| - 1] == body[|body| - 1];
    TrimOfTrimmed(line);
    assert line[..|MetaTag|] == MetaTag;
    assert line[|MetaTag|..] == " " + body;
    TrimAfterSpace(body);
  }

  lemma TrimAfterSpace(body: string)
    requires body != [] && Trimmed(body)
    ensures Trim(" " + body) == body
  {
    assert (" " + body)[1..] == body;
    TrimOfTrimmed(body);
  }

  lemma SplitMetaOfPair(key: string, value: string)
    requires key != "" && IsLowerString(key) && Trimmed(key) && NoChar(key, '=')
    requires value != "" && Trimmed(value)
    ensures SplitMeta(key + "=" + value) == Some((key, value))
  {
    var body := key + "=" + value;
    FindCharAt(body, '=', 0, |key|);
    assert body[..|key|] == key;
    assert body[|key| + 1..] == value;
    TrimOfTrimmed(key);
    TrimOfTrimmed(value);
    ToLowerIdentity(key);
  }

  // ---------------------------------------------------------------------
  // Entry lines

  /** The `out_err` messages of `parse_line`. */
  datatype LineError = MissingColon | UnclosedLabel | InvalidVariant | InvalidToken

  /** What `parse_line` makes of one line: nothing (blank or a `#`
      comment, with no error), an error, or an entry. */
  datatype LineResult =
    | Blank
    | Malformed(error: LineError)
    | Entry(token: string, labelText: string, text: string)

  /** The token and label of an entry head: `token` or `token(label)`, both
      trimmed; a `(` without a later `)` is an error. */
  function SplitHead(head: string): (r: Option<(string, string)>)
    ensures FindChar(head, '(', 0).None? ==> r == Some((head, ""))
    ensures r.None? <==> FindChar(head, '(', 0).Some? && FindChar(head, ')', FindChar(head, '(', 0).value + 1).None?
  {
    match FindChar(head, '(', 0)
    case None => Some((head, ""))
    case Some(open) =>
      match FindChar(head, ')', open + 1)
      case None => None
      case Some(close) => Some((Trim(head[..open]), Trim(head[open + 1..close])))
  }

  /** How `parse_line` normalises a token: a token with `{` must split into
      base and variant and is rewritten as `base{variant}`; any other token
      is lowercased. Gives the key and its base. */
  function NormalizeToken(token: string): (r: Option<(string, string)>)
    ensures r.None? <==> FindChar(token, '{', 0).Some? && ParseVariantSuffix(token).None?
    ensures r.Some? ==> IsLowerString(r.value.0) && SplitKey(r.value.0).0 == r.value.1
    ensures r.Some? ==> KeyOf(SplitKey(r.value.0).0, SplitKey(r.value.0).1) == r.value.0
  {
    if FindChar(token, '{', 0).Some? then
      match ParseVariantSuffix(token)
      case None => None
      case Some((b, v)) =>
        NormalizedVariantKey(token);
        Some((b + "{" + v + "}", b))
    else
      NormalizedPlainKey(token);
      Some((ToLower(token), ToLower(token)))
  }

  lemma NormalizedVariantKey(token: string)
    requires ParseVariantSuffix(token).Some?
    ensures var (b, v) := ParseVariantSuffix(token).value;
      IsLowerString(b + "{" + v + "}") && SplitKey(b + "{" + v + "}") == (b, v)
  {
    var (b, v) := ParseVariantSuffix(token).value;
    ParseVariantSuffixLower(token);
    ValidVariantShape(v);
    ParseVariantSuffixOfJoin(b, v);
    ToLowerIdentity(b);
    ToLowerIdentity(v);
  }

  lemma NormalizedPlainKey(token: string)
    requires FindChar(token, '{', 0).None?
    ensures IsLowerString(ToLower(token)) && SplitKey(ToLower(token)) == (ToLower(token), "")
  {
    ToLowerIsLower(token);
    assert FindChar(ToLower(token), '{', 0).None?;
  }

  /** `parse_line`. The line is trimmed; blank and `#` lines give nothing.
      The head before the first `:` names the token (and optionally a
      label); the text after it loses its leading whitespace and has its
      escapes resolved. The token's base must be a hex token or a style
      token. */
  function ParseLine(lineIn: string): (r: LineResult)
    ensures r.Blank? <==> Trim(lineIn) == "" || Trim(lineIn)[0] == '#'
    ensures r == Malformed(MissingColon) <==> !r.Blank? && FindChar(Trim(lineIn), ':', 0).None?
    ensures r.Entry? ==> IsLowerString(r.token) && KeyOf(SplitKey(r.token).0, SplitKey(r.token).1) == r.token
    ensures r.Entry? ==> IsHexToken(SplitKey(r.token).0) || IsStyleToken(SplitKey(r.token).0)
  {
    var line := Trim(lineIn);
    if line == "" || line[0] == '#' then Blank
    else
      match FindChar(line, ':', 0)
      case None => Malformed(MissingColon)
      case Some(colon) => ParseEntryParts(Trim(line[..colon]), TrimLeft(line[colon + 1..]))
  }

  /** The part of `parse_line` after the colon is found: the head names the
      token and label, the text loses its escapes. */
  function ParseEntryParts(head: string, text: string): (r: LineResult)
    ensures !r.Blank? && r != Malformed(MissingColon)
    ensures r.Entry? ==> IsLowerString(r.token) && KeyOf(SplitKey(r.token).0, SplitKey(r.token).1) == r.token
    ensures r.Entry? ==> IsHexToken(SplitKey(r.token).0) || IsStyleToken(SplitKey(r.token).0)
  {
    match SplitHead(head)
    case None => Malformed(UnclosedLabel)
    case Some((token, labelText)) =>
      match NormalizeToken(token)
      case None => Malformed(InvalidVariant)
      case Some((key, base)) =>
        if !IsHexToken(base) && !IsStyleToken(base) then Malformed(InvalidToken)
        else Entry(key, labelText, Unescape(text))
  }

  // ---------------------------------------------------------------------
  // Building a snapshot from text

  /** The `err` messages of `build_snapshot_from_text`, with their line
      numbers (counted from 1). */
  datatype LoadError =
    | MetaAfterEntries(lineNo: nat)
    | UnknownPluralRule(lineNo: nat)
    | UnknownMetaKey(lineNo: nat)
    | ParseError(lineNo: nat, error: LineError)
    | DuplicateToken(lineNo: nat, token: string)
    | NoEntries

  /** The loop state of `build_snapshot_from_text`. */
  datatype Loader = Loader(snapshot: Snapshot, metaPhase: bool, seenEntry: bool, loaded: nat)

  const EmptySnapshot: Snapshot := Snapshot(map[], map[], map[], "", "", "", Default)

  const Start: Loader := Loader(EmptySnapshot, true, false, 0)

  /** One `@meta key=value` line read while still in the meta phase. */
  function ApplyMeta(st: Loader, key: string, value: string, lineNo: nat, strict: bool): Result<Loader, LoadError> {
    if st.seenEntry then
      if strict then Err(MetaAfterEntries(lineNo)) else Ok(st)
    else if key == "locale" then Ok(st.(snapshot := st.snapshot.(locale := value)))
    else if key == "fallback" then Ok(st.(snapshot := st.snapshot.(fallback := value)))
    else if key == "note" then Ok(st.(snapshot := st.snapshot.(note := value)))
    else if key == "plural" then
      var (rule, ok) := ParsePluralRuleName(value);
      if !ok && strict then Err(UnknownPluralRule(lineNo))
      else Ok(st.(snapshot := st.snapshot.(plural := rule)))
    else if strict then Err(UnknownMetaKey(lineNo))
    else Ok(st)
  }

  /** One non-meta line: parse it and add its entry. A parse error stops a
      strict load and is skipped otherwise; a token already present stops
      either load. */
  function LoadEntry(st: Loader, line: string, lineNo: nat, strict: bool): Result<Loader, LoadError> {
    LoadParsed(st, ParseLine(line), lineNo, strict)
  }

  /** The entry step once the line is parsed. */
  function LoadParsed(st: Loader, parsed: LineResult, lineNo: nat, strict: bool): Result<Loader, LoadError> {
    match parsed
    case Blank => Ok(st)
    case Malformed(e) => if strict then Err(ParseError(lineNo, e)) else Ok(st)
    case Entry(token, labelText, text) =>
      if token in st.snapshot.catalog then Err(DuplicateToken(lineNo, token))
      else Ok(AddEntry(st, token, labelText, text))
  }

  /** Records a new entry: its text, its label when it has one, its variant
      in `plural_variants`, and the count. */
  function AddEntry(st: Loader, token: string, labelText: string, text: string): Loader {
    var s := st.snapshot;
    var labels := if labelText == "" then s.labels else s.labels[token := labelText];
    Loader(s.(catalog := s.catalog[token := text], labels := labels,
              pluralVariants := AddVariant(s.pluralVariants, token)),
           st.metaPhase, true, st.loaded + 1)
  }

  /** One iteration of the loop over lines. */
  function LoadLine(st: Loader, line: string, lineNo: nat, strict: bool): Result<Loader, LoadError> {
    var raw := Trim(line);
    if raw == "" || raw[0] == '#' then Ok(st)
    else if st.metaPhase && ParseMetaLine(raw).Some? then
      ApplyMeta(st, ParseMetaLine(raw).value.0, ParseMetaLine(raw).value.1, lineNo, strict)
    else LoadEntry(st.(metaPhase := false), line, lineNo, strict)
  }

  /** The loop over the remaining lines; the first of them has number
      `lineNo`. */
  function LoadLines(st: Loader, lines: seq<string>, lineNo: nat, strict: bool): Result<Loader, LoadError>
    decreases |lines|
  {
    if lines == [] then Ok(st)
    else
      match LoadLine(st, lines[0], lineNo, strict)
      case Err(e) => Err(e)
      case Ok(next) => LoadLines(next, lines[1..], lineNo + 1, strict)
  }

  /** `build_snapshot_from_text`: the snapshot, or the first error; a text
      with no entry is an error. */
  function BuildFromText(src: string, strict: bool): Result<Snapshot, LoadError> {
    match LoadLines(Start, Lines(src), 1, strict)
    case Err(e) => Err(e)
    case Ok(st) => if st.loaded == 0 then Err(NoEntries) else Ok(st.snapshot)
  }

  // ---------------------------------------------------------------------
  // What a load keeps

  /** The shape of a key `parse_line` hands out: lowercase, stored in its
      `base{variant}` form, with a hex or style base. */
  predicate LoadedKey(k: string) {
    && IsLowerString(k)
    && KeyOf(SplitKey(k).0, SplitKey(k).1) == k
    && (IsHexToken(SplitKey(k).0) || IsStyleToken(SplitKey(k).0))
  }

  /** The loop invariant of `build_snapshot_from_text`: the snapshot is well
      formed and holds only loaded keys, `loaded` counts its entries, and an
      entry has been seen exactly when one was loaded, which only happens
      after the meta phase ended. */
  ghost predicate LoaderInv(st: Loader) {
    && WellFormed(st.snapshot)
    && (forall k :: k in st.snapshot.catalog ==> LoadedKey(k))
    && st.loaded == |st.snapshot.catalog|
    && (st.seenEntry <==> st.loaded > 0)
    && (st.seenEntry ==> !st.metaPhase)
  }

  lemma StartInv()
    ensures LoaderInv(Start)
  {
    assert VariantBasesBy({}, ParseVariantSuffix) == {};
  }

  /** Adding a fresh loaded key keeps the invariant. */
  lemma AddEntryInv(st: Loader, token: string, labelText: string, text: string)
    requires LoaderInv(st) && !st.metaPhase
    requires token !in st.snapshot.catalog && LoadedKey(token)
    ensures LoaderInv(AddEntry(st, token, labelText, text))
  {
    var s := st.snapshot;
    var next := AddEntry(st, token, labelText, text).snapshot;
    AddVariantExtends(s.catalog.Keys, token);
    assert next.catalog.Keys == s.catalog.Keys + {token};
    assert |next.catalog.Keys| == |s.catalog.Keys| + 1;
    forall k | k in next.catalog && ParseVariantSuffix(k).Some?
      ensures KeyOf(ParseVariantSuffix(k).value.0, ParseVariantSuffix(k).value.1) == k
    {
      if k == token {
        assert SplitKey(k) == ParseVariantSuffix(k).value;
      }
    }
  }

  /** An entry line parses to a loaded key. */
  lemma ParseLineLoadedKey(line: string)
    requires ParseLine(line).Entry?
    ensures LoadedKey(ParseLine(line).token)
  {
  }

  lemma ApplyMetaInv(st: Loader, key: string, value: string, lineNo: nat, strict: bool)
    requires LoaderInv(st)
    ensures ApplyMeta(st, key, value, lineNo, strict).Ok? ==>
      LoaderInv(ApplyMeta(st, key, value, lineNo, strict).value)
  {
    var r := ApplyMeta(st, key, value, lineNo, strict);
    if r.Ok? {
      SameEntriesInv(st, r.value);
    }
  }

  /** Changing only meta fields keeps the invariant. */
  lemma SameEntriesInv(st: Loader, st': Loader)
    requires LoaderInv(st)
    requires st'.snapshot.catalog == st.snapshot.catalog && st'.snapshot.labels == st.snapshot.labels
    requires st'.snapshot.pluralVariants == st.snapshot.pluralVariants
    requires st'.loaded == st.loaded && st'.seenEntry == st.seenEntry && st'.metaPhase == st.metaPhase
    ensures LoaderInv(st')
  {
  }

  lemma LoadEntryInv(st: Loader, line: string, lineNo: nat, strict: bool)
    requires LoaderInv(st) && !st.metaPhase
    ensures LoadEntry(st, line, lineNo, strict).Ok? ==> LoaderInv(LoadEntry(st, line, lineNo, strict).value)
  {
    var r := ParseLine(line);
    if r.Entry? && r.token !in st.snapshot.catalog {
      ParseLineLoadedKey(line);
      AddEntryInv(st, r.token, r.labelText, r.text);
    }
  }

  /** Every successful step keeps the invariant. */
  lemma LoadLineInv(st: Loader, line: string, lineNo: nat, strict: bool)
    requires LoaderInv(st)
    ensures LoadLine(st, line, lineNo, strict).Ok? ==> LoaderInv(LoadLine(st, line, lineNo, strict).value)
  {
    var raw := Trim(line);
    if raw == "" || raw[0] == '#' {
    } else if st.metaPhase && ParseMetaLine(raw).Some? {
      ApplyMetaInv(st, ParseMetaLine(raw).value.0, ParseMetaLine(raw).value.1, lineNo, strict);
    } else {
      LoadEntryInv(st.(metaPhase := false), line, lineNo, strict);
    }
  }

  lemma {:induction false} LoadLinesInv(st: Loader, lines: seq<string>, lineNo: nat, strict: bool)
    requires LoaderInv(st)
    ensures LoadLines(st, lines, lineNo, strict).Ok? ==> LoaderInv(LoadLines(st, lines, lineNo, strict).value)
    decreases |lines|
  {
    if lines != [] {
      LoadLineInv(st, lines[0], lineNo, strict);
      match LoadLine(st, lines[0], lineNo, strict)
      case Err(e) =>
      case Ok(next) => LoadLinesInv(next, lines[1..], lineNo + 1, strict);
    }
  }

  /** A loaded snapshot is well formed, holds at least one entry, and every
      key has the shape `parse_line` produces. */
  lemma BuildFromTextWellFormed(src: string, strict: bool)
    ensures BuildFromText(src, strict).Ok? ==> WellFormed(BuildFromText(src, strict).value)
    ensures BuildFromText(src, strict).Ok? ==> |BuildFromText(src, strict).value.catalog| > 0
    ensures BuildFromText(src, strict).Ok? ==>
      forall k :: k in BuildFromText(src, strict).value.catalog ==> LoadedKey(k)
  {
    StartInv();
    LoadLinesInv(Start, Lines(src), 1, strict);
  }

  // ---------------------------------------------------------------------
  // Error behaviour of the two modes

  /** Which errors one line can raise: a late `@meta` error needs an entry
      seen in the meta phase, and a lenient step only fails on a duplicate
      token. */
  lemma LoadLineErrors(st: Loader, line: string, lineNo: nat, strict: bool)
    ensures LoadLine(st, line, lineNo, strict).Err? && LoadLine(st, line, lineNo, strict).error.MetaAfterEntries? ==>
      st.metaPhase && st.seenEntry
    ensures LoadLine(st, line, lineNo, strict).Err? && !strict ==> LoadLine(st, line, lineNo, strict).error.DuplicateToken?
  {
    var raw := Trim(line);
    if raw == "" || raw[0] == '#' {
    } else if st.metaPhase && ParseMetaLine(raw).Some? {
      ApplyMetaErrors(st, ParseMetaLine(raw).value.0, ParseMetaLine(raw).value.1, lineNo, strict);
    } else {
      LoadEntryErrors(st.(metaPhase := false), line, lineNo, strict);
    }
  }

  lemma ApplyMetaErrors(st: Loader, key: string, value: string, lineNo: nat, strict: bool)
    ensures ApplyMeta(st, key, value, lineNo, strict).Err? ==> strict
    ensures ApplyMeta(st, key, value, lineNo, strict).Err? && ApplyMeta(st, key, value, lineNo, strict).error.MetaAfterEntries? ==>
      st.seenEntry
  {
  }

  lemma LoadEntryErrors(st: Loader, line: string, lineNo: nat, strict: bool)
    ensures LoadEntry(st, line, lineNo, strict).Err? ==> !LoadEntry(st, line, lineNo, strict).error.MetaAfterEntries?
    ensures LoadEntry(st, line, lineNo, strict).Err? && !strict ==> LoadEntry(st, line, lineNo, strict).error.DuplicateToken?
  {
    LoadParsedErrors(st, ParseLine(line), lineNo, strict);
  }

  /** The entry step's errors, whatever the parser returned. */
  lemma LoadParsedErrors(st: Loader, parsed: LineResult, lineNo: nat, strict: bool)
    ensures LoadParsed(st, parsed, lineNo, strict).Err? ==> !LoadParsed(st, parsed, lineNo, strict).error.MetaAfterEntries?
    ensures LoadParsed(st, parsed, lineNo, strict).Err? && !strict ==> LoadParsed(st, parsed, lineNo, strict).error.DuplicateToken?
  {
  }

  /** A late `@meta` line never reaches the "meta after entries" branch:
      an entry is only seen once the meta phase is over, and outside the
      meta phase a `@meta` line goes to `parse_line`. */
  lemma {:induction false} NoMetaAfterEntries(st: Loader, lines: seq<string>, lineNo: nat, strict: bool)
    requires LoaderInv(st)
    ensures !LoadLines(st, lines, lineNo, strict).Err? || !LoadLines(st, lines, lineNo, strict).error.MetaAfterEntries?
    decreases |lines|
  {
    if lines != [] {
      LoadLineInv(st, lines[0], lineNo, strict);
      LoadLineErrors(st, lines[0], lineNo, strict);
      match LoadLine(st, lines[0], lineNo, strict)
      case Err(e) =>
      case Ok(next) => NoMetaAfterEntries(next, lines[1..], lineNo + 1, strict);
    }
  }

  lemma BuildFromTextNoMetaAfterEntries(src: string, strict: bool)
    ensures !BuildFromText(src, strict).Err? || !BuildFromText(src, strict).error.MetaAfterEntries?
  {
    StartInv();
    NoMetaAfterEntries(Start, Lines(src), 1, strict);
  }

  /** A line a strict load accepts is accepted the same way by a lenient
      one: strict mode only adds errors. */
  lemma StrictLineIsLenient(st: Loader, line: string, lineNo: nat)
    requires LoadLine(st, line, lineNo, true).Ok?
    ensures LoadLine(st, line, lineNo, false) == LoadLine(st, line, lineNo, true)
  {
    var raw := Trim(line);
    if raw == "" || raw[0] == '#' {
    } else if st.metaPhase && ParseMetaLine(raw).Some? {
      StrictMetaIsLenient(st, ParseMetaLine(raw).value.0, ParseMetaLine(raw).value.1, lineNo);
    } else {
      StrictEntryIsLenient(st.(metaPhase := false), line, lineNo);
    }
  }

  lemma StrictMetaIsLenient(st: Loader, key: string, value: string, lineNo: nat)
    requires ApplyMeta(st, key, value, lineNo, true).Ok?
    ensures ApplyMeta(st, key, value, lineNo, false) == ApplyMeta(st, key, value, lineNo, true)
  {
  }

  lemma StrictEntryIsLenient(st: Loader, line: string, lineNo: nat)
    requires LoadEntry(st, line, lineNo, true).Ok?
    ensures LoadEntry(st, line, lineNo, false) == LoadEntry(st, line, lineNo, true)
  {
  }

  lemma {:induction false} StrictLinesAreLenient(st: Loader, lines: seq<string>, lineNo: nat)
    requires LoadLines(st, lines, lineNo, true).Ok?
    ensures LoadLines(st, lines, lineNo, false) == LoadLines(st, lines, lineNo, true)
    decreases |lines|
  {
    if lines != [] {
      StrictLineIsLenient(st, lines[0], lineNo);
      var next := LoadLine(st, lines[0], lineNo, true).value;
      StrictLinesAreLenient(next, lines[1..], lineNo + 1);
    }
  }

  /** Whatever a strict load builds, a lenient load of the same text builds
      too. */
  lemma StrictLoadIsLenient(src: string)
    requires BuildFromText(src, true).Ok?
    ensures BuildFromText(src, false) == BuildFromText(src, true)
  {
    StrictLinesAreLenient(Start, Lines(src), 1);
  }

  /** In lenient mode the only line that stops a load is a duplicate
      token. */
  lemma {:induction false} LenientLinesErrors(st: Loader, lines: seq<string>, lineNo: nat)
    ensures LoadLines(st, lines, lineNo, false).Err? ==> LoadLines(st, lines, lineNo, false).error.DuplicateToken?
    decreases |lines|
  {
    if lines != [] {
      LoadLineErrors(st, lines[0], lineNo, false);
      match LoadLine(st, lines[0], lineNo, false)
      case Err(e) =>
      case Ok(next) => LenientLinesErrors(next, lines[1..], lineNo + 1);
    }
  }

  /** A lenient load fails only on a duplicate token or when no entry was
      loaded. */
  lemma LenientLoadErrors(src: string)
    ensures BuildFromText(src, false).Err? ==>
      BuildFromText(src, false).error.DuplicateToken? || BuildFromText(src, false).error == NoEntries
  {
    LenientLinesErrors(Start, Lines(src), 1);
  }

  /** A second entry line for a token already loaded stops the load in
      either mode, at that line. */
  lemma DuplicateTokenStops(st: Loader, line: string, lineNo: nat, strict: bool)
    requires !st.metaPhase && ParseLine(line).Entry? && ParseLine(line).token in st.snapshot.catalog
    ensures LoadLine(st, line, lineNo, strict) == Err(DuplicateToken(lineNo, ParseLine(line).token))
  {
    assert st.(metaPhase := false) == st;
    assert LoadEntry(st, line, lineNo, strict) == Err(DuplicateToken(lineNo, ParseLine(line).token));
  }

  /** In lenient mode a malformed line changes nothing but ending the meta
      phase. */
  lemma MalformedLineSkipped(st: Loader, line: string, lineNo: nat)
    requires ParseLine(line).Malformed?
    requires !st.metaPhase || ParseMetaLine(Trim(line)).None?
    ensures LoadLine(st, line, lineNo, false) == Ok(st.(metaPhase := false))
    ensures LoadLine(st, line, lineNo, true) == Err(ParseError(lineNo, ParseLine(line).error))
  {
  }

  // ---------------------------------------------------------------------
  // Writing a catalog as text and reading it back

  /** A key an entry line can carry and `parse_line` hands back unchanged:
      a loaded key that cannot be mistaken for a comment or a `@meta`
      line, holds no `:`, `(` or line break, has no surrounding whitespace,
      and whose base holds no `{`. */
  predicate EntryKey(k: string) {
    && k != [] && k[0] != '#' && k[0] != '@' && Trimmed(k)
    && NoChar(k, ':') && NoChar(k, '(') && NoChar(k, '\n')
    && NoChar(SplitKey(k).0, '{')
    && LoadedKey(k)
  }

  /** The catalog line `key:text`, with the text escaped. */
  function EntryLine(k: string, t: string): string {
    k + (":" + Escape(t))
  }

  /** The layout of an entry line, for a key with no `:` and a text with
      no surrounding whitespace. */
  lemma EntryLineParts(k: string, t: string)
    requires k != [] && !IsSpace(k[0]) && NoChar(k, ':') && NoChar(k, '\n') && Trimmed(t)
    ensures Trim(EntryLine(k, t)) == EntryLine(k, t)
    ensures EntryLine(k, t)[0] == k[0]
    ensures FindChar(EntryLine(k, t), ':', 0) == Some(|k|)
    ensures EntryLine(k, t)[..|k|] == k
    ensures EntryLine(k, t)[|k| + 1..] == Escape(t)
    ensures TrimLeft(Escape(t)) == Escape(t)
    ensures PlainLine(EntryLine(k, t))
  {
    var e := Escape(t);
    EscapeShape(t);
    assert NoChar(e, '\n');
    assert Trimmed(e);
    TrimOfTrimmed(e);
    JoinedTrim(k, e);
    JoinedColon(k, e);
    JoinedPlain(k, e);
  }

  lemma JoinedTrim(k: string, e: string)
    requires k != [] && !IsSpace(k[0]) && Trimmed(e)
    ensures Trim(k + (":" + e)) == k + (":" + e)
    ensures (k + (":" + e))[0] == k[0]
  {
    var line := k + (":" + e);
    assert line[|line| - 1] == if e == [] then ':' else e[|e| - 1];
    TrimOfTrimmed(line);
  }

  lemma JoinedColon(k: string, e: string)
    requires NoChar(k, ':')
    ensures FindChar(k + (":" + e), ':', 0) == Some(|k|)
    ensures (k + (":" + e))[..|k|] == k
    ensures (k + (":" + e))[|k| + 1..] == e
  {
    var line := k + (":" + e);
    forall j | 0 <= j < |k| ensures line[j] != ':' {
      assert line[j] == k[j];
    }
    assert line[|k|] == ':';
    FindCharAt(line, ':', 0, |k|);
    assert line[..|k|] == k;
    assert line[|k| + 1..] == e;
  }

  lemma JoinedPlain(k: string, e: string)
    requires NoChar(k, '\n') && NoChar(e, '\n') && (e == [] || e[|e| - 1] != '\r')
    ensures PlainLine(k + (":" + e))
  {
    var line := k + (":" + e);
    forall i | 0 <= i < |line| ensures line[i] != '\n' {
      if i < |k| {
        assert line[i] == k[i];
      } else if i > |k| {
        assert line[i] == e[i - |k| - 1];
      }
    }
    assert line[|line| - 1] == if e == [] then ':' else e[|e| - 1];
  }

  /** `parse_line` keeps an entry key as it is. */
  lemma NormalizeEntryKey(k: string)
    requires EntryKey(k)
    ensures NormalizeToken(k) == Some((k, SplitKey(k).0))
  {
    var (b, v) := SplitKey(k);
    if v == "" {
      assert FindChar(k, '{', 0).None?;
      ToLowerIdentity(k);
    } else {
      assert ParseVariantSuffix(k) == Some((b, v));
      FindCharAt(k, '{', 0, |b|);
    }
  }

  /** An entry line parses back to its key and text, with no label. */
  lemma ParseEntryLine(k: string, t: string)
    requires EntryKey(k) && Trimmed(t)
    ensures ParseLine(EntryLine(k, t)) == Entry(k, "", t)
    ensures ParseMetaLine(Trim(EntryLine(k, t))).None?
    ensures Trim(EntryLine(k, t)) != [] && Trim(EntryLine(k, t))[0] != '#'
  {
    EntryLineParts(k, t);
    TrimOfTrimmed(k);
    assert FindChar(k, '(', 0).None?;
    NormalizeEntryKey(k);
    UnescapeInvertsEscape(t);
    ParseLineOfParts(EntryLine(k, t), k, Escape(t));
    EntryPartsOfKey(k, Escape(t), t);
    NotMetaLine(EntryLine(k, t));
  }

  /** `parse_line` on a trimmed line `k:e` whose first colon ends `k`. */
  lemma ParseLineOfParts(line: string, k: string, e: string)
    requires Trim(line) == line && line != [] && line[0] != '#'
    requires FindChar(line, ':', 0) == Some(|k|) && |k| < |line|
    requires line[..|k|] == k && line[|k| + 1..] == e && TrimLeft(e) == e && Trim(k) == k
    ensures ParseLine(line) == ParseEntryParts(k, e)
  {
    ParseLineAtColon(line, |k|);
  }

  /** `parse_line` on a line whose first colon is at `colon` hands the two
      trimmed sides to the entry parser. */
  lemma ParseLineAtColon(line: string, colon: nat)
    requires Trim(line) != [] && Trim(line)[0] != '#'
    requires FindChar(Trim(line), ':', 0) == Some(colon) && colon < |Trim(line)|
    ensures ParseLine(line) == ParseEntryParts(Trim(Trim(line)[..colon]), TrimLeft(Trim(line)[colon + 1..]))
  {
  }

  /** `ParseEntryParts` on a head that is a plain key kept as it is. */
  lemma EntryPartsOfKey(k: string, e: string, t: string)
    requires FindChar(k, '(', 0).None?
    requires NormalizeToken(k) == Some((k, SplitKey(k).0))
    requires IsHexToken(SplitKey(k).0) || IsStyleToken(SplitKey(k).0)
    requires Unescape(e) == t
    ensures ParseEntryParts(k, e) == Entry(k, "", t)
  {
    assert SplitHead(k) == Some((k, ""));
  }

  /** A trimmed line that does not start with `@` is no `@meta` line. */
  lemma NotMetaLine(s: string)
    requires s != [] && s[0] != '@' && Trim(s) == s
    ensures ParseMetaLine(s).None?
  {
    assert !StartsWith(s, MetaTag) by {
      if |MetaTag| <= |s| {
        assert s[..|MetaTag|][0] != MetaTag[0];
      }
    }
  }

  /** Loading an entry line for a new key adds exactly that entry. */
  lemma LoadEntryLine(st: Loader, k: string, t: string, lineNo: nat, strict: bool)
    requires EntryKey(k) && Trimmed(t) && k !in st.snapshot.catalog
    ensures LoadLine(st, EntryLine(k, t), lineNo, strict) == Ok(AddEntry(st.(metaPhase := false), k, "", t))
  {
    ParseEntryLine(k, t);
  }

  /** One entry line per key, in the order given. */
  function CatalogLines(keys: seq<string>, catalog: map<string, string>): (r: seq<string>)
    requires forall i :: 0 <= i < |keys| ==> keys[i] in catalog
    ensures |r| == |keys|
    ensures forall i :: 0 <= i < |keys| ==> r[i] == EntryLine(keys[i], catalog[keys[i]])
  {
    if keys == [] then [] else [EntryLine(keys[0], catalog[keys[0]])] + CatalogLines(keys[1..], catalog)
  }

  /** A catalog written as text, one `key:text` line per key. */
  function CatalogText(keys: seq<string>, catalog: map<string, string>): string
    requires forall i :: 0 <= i < |keys| ==> keys[i] in catalog
  {
    JoinLines(CatalogLines(keys, catalog))
  }

  /** What a catalog must satisfy to be written as text and read back: every
      key is an entry key and no text has surrounding whitespace (the
      loader trims the line, and drops the whitespace after the `:`). */
  predicate Writable(catalog: map<string, string>) {
    forall k :: k in catalog ==> EntryKey(k) && Trimmed(catalog[k])
  }

  predicate Distinct(keys: seq<string>) {
    forall i, j :: 0 <= i < j < |keys| ==> keys[i] != keys[j]
  }

  /** The entries of `keys` added one after another, as their lines are
      loaded. */
  function AddEntries(st: Loader, keys: seq<string>, catalog: map<string, string>): Loader
    requires forall i :: 0 <= i < |keys| ==> keys[i] in catalog
    decreases |keys|
  {
    if keys == [] then st
    else AddEntries(AddEntry(st.(metaPhase := false), keys[0], "", catalog[keys[0]]), keys[1..], catalog)
  }

  /** Loading lines that each add the entry of a fresh key succeeds and
      adds the entries one by one; the lines are any whose every step adds
      its key's entry to any state that lacks the key. */
  lemma {:induction false} LoadEntryLines(st: Loader, lines: seq<string>, keys: seq<string>,
                                          catalog: map<string, string>, lineNo: nat, strict: bool)
    requires |lines| == |keys|
    requires forall i :: 0 <= i < |keys| ==> keys[i] in catalog && keys[i] !in st.snapshot.catalog
    requires Distinct(keys)
    requires forall i, s: Loader, n: nat :: 0 <= i < |lines| && keys[i] !in s.snapshot.catalog ==>
      LoadLine(s, lines[i], n, strict) == Ok(AddEntry(s.(metaPhase := false), keys[i], "", catalog[keys[i]]))
    ensures LoadLines(st, lines, lineNo, strict) == Ok(AddEntries(st, keys, catalog))
    decreases |keys|
  {
    if keys != [] {
      var next := AddEntry(st.(metaPhase := false), keys[0], "", catalog[keys[0]]);
      TailStaysFresh(st, keys, catalog);
      LoadEntryLines(next, lines[1..], keys[1..], catalog, lineNo + 1, strict);
    }
  }

  /** The lines of a writable catalog each add their key's entry. */
  lemma CatalogLinesStep(keys: seq<string>, catalog: map<string, string>, strict: bool)
    requires forall i :: 0 <= i < |keys| ==> keys[i] in catalog
    requires Writable(catalog)
    ensures forall i, s: Loader, n: nat :: 0 <= i < |keys| && keys[i] !in s.snapshot.catalog ==>
      LoadLine(s, CatalogLines(keys, catalog)[i], n, strict) == Ok(AddEntry(s.(metaPhase := false), keys[i], "", catalog[keys[i]]))
  {
    forall i, s: Loader, n: nat | 0 <= i < |keys| && keys[i] !in s.snapshot.catalog
      ensures LoadLine(s, CatalogLines(keys, catalog)[i], n, strict) ==
        Ok(AddEntry(s.(metaPhase := false), keys[i], "", catalog[keys[i]]))
    {
      LoadEntryLine(s, keys[i], catalog[keys[i]], n, strict);
    }
  }

  /** Adding fresh, distinct keys adds exactly their entries and changes no
      meta field and no label. */
  lemma {:induction false} AddEntriesContents(st: Loader, keys: seq<string>, catalog: map<string, string>)
    requires forall i :: 0 <= i < |keys| ==> keys[i] in catalog && keys[i] !in st.snapshot.catalog
    requires Distinct(keys)
    ensures forall k :: k in AddEntries(st, keys, catalog).snapshot.catalog <==> k in st.snapshot.catalog || k in keys
    ensures forall k :: k in keys ==> AddEntries(st, keys, catalog).snapshot.catalog[k] == catalog[k]
    ensures forall k :: k in st.snapshot.catalog ==>
      AddEntries(st, keys, catalog).snapshot.catalog[k] == st.snapshot.catalog[k]
    ensures AddEntries(st, keys, catalog).snapshot.labels == st.snapshot.labels
    ensures AddEntries(st, keys, catalog).loaded == st.loaded + |keys|
    decreases |keys|
  {
    if keys != [] {
      var k := keys[0];
      var next := AddEntry(st.(metaPhase := false), k, "", catalog[k]);
      TailStaysFresh(st, keys, catalog);
      AddEntriesContents(next, keys[1..], catalog);
      assert forall k' :: k' in keys <==> k' == k || k' in keys[1..];
    }
  }

  /** Adding entries changes no meta field. */
  lemma {:induction false} AddEntriesMeta(st: Loader, keys: seq<string>, catalog: map<string, string>)
    requires forall i :: 0 <= i < |keys| ==> keys[i] in catalog
    ensures AddEntries(st, keys, catalog).snapshot.locale == st.snapshot.locale
    ensures AddEntries(st, keys, catalog).snapshot.fallback == st.snapshot.fallback
    ensures AddEntries(st, keys, catalog).snapshot.note == st.snapshot.note
    ensures AddEntries(st, keys, catalog).snapshot.plural == st.snapshot.plural
    decreases |keys|
  {
    if keys != [] {
      AddEntriesMeta(AddEntry(st.(metaPhase := false), keys[0], "", catalog[keys[0]]), keys[1..], catalog);
    }
  }

  /** Every catalog line is one `Lines` gives back. */
  lemma CatalogLinesPlain(keys: seq<string>, catalog: map<string, string>)
    requires forall i :: 0 <= i < |keys| ==> keys[i] in catalog
    requires Writable(catalog)
    ensures forall i :: 0 <= i < |keys| ==> PlainLine(CatalogLines(keys, catalog)[i])
    ensures |keys| > 0 ==> CatalogLines(keys, catalog)[|keys| - 1] != []
  {
    forall i | 0 <= i < |keys| ensures PlainLine(CatalogLines(keys, catalog)[i]) {
      EntryLineParts(keys[i], catalog[keys[i]]);
    }
  }

  /** Text round trip: a non-empty catalog written one `key:text` line per
      key, in any order, loads back in either mode as exactly that catalog,
      with its variant index, no labels and the default meta fields. */
  lemma TextRoundTrip(keys: seq<string>, catalog: map<string, string>, strict: bool)
    requires |keys| > 0 && Distinct(keys) && (forall k :: k in catalog <==> k in keys)
    requires Writable(catalog)
    ensures BuildFromText(CatalogText(keys, catalog), strict).Ok?
    ensures BuildFromText(CatalogText(keys, catalog), strict).value.catalog == catalog
    ensures BuildFromText(CatalogText(keys, catalog), strict).value.pluralVariants == VariantsOf(catalog.Keys)
    ensures BuildFromText(CatalogText(keys, catalog), strict).value.labels == map[]
    ensures BuildFromText(CatalogText(keys, catalog), strict).value.locale == ""
    ensures BuildFromText(CatalogText(keys, catalog), strict).value.fallback == ""
    ensures BuildFromText(CatalogText(keys, catalog), strict).value.note == ""
    ensures BuildFromText(CatalogText(keys, catalog), strict).value.plural == Default
  {
    LoadCatalogText(keys, catalog, strict);
    AddedCatalog(keys, catalog);
  }

  /** The entries of a whole catalog added to the start state give that
      catalog, its variant index, no labels and the default meta fields. */
  lemma AddedCatalog(keys: seq<string>, catalog: map<string, string>)
    requires |keys| > 0 && Distinct(keys) && (forall k :: k in catalog <==> k in keys)
    requires Writable(catalog)
    ensures AddEntries(Start, keys, catalog).loaded > 0
    ensures AddEntries(Start, keys, catalog).snapshot.catalog == catalog
    ensures AddEntries(Start, keys, catalog).snapshot.pluralVariants == VariantsOf(catalog.Keys)
    ensures AddEntries(Start, keys, catalog).snapshot.labels == map[]
    ensures AddEntries(Start, keys, catalog).snapshot.locale == ""
    ensures AddEntries(Start, keys, catalog).snapshot.fallback == ""
    ensures AddEntries(Start, keys, catalog).snapshot.note == ""
    ensures AddEntries(Start, keys, catalog).snapshot.plural == Default
  {
    AddEntriesContents(Start, keys, catalog);
    AddEntriesMeta(Start, keys, catalog);
    AddedCatalogMap(keys, catalog);
    AddedCatalogVariants(keys, catalog);
  }

  /** The entries of a whole catalog added to the start state are that catalog. */
  lemma AddedCatalogMap(keys: seq<string>, catalog: map<string, string>)
    requires Distinct(keys) && (forall k :: k in catalog <==> k in keys)
    ensures AddEntries(Start, keys, catalog).snapshot.catalog == catalog
  {
    AddEntriesContents(Start, keys, catalog);
  }

  /** The variant index built while adding a whole writable catalog is the
      index of its keys. */
  lemma AddedCatalogVariants(keys: seq<string>, catalog: map<string, string>)
    requires Distinct(keys) && (forall k :: k in catalog <==> k in keys)
    requires Writable(catalog)
    ensures AddEntries(Start, keys, catalog).snapshot.pluralVariants == VariantsOf(catalog.Keys)
  {
    StartInv();
    AddEntriesInv(Start, keys, catalog);
    AddedCatalogMap(keys, catalog);
  }

  /** After the first key is added, the other keys are still fresh. */
  lemma TailStaysFresh(st: Loader, keys: seq<string>, catalog: map<string, string>)
    requires |keys| > 0 && keys[0] in catalog
    requires forall i :: 0 <= i < |keys| ==> keys[i] !in st.snapshot.catalog
    requires Distinct(keys)
    ensures forall i :: 0 <= i < |keys[1..]| ==>
      keys[1..][i] !in AddEntry(st.(metaPhase := false), keys[0], "", catalog[keys[0]]).snapshot.catalog
  {
    var next := AddEntry(st.(metaPhase := false), keys[0], "", catalog[keys[0]]);
    assert next.snapshot.catalog.Keys == st.snapshot.catalog.Keys + {keys[0]};
    forall i | 0 <= i < |keys[1..]| ensures keys[1..][i] !in next.snapshot.catalog {
      assert keys[1..][i] == keys[i + 1];
    }
  }

  /** Adding fresh, distinct loaded keys keeps the invariant. */
  lemma {:induction false} AddEntriesInv(st: Loader, keys: seq<string>, catalog: map<string, string>)
    requires LoaderInv(st)
    requires forall i :: 0 <= i < |keys| ==> keys[i] in catalog && keys[i] !in st.snapshot.catalog && LoadedKey(keys[i])
    requires Distinct(keys)
    ensures LoaderInv(AddEntries(st, keys, catalog))
    decreases |keys|
  {
    if keys != [] {
      var k := keys[0];
      AddEntryInv(st.(metaPhase := false), k, "", catalog[k]);
      var next := AddEntry(st.(metaPhase := false), k, "", catalog[k]);
      TailStaysFresh(st, keys, catalog);
      AddEntriesInv(next, keys[1..], catalog);
    }
  }

  lemma LoadCatalogText(keys: seq<string>, catalog: map<string, string>, strict: bool)
    requires |keys| > 0 && Distinct(keys) && (forall k :: k in catalog <==> k in keys)
    requires Writable(catalog)
    ensures LoadLines(Start, Lines(CatalogText(keys, catalog)), 1, strict) == Ok(AddEntries(Start, keys, catalog))
  {
    var lines := CatalogLines(keys, catalog);
    CatalogLinesPlain(keys, catalog);
    LinesOfJoin(lines);
    CatalogLinesStep(keys, catalog, strict);
    LoadEntryLines(Start, lines, keys, catalog, 1, strict);
  }

  /** Every key the binary format carries can be written as an entry line,
      so a hex catalog also survives the text round trip. */
  lemma CanonicalIsEntryKey(k: string)
    requires CanonicalKey(k)
    ensures EntryKey(k)
  {
    var (b, v) := SplitKey(k);
    SplitKeyShape(k);
    assert forall i :: 0 <= i < |b| ==> IsHexDigit(b[i]);
    if v != "" {
      KeyPartsChars(b, v);
    }
  }

  /** The characters of a lowercase hex base with a valid variant suffix. */
  lemma KeyPartsChars(b: string, v: string)
    requires IsHexToken(b) && IsLowerString(b) && IsVariantValid(v)
    ensures forall i :: 0 <= i < |b + "{" + v + "}"| ==>
      var c := (b + "{" + v + "}")[i]; c != ':' && c != '(' && c != '\n' && !IsUpper(c) && !IsSpace(c)
  {
    var k := b + "{" + v + "}";
    forall i | 0 <= i < |k| ensures k[i] != ':' && k[i] != '(' && k[i] != '\n' && !IsUpper(k[i]) && !IsSpace(k[i]) {
      if i < |b| {
        assert k[i] == b[i];
      } else if |b| < i < |k| - 1 {
        assert k[i] == v[i - |b| - 1];
        assert IsVariantChar(v[i - |b| - 1]);
      }
    }
  }
}
