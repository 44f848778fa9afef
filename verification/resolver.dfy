/** The template resolver: inline `@token` references, `%N` placeholders,
    the style builder, and the depth- and cycle-bounded recursion of
    `translate_impl`, `resolve_arg` and `resolve_plain_text`. Texts are
    walked as suffixes: each step looks at the start of what is left. */
module Resolver {
  import opened Wrappers
  import opened Ascii
  import opened Catalog
  import opened Ordering

  // ---------------------------------------------------------------------
  // Inline references

  const StylePrefix: string := "style_"

  /** The characters of a style token name: `isalnum`, `_` and `-`. */
  predicate IsRunChar(c: char) {
    IsAlnum(c) || c == '_' || c == '-'
  }

  /** The name loop of `parse_style_inline`, from index `p` of the text
      after the `@`: it stops at the first non-name character and fails
      once a name character sits past index 64. */
  function StyleRun(t: string, p: nat): (r: Option<nat>)
    requires p <= |t|
    ensures r.Some? ==> p <= r.value <= |t| && (r.value == |t| || !IsRunChar(t[r.value]))
    ensures r.Some? ==> r.value <= 65 || r.value == p
    ensures r.Some? ==> forall i :: p <= i < r.value ==> IsRunChar(t[i])
    decreases |t| - p
  {
    if p < |t| && IsRunChar(t[p]) then
      if p > 64 then None else StyleRun(t, p + 1)
    else Some(p)
  }

  /** The variant loop of `parse_style_inline`: collects lowercased
      characters up to the first `}` and gives up past 16 of them. */
  function StyleVariant(t: string, k: nat, acc: string): (r: Option<(string, nat)>)
    ensures r.Some? ==> k <= r.value.1 < |t| && t[r.value.1] == '}' && IsVariantValid(r.value.0)
    decreases |t| - k
  {
    if k < |t| && t[k] != '}' then
      var acc' := acc + [LowerChar(t[k])];
      if |acc'| > 16 then None else StyleVariant(t, k + 1, acc')
    else if k >= |t| || acc == [] || !IsVariantValid(acc) then None
    else Some((acc, k))
  }

  /** `parse_style_inline` on the text `t` after the `@`: `style_` in any
      case, a name, and optionally a `{variant}`. The name keeps its case;
      the variant is lowercased. Gives the token and how much of `t` it
      used. */
  function StyleRef(t: string): (r: Option<(string, nat)>)
    ensures r.Some? ==> 7 <= r.value.1 <= |t|
  {
    if |t| <= |StylePrefix| || ToLower(t[..|StylePrefix|]) != StylePrefix then None
    else
      match StyleRun(t, |StylePrefix|)
      case None => None
      case Some(stop) =>
        if stop < |t| && t[stop] == '{' then
          match StyleVariant(t, stop + 1, "")
          case None => None
          case Some((v, close)) => Some((t[..stop] + "{" + v + "}", close + 1))
        else if stop <= |StylePrefix| then None
        else Some((t[..stop], stop))
  }

  /** The hex loop of `try_parse_inline_token`: up to 32 hex digits. */
  function HexRunLen(t: string, n: nat): (r: nat)
    requires n <= |t| && n <= 32
    ensures n <= r <= |t| && r <= 32
    ensures forall i :: n <= i < r ==> IsHexDigit(t[i])
    ensures r == |t| || r == 32 || !IsHexDigit(t[r])
    decreases |t| - n
  {
    if n < |t| && n < 32 && IsHexDigit(t[n]) then HexRunLen(t, n + 1) else n
  }

  /** The variant loop after a hex token: collects characters up to the
      first `}` and stops once it holds 17. Gives where it stopped and what
      it collected. */
  function HexVariantScan(t: string, k: nat, acc: string): (r: (nat, string))
    requires k <= |t|
    ensures k <= r.0 <= |t|
    decreases |t| - k
  {
    if k < |t| && t[k] != '}' then
      var acc' := acc + [t[k]];
      if |acc'| > 16 then (k + 1, acc') else HexVariantScan(t, k + 1, acc')
    else (k, acc)
  }

  /** The hex branch of `try_parse_inline_token` on the text `t` after the
      `@`: 6 to 32 hex digits, lowercased, optionally followed by a
      `{variant}` that must be valid once lowercased. */
  function HexRef(t: string): (r: Option<(string, nat)>)
    ensures r.Some? ==> 6 <= r.value.1 <= |t|
  {
    var n := HexRunLen(t, 0);
    if n < 6 then None
    else
      var base := ToLower(t[..n]);
      if n < |t| && t[n] == '{' then
        var (k, raw) := HexVariantScan(t, n + 1, "");
        if k >= |t| || t[k] != '}' || raw == [] then None
        else
          var v := ToLower(raw);
          if !IsVariantValid(v) then None
          else Some((base + "{" + v + "}", k + 1))
      else Some((base, n))
  }

  /** Every token the hex branch reads is a canonical key. */
  lemma HexRefIsCanonical(t: string)
    requires HexRef(t).Some?
    ensures CanonicalKey(HexRef(t).value.0)
  {
    var n := HexRunLen(t, 0);
    HexBase(t, n);
    var base := ToLower(t[..n]);
    if n < |t| && t[n] == '{' {
      var (k, raw) := HexVariantScan(t, n + 1, "");
      CanonicalKeyOfParts(base, ToLower(raw));
    } else {
      CanonicalKeyOfParts(base, "");
    }
  }

  lemma HexBase(t: string, n: nat)
    requires 6 <= n <= 32 && n <= |t| && forall i :: 0 <= i < n ==> IsHexDigit(t[i])
    ensures IsHexToken(ToLower(t[..n])) && IsLowerString(ToLower(t[..n]))
  {
    ToLowerIsLower(t[..n]);
  }

  /** `try_parse_inline_token` at the start of `s`: a reference after an
      `@` (not `@@`), tried first as a style token and then as a hex token.
      Gives the token and how many characters it spans, `@` included. */
  function InlineToken(s: string): (r: Option<(string, nat)>)
    ensures r.Some? ==> 2 <= r.value.1 <= |s|
  {
    if |s| < 2 || s[0] != '@' || s[1] == '@' then None
    else
      match StyleRef(s[1..])
      case Some((token, used)) => Some((token, used + 1))
      case None =>
        match HexRef(s[1..])
        case Some((token, used)) => Some((token, used + 1))
        case None => None
  }

  /** Every reference is a canonical hex key or starts with `style_` once
      lowercased. */
  lemma InlineTokenShape(s: string)
    requires InlineToken(s).Some?
    ensures CanonicalKey(InlineToken(s).value.0) || StartsWith(ToLower(InlineToken(s).value.0), StylePrefix)
  {
    if StyleRef(s[1..]).Some? {
      StyleRefPrefix(s[1..]);
    } else {
      HexRefIsCanonical(s[1..]);
    }
  }

  lemma StyleRefPrefix(t: string)
    requires StyleRef(t).Some?
    ensures StartsWith(ToLower(StyleRef(t).value.0), StylePrefix)
  {
    var token := StyleRef(t).value.0;
    assert token[..|StylePrefix|] == t[..|StylePrefix|];
    assert ToLower(token)[..|StylePrefix|] == ToLower(t[..|StylePrefix|]);
  }

  // ---------------------------------------------------------------------
  // Placeholder indices and markers

  /** How many digits `s` starts with. */
  function DigitRun(s: string): (n: nat)
    ensures n <= |s|
    ensures forall i :: 0 <= i < n ==> IsDigit(s[i])
    ensures n == |s| || !IsDigit(s[n])
  {
    if s != [] && IsDigit(s[0]) then 1 + DigitRun(s[1..]) else 0
  }

  function DigitValue(c: char): nat {
    if IsDigit(c) then c as int - '0' as int else 0
  }

  /** The `idx = idx * 10 + digit` loop, without the `int` overflow. */
  function DigitsValue(s: string): nat {
    if s == [] then 0 else DigitsValue(s[..|s| - 1]) * 10 + DigitValue(s[|s| - 1])
  }

  /** `std::to_string` of a natural number. */
  function Decimal(n: nat): (r: string)
    ensures r != [] && forall i :: 0 <= i < |r| ==> IsDigit(r[i])
  {
    if n < 10 then [('0' as int + n) as char] else Decimal(n / 10) + [('0' as int + n % 10) as char]
  }

  /** Reading back the decimal form of a number gives the number. */
  lemma {:induction false} DigitsValueOfDecimal(n: nat)
    ensures DigitsValue(Decimal(n)) == n
  {
    if n >= 10 {
      DigitsValueOfDecimal(n / 10);
      var d := Decimal(n);
      assert d[..|d| - 1] == Decimal(n / 10);
    }
  }

  /** The UTF-8 bytes of the brackets around every marker. */
  const MarkOpen: string := [0xE2 as char, 0x9F as char, 0xA6 as char]
  const MarkClose: string := [0xE2 as char, 0x9F as char, 0xA7 as char]

  function Marker(body: string): string {
    MarkOpen + body + MarkClose
  }

  const RecursionLimitMarker: string := Marker("RECURSION_LIMIT")

  function CycleMarker(token: string): string {
    Marker("CYCLE:" + token)
  }

  function MissingMarker(token: string): string {
    Marker("MISSING:@" + token)
  }

  function ArgMarker(idx: nat): string {
    Marker("arg:" + Decimal(idx))
  }

  // ---------------------------------------------------------------------
  // Resolution

  /** The view of a `StyleCatalogSnapshot` the resolver needs: the texts and
      the style registry built from them. */
  datatype StyleCatalog = StyleCatalog(catalog: map<string, string>, registry: map<string, seq<StyleProperty>>)

  function StyleCatalogOf(s: Snapshot): (c: StyleCatalog)
    ensures c.catalog == s.catalog
  {
    StyleCatalog(s.catalog, StyleRegistry(s.catalog))
  }

  /** The deepest level `translate_impl` still expands. */
  const MaxDepth: nat := 32

  /** What is left of the depth budget; every call chain that does not
      return at once goes one level deeper. */
  function Budget(depth: nat): nat {
    if depth > MaxDepth then 0 else MaxDepth + 1 - depth
  }

  /** `translate_impl`. The `seen` set is passed by value: every token the
      C++ code inserts is erased again before it returns. */
  function Translate(c: StyleCatalog, token: string, args: seq<string>, seen: set<string>, depth: nat): string
    decreases Budget(depth), if depth > MaxDepth then 0 else 3, 0
  {
    if depth > MaxDepth then RecursionLimitMarker
    else if token in seen then CycleMarker(token)
    else
      var inner := seen + {token};
      match BuildStyle(c, token, args, inner, depth)
      case Some(style) => style
      case None =>
        if token !in c.catalog then Marker(token)
        else Expand(c, c.catalog[token], args, inner, depth, depth)
  }

  /** `resolve_plain_text`. */
  function ResolvePlain(c: StyleCatalog, raw: string, args: seq<string>, seen: set<string>, depth: nat): string
    decreases Budget(depth), if depth > MaxDepth then 0 else 3, 0
  {
    if depth > MaxDepth then RecursionLimitMarker
    else Expand(c, raw, args, seen, depth, depth + 1)
  }

  /** The loop `translate_impl` and `resolve_plain_text` share: references
      are translated one level deeper, arguments are resolved at `argDepth`
      (the same level in `translate_impl`, one deeper in
      `resolve_plain_text`), `@@` stands for `@`, and every other character
      is copied. */
  function Expand(c: StyleCatalog, raw: string, args: seq<string>, seen: set<string>, depth: nat, argDepth: nat): string
    requires argDepth >= depth
    decreases Budget(depth), 2, |raw|
  {
    if raw == [] then ""
    else if raw[0] == '@' then
      match InlineToken(raw)
      case Some((ref, used)) =>
        var piece := if ref !in c.catalog then MissingMarker(ref) else Translate(c, ref, args, seen, depth + 1);
        piece + Expand(c, raw[used..], args, seen, depth, argDepth)
      case None =>
        if |raw| > 1 && raw[1] == '@' then "@" + Expand(c, raw[2..], args, seen, depth, argDepth)
        else "@" + Expand(c, raw[1..], args, seen, depth, argDepth)
    else if raw[0] == '%' && |raw| > 1 && IsDigit(raw[1]) then
      var n := DigitRun(raw[1..]);
      var idx := DigitsValue(raw[1..n + 1]);
      var piece := if idx < |args| then ResolveArg(c, args[idx], seen, argDepth) else ArgMarker(idx);
      piece + Expand(c, raw[n + 1..], args, seen, depth, argDepth)
    else [raw[0]] + Expand(c, raw[1..], args, seen, depth, argDepth)
  }

  /** `resolve_arg`: `=x` is the literal `x`; an argument naming a hex
      catalog key (in any case, with an optional variant) is translated
      with no arguments; anything else is used as it is. */
  function ResolveArg(c: StyleCatalog, arg: string, seen: set<string>, depth: nat): string
    decreases Budget(depth), 1, 0
  {
    if arg != [] && arg[0] == '=' then arg[1..]
    else
      var (base, lookup) := ArgLookup(arg);
      if !IsHexToken(base) || lookup !in c.catalog then arg
      else Translate(c, lookup, [], seen, depth + 1)
  }

  /** The base and the catalog key `resolve_arg` derives from an argument. */
  function ArgLookup(arg: string): (string, string) {
    var normalized := ToLower(arg);
    match ParseVariantSuffix(normalized)
    case Some((b, v)) => (b, b + "{" + v + "}")
    case None => (normalized, normalized)
  }

  /** `try_build_style_string`: the registered properties of a style token
      rendered as `name: value;` entries (unnamed `@` properties contribute
      their resolved text), with trailing spaces removed; nothing when the
      token is not registered or the result is empty. */
  function BuildStyle(c: StyleCatalog, token: string, args: seq<string>, seen: set<string>, depth: nat): (r: Option<string>)
    ensures r.Some? ==> token in c.registry && r.value != [] && r.value[|r.value| - 1] != ' '
    decreases Budget(depth), 2, 0
  {
    if token !in c.registry || c.registry[token] == [] then None
    else
      var built := DropTrailingSpaces(StyleEntries(c, c.registry[token], "", args, seen, depth));
      if built == [] then None else Some(built)
  }

  /** The property loop of `try_build_style_string`, appending to
      `builder`. */
  function StyleEntries(c: StyleCatalog, props: seq<StyleProperty>, builder: string, args: seq<string>,
                        seen: set<string>, depth: nat): string
    decreases Budget(depth), 1, |props|
  {
    if props == [] then builder
    else
      var resolved := ResolvePlain(c, props[0].value, args, seen, depth + 1);
      StyleEntries(c, props[1..], AppendEntry(builder, props[0].name, resolved), args, seen, depth)
  }

  /** One property appended to the builder: an unnamed property adds its
      non-empty text and a space, a named one adds `name: value;`, each
      after a separating space. */
  function AppendEntry(builder: string, name: string, resolved: string): string {
    if name == [] then
      if resolved == [] then builder else Separated(builder) + resolved + " "
    else Separated(builder) + name + ": " + resolved + ";"
  }

  function Separated(builder: string): (r: string)
    ensures r == [] || r[|r| - 1] == ' ' || r == builder
  {
    if builder != [] && builder[|builder| - 1] != ' ' then builder + " " else builder
  }

  function DropTrailingSpaces(s: string): (r: string)
    ensures r == [] || r[|r| - 1] != ' '
    ensures |r| <= |s| && r == s[..|r|] && forall i :: |r| <= i < |s| ==> s[i] == ' '
  {
    if s != [] && s[|s| - 1] == ' ' then DropTrailingSpaces(s[..|s| - 1]) else s
  }

  // ---------------------------------------------------------------------
  // Reading references back

  /** What may follow a hex reference without being read as part of it:
      the end of the text, or a character that is neither a hex digit nor
      `{`. */
  predicate HexBoundary(rest: string) {
    rest == [] || (!IsHexDigit(rest[0]) && rest[0] != '{')
  }

  /** What may follow a style reference without being read as part of it. */
  predicate StyleBoundary(rest: string) {
    rest == [] || (!IsRunChar(rest[0]) && rest[0] != '{')
  }

  lemma {:induction false} HexRunLenAt(t: string, n: nat, m: nat)
    requires n <= m <= |t| && m <= 32
    requires forall i :: n <= i < m ==> IsHexDigit(t[i])
    requires m == |t| || m == 32 || !IsHexDigit(t[m])
    ensures HexRunLen(t, n) == m
    decreases m - n
  {
    if n < m {
      HexRunLenAt(t, n + 1, m);
    }
  }

  lemma {:induction false} HexVariantScanAt(t: string, k: nat, acc: string, close: nat)
    requires k <= close < |t| && t[close] == '}'
    requires forall i :: k <= i < close ==> t[i] != '}'
    requires |acc| + (close - k) <= 16
    ensures HexVariantScan(t, k, acc) == (close, acc + t[k..close])
    decreases close - k
  {
    if k < close {
      HexVariantScanAt(t, k + 1, acc + [t[k]], close);
      assert acc + [t[k]] + t[k + 1..close] == acc + t[k..close];
    } else {
      assert t[k..close] == [] && acc + [] == acc;
      assert HexVariantScan(t, k, acc) == (k, acc);
    }
  }

  lemma {:induction false} StyleRunAt(t: string, p: nat, stop: nat)
    requires p <= stop <= |t| && stop <= 65
    requires forall i :: p <= i < stop ==> IsRunChar(t[i])
    requires stop == |t| || !IsRunChar(t[stop])
    ensures StyleRun(t, p) == Some(stop)
    decreases stop - p
  {
    if p < stop {
      StyleRunAt(t, p + 1, stop);
    }
  }

  lemma {:induction false} StyleVariantAt(t: string, k: nat, acc: string, close: nat)
    requires k <= close < |t| && t[close] == '}'
    requires forall i :: k <= i < close ==> t[i] != '}'
    requires IsVariantValid(acc + t[k..close])
    ensures StyleVariant(t, k, acc) == Some((acc + t[k..close], close))
    decreases close - k
  {
    if k < close {
      var full := acc + t[k..close];
      assert full[|acc|] == t[k] && IsVariantChar(full[|acc|]);
      assert acc + [LowerChar(t[k])] + t[k + 1..close] == full;
      StyleVariantAt(t, k + 1, acc + [LowerChar(t[k])], close);
    } else {
      assert acc + t[k..close] == acc;
    }
  }

  /** Text that starts with a hex digit is no style reference. */
  lemma HexTextIsNoStyleRef(t: string)
    requires t != [] && IsHexDigit(t[0])
    ensures StyleRef(t).None?
  {
    if |t| > |StylePrefix| {
      assert ToLower(t[..|StylePrefix|])[0] != StylePrefix[0];
    }
  }

  /** The hex branch reads a hex base and variant back as their key. */
  lemma HexRefOfParts(b: string, v: string, rest: string)
    requires IsHexToken(b) && IsLowerString(b)
    requires v == "" || IsVariantValid(v)
    requires v != "" || HexBoundary(rest)
    ensures HexRef(KeyOf(b, v) + rest) == Some((KeyOf(b, v), |KeyOf(b, v)|))
  {
    if v == "" {
      HexRefOfBase(b, rest);
    } else {
      HexRefOfVariant(b, v, rest);
    }
  }

  lemma HexRefOfBase(b: string, rest: string)
    requires IsHexToken(b) && IsLowerString(b) && HexBoundary(rest)
    ensures HexRef(b + rest) == Some((b, |b|))
  {
    var t := b + rest;
    assert t[..|b|] == b;
    assert forall i :: 0 <= i < |b| ==> t[i] == b[i];
    assert |b| < |t| ==> t[|b|] == rest[0];
    HexRunLenAt(t, 0, |b|);
    ToLowerIdentity(b);
  }

  lemma HexRefOfVariant(b: string, v: string, rest: string)
    requires IsHexToken(b) && IsLowerString(b) && IsVariantValid(v)
    ensures HexRef(b + "{" + v + "}" + rest) == Some((b + "{" + v + "}", |b| + |v| + 2))
  {
    var t := b + "{" + v + "}" + rest;
    HexVariantScans(b, v, rest, t);
    HexRefVariantStep(t, |b|, |b| + 1 + |v|, v);
  }

  /** Both loops of the hex branch stop where the key's parts end. */
  lemma HexVariantScans(b: string, v: string, rest: string, t: string)
    requires IsHexToken(b) && IsLowerString(b) && IsVariantValid(v)
    requires t == b + "{" + v + "}" + rest
    ensures |b| + 1 + |v| < |t| && t[|b|] == '{' && t[|b| + 1 + |v|] == '}'
    ensures HexRunLen(t, 0) == |b|
    ensures HexVariantScan(t, |b| + 1, "") == (|b| + 1 + |v|, v)
    ensures ToLower(t[..|b|]) == b && ToLower(v) == v
  {
    HexVariantLayout(b, v, rest);
    HexRunLenAt(t, 0, |b|);
    VariantScanOfLayout(b, v, rest, t);
    ToLowerIdentity(b);
    ValidVariantShape(v);
    ToLowerIdentity(v);
  }

  lemma VariantScanOfLayout(b: string, v: string, rest: string, t: string)
    requires IsHexToken(b) && IsVariantValid(v)
    requires t == b + "{" + v + "}" + rest
    ensures HexVariantScan(t, |b| + 1, "") == (|b| + 1 + |v|, v)
  {
    var close := |b| + 1 + |v|;
    HexVariantLayout(b, v, rest);
    ValidVariantShape(v);
    HexVariantScanAt(t, |b| + 1, "", close);
    assert "" + t[|b| + 1..close] == v;
  }

  /** The variant path of the hex branch, once its loops are known. */
  lemma HexRefVariantStep(t: string, n: nat, close: nat, raw: string)
    requires 6 <= n < |t| && HexRunLen(t, 0) == n && t[n] == '{'
    requires HexVariantScan(t, n + 1, "") == (close, raw)
    requires close < |t| && t[close] == '}' && raw != [] && IsVariantValid(ToLower(raw))
    ensures HexRef(t) == Some((ToLower(t[..n]) + "{" + ToLower(raw) + "}", close + 1))
  {
  }

  lemma HexVariantLayout(b: string, v: string, rest: string)
    requires IsHexToken(b) && IsVariantValid(v)
    ensures var t := b + "{" + v + "}" + rest;
      && t[..|b|] == b && t[|b|] == '{' && t[|b| + 1..|b| + 1 + |v|] == v && t[|b| + 1 + |v|] == '}'
      && (forall i :: 0 <= i < |b| ==> IsHexDigit(t[i]))
      && (forall i :: |b| + 1 <= i < |b| + 1 + |v| ==> t[i] != '}')
  {
    var t := b + "{" + v + "}" + rest;
    assert forall i :: 0 <= i < |b| ==> t[i] == b[i];
    assert forall i :: |b| + 1 <= i < |b| + 1 + |v| ==> t[i] == v[i - |b| - 1];
    ValidVariantShape(v);
  }

  /** Inline reference round trip for hex keys: `@` followed by a canonical
      key, then anything that cannot extend it, is read as that key and
      spans exactly the key and its `@`. */
  lemma InlineTokenOfKey(k: string, rest: string)
    requires CanonicalKey(k)
    requires SplitKey(k).1 != "" || HexBoundary(rest)
    ensures InlineToken("@" + k + rest) == Some((k, |k| + 1))
  {
    var (b, v) := SplitKey(k);
    SplitKeyShape(k);
    InlineTokenOfParts(b, v, rest);
  }

  lemma InlineTokenOfParts(b: string, v: string, rest: string)
    requires IsHexToken(b) && IsLowerString(b)
    requires v == "" || IsVariantValid(v)
    requires v != "" || HexBoundary(rest)
    ensures InlineToken("@" + KeyOf(b, v) + rest) == Some((KeyOf(b, v), |KeyOf(b, v)| + 1))
  {
    var k := KeyOf(b, v);
    var s := "@" + k + rest;
    HexRefOfParts(b, v, rest);
    assert s[1..] == k + rest;
    assert s[1] == (k + rest)[0] == b[0];
    HexTextIsNoStyleRef(k + rest);
    InlineTokenViaHex(s);
  }

  /** When the text after `@` is no style reference, the hex branch decides. */
  lemma InlineTokenViaHex(s: string)
    requires |s| >= 2 && s[0] == '@' && IsHexDigit(s[1]) && StyleRef(s[1..]).None?
    ensures HexRef(s[1..]).Some? ==> InlineToken(s) == Some((HexRef(s[1..]).value.0, HexRef(s[1..]).value.1 + 1))
  {
  }

  /** A style reference is `style_` (in any case), a name of run
      characters whose end lies within 65 characters, and an optional
      variant. */
  predicate StyleRefName(name: string) {
    && |StylePrefix| < |name| <= 65
    && ToLower(name[..|StylePrefix|]) == StylePrefix
    && forall i :: |StylePrefix| <= i < |name| ==> IsRunChar(name[i])
  }

  /** The style branch reads a style name and variant back as written. */
  lemma StyleRefOfParts(name: string, v: string, rest: string)
    requires StyleRefName(name)
    requires v == "" || IsVariantValid(v)
    requires v != "" || StyleBoundary(rest)
    ensures StyleRef(KeyOf(name, v) + rest) == Some((KeyOf(name, v), |KeyOf(name, v)|))
  {
    if v == "" {
      StyleRefOfName(name, rest);
    } else {
      StyleRefOfVariant(name, v, rest);
    }
  }

  lemma StyleRefOfName(name: string, rest: string)
    requires StyleRefName(name) && StyleBoundary(rest)
    ensures StyleRef(name + rest) == Some((name, |name|))
  {
    var t := name + rest;
    StyleNameLayout(name, rest);
    assert |name| < |t| ==> t[|name|] == rest[0];
    StyleRunAt(t, |StylePrefix|, |name|);
    StyleRefPlainStep(t, |name|);
  }

  lemma StyleRefOfVariant(name: string, v: string, rest: string)
    requires StyleRefName(name) && IsVariantValid(v)
    ensures StyleRef(name + "{" + v + "}" + rest) == Some((name + "{" + v + "}", |name| + |v| + 2))
  {
    var t := name + "{" + v + "}" + rest;
    var close := |name| + 1 + |v|;
    StyleNameLayout(name, "{" + v + "}" + rest);
    assert t == name + ("{" + v + "}" + rest);
    StyleRunAt(t, |StylePrefix|, |name|);
    StyleVariantLayout(name, v, rest);
    StyleVariantAt(t, |name| + 1, "", close);
    StyleRefVariantStep(t, |name|, close, v);
  }

  lemma StyleNameLayout(name: string, rest: string)
    requires StyleRefName(name)
    ensures var t := name + rest;
      && t[..|name|] == name && ToLower(t[..|StylePrefix|]) == StylePrefix
      && forall i :: |StylePrefix| <= i < |name| ==> IsRunChar(t[i])
  {
    var t := name + rest;
    assert t[..|StylePrefix|] == name[..|StylePrefix|];
    assert forall i :: 0 <= i < |name| ==> t[i] == name[i];
  }

  lemma StyleVariantLayout(name: string, v: string, rest: string)
    requires IsVariantValid(v)
    ensures var t := name + "{" + v + "}" + rest;
      && t[|name|] == '{' && "" + t[|name| + 1..|name| + 1 + |v|] == v && t[|name| + 1 + |v|] == '}'
      && !IsRunChar(t[|name|])
      && (forall i :: |name| + 1 <= i < |name| + 1 + |v| ==> t[i] != '}')
  {
    var t := name + "{" + v + "}" + rest;
    assert forall i :: |name| + 1 <= i < |name| + 1 + |v| ==> t[i] == v[i - |name| - 1];
    assert t[|name| + 1..|name| + 1 + |v|] == v;
    ValidVariantShape(v);
  }

  /** The plain path of the style branch, once its name loop is known. */
  lemma StyleRefPlainStep(t: string, stop: nat)
    requires |StylePrefix| < stop <= |t| && ToLower(t[..|StylePrefix|]) == StylePrefix
    requires StyleRun(t, |StylePrefix|) == Some(stop) && (stop == |t| || t[stop] != '{')
    ensures StyleRef(t) == Some((t[..stop], stop))
  {
  }

  /** The variant path of the style branch, once its loops are known. */
  lemma StyleRefVariantStep(t: string, stop: nat, close: nat, v: string)
    requires |StylePrefix| < stop < |t| && ToLower(t[..|StylePrefix|]) == StylePrefix
    requires StyleRun(t, |StylePrefix|) == Some(stop) && t[stop] == '{'
    requires StyleVariant(t, stop + 1, "") == Some((v, close))
    ensures StyleRef(t) == Some((t[..stop] + "{" + v + "}", close + 1))
  {
  }

  /** Inline reference round trip for style tokens: `@` followed by a
      style name (its case kept), an optional variant, then anything that
      cannot extend it, is read as exactly that token. */
  lemma InlineTokenOfStyle(name: string, v: string, rest: string)
    requires StyleRefName(name)
    requires v == "" || IsVariantValid(v)
    requires v != "" || StyleBoundary(rest)
    ensures InlineToken("@" + KeyOf(name, v) + rest) == Some((KeyOf(name, v), |KeyOf(name, v)| + 1))
  {
    var k := KeyOf(name, v);
    var s := "@" + k + rest;
    StyleRefOfParts(name, v, rest);
    assert s[1..] == k + rest;
    assert s[1] != '@' by {
      assert s[1] == name[0];
      assert ToLower(name[..|StylePrefix|])[0] == 's';
    }
    InlineTokenStyleStep(s);
  }

  /** The style path of `try_parse_inline_token`, once the style scan is known. */
  lemma InlineTokenStyleStep(s: string)
    requires |s| >= 2 && s[0] == '@' && s[1] != '@' && StyleRef(s[1..]).Some?
    ensures InlineToken(s) == Some((StyleRef(s[1..]).value.0, StyleRef(s[1..]).value.1 + 1))
  {
  }

  /** `@@` is never the start of a reference. */
  lemma EscapedAtIsNoToken(r: string)
    ensures InlineToken("@@" + r).None?
  {
  }

  // ---------------------------------------------------------------------
  // Expansion facts

  /** Text with no `@` and no `%` directly before a digit: nothing in it
      is a reference, an escape or a placeholder. */
  predicate Verbatim(s: string) {
    forall i :: 0 <= i < |s| ==> s[i] != '@' && (s[i] == '%' && i + 1 < |s| ==> !IsDigit(s[i + 1]))
  }

  /** A text whose first character starts no reference, escape or
      placeholder. */
  predicate Copyable(raw: string) {
    raw != [] && raw[0] != '@' && !(raw[0] == '%' && |raw| > 1 && IsDigit(raw[1]))
  }

  /** A character that starts no reference, escape or placeholder is
      copied. */
  lemma ExpandCopies(c: StyleCatalog, raw: string, args: seq<string>, seen: set<string>, depth: nat, argDepth: nat)
    requires argDepth >= depth && Copyable(raw)
    ensures Expand(c, raw, args, seen, depth, argDepth) == [raw[0]] + Expand(c, raw[1..], args, seen, depth, argDepth)
  {
  }

  /** Any expansion that copies copyable characters copies a verbatim
      prefix whole, as long as it does not join what follows into a
      placeholder. */
  lemma {:induction false} CopyPrefix(ex: string -> string, p: string, r: string)
    requires Verbatim(p)
    requires p == [] || p[|p| - 1] != '%' || r == [] || !IsDigit(r[0])
    requires forall raw :: Copyable(raw) ==> ex(raw) == [raw[0]] + ex(raw[1..])
    ensures ex(p + r) == p + ex(r)
    decreases |p|
  {
    if p != [] {
      CopyableHead(p, r);
      VerbatimTail(p);
      CopyPrefix(ex, p[1..], r);
      assert ex(p + r) == [p[0]] + ex(p[1..] + r);
      ConsThenConcat(p[0], p[1..], ex(r));
      HeadThenTail(p);
    } else {
      assert p + r == r;
    }
  }

  lemma ConsThenConcat(c: char, t: string, e: string)
    ensures [c] + (t + e) == [c] + t + e
  {
  }

  lemma CopyableHead(p: string, r: string)
    requires p != [] && Verbatim(p)
    requires p[|p| - 1] != '%' || r == [] || !IsDigit(r[0])
    ensures Copyable(p + r) && (p + r)[0] == p[0] && (p + r)[1..] == p[1..] + r
  {
    var raw := p + r;
    assert raw[1..] == p[1..] + r;
    if |p| > 1 {
      assert raw[1] == p[1];
    } else if r != [] {
      assert raw[1] == r[0];
    }
  }

  lemma VerbatimTail(p: string)
    requires p != [] && Verbatim(p)
    ensures Verbatim(p[1..]) && (|p| > 1 ==> p[1..][|p| - 2] == p[|p| - 1])
  {
    forall i | 0 <= i < |p[1..]|
      ensures p[1..][i] != '@' && (p[1..][i] == '%' && i + 1 < |p[1..]| ==> !IsDigit(p[1..][i + 1]))
    {
      assert p[1..][i] == p[i + 1];
      assert i + 1 < |p[1..]| ==> p[1..][i + 1] == p[i + 2];
    }
  }

  /** Verbatim text is copied as it is, and expansion carries on with what
      follows, as long as the two do not join into a placeholder. */
  lemma ExpandVerbatimPrefix(c: StyleCatalog, p: string, r: string, args: seq<string>,
                             seen: set<string>, depth: nat, argDepth: nat)
    requires argDepth >= depth
    requires Verbatim(p)
    requires p == [] || p[|p| - 1] != '%' || r == [] || !IsDigit(r[0])
    ensures Expand(c, p + r, args, seen, depth, argDepth) == p + Expand(c, r, args, seen, depth, argDepth)
  {
    var ex := (raw: string) => Expand(c, raw, args, seen, depth, argDepth);
    forall raw | Copyable(raw) ensures ex(raw) == [raw[0]] + ex(raw[1..]) {
      ExpandCopies(c, raw, args, seen, depth, argDepth);
    }
    CopyPrefix(ex, p, r);
  }

  lemma ExpandVerbatim(c: StyleCatalog, s: string, args: seq<string>, seen: set<string>, depth: nat, argDepth: nat)
    requires argDepth >= depth && Verbatim(s)
    ensures Expand(c, s, args, seen, depth, argDepth) == s
  {
    ExpandVerbatimPrefix(c, s, [], args, seen, depth, argDepth);
    assert s + [] == s;
  }

  /** `@@` expands to one `@`. */
  lemma ExpandEscapedAt(c: StyleCatalog, r: string, args: seq<string>, seen: set<string>, depth: nat, argDepth: nat)
    requires argDepth >= depth
    ensures Expand(c, "@@" + r, args, seen, depth, argDepth) == "@" + Expand(c, r, args, seen, depth, argDepth)
  {
    EscapedAtIsNoToken(r);
    assert ("@@" + r)[2..] == r;
  }

  /** A hex reference expands to its translation one level deeper, or to
      the missing marker when the catalog lacks it. */
  lemma ExpandKeyRef(c: StyleCatalog, k: string, rest: string, args: seq<string>, seen: set<string>,
                     depth: nat, argDepth: nat)
    requires argDepth >= depth
    requires CanonicalKey(k) && (SplitKey(k).1 != "" || HexBoundary(rest))
    ensures k !in c.catalog ==>
      Expand(c, "@" + k + rest, args, seen, depth, argDepth) == MissingMarker(k) + Expand(c, rest, args, seen, depth, argDepth)
    ensures k in c.catalog ==>
      Expand(c, "@" + k + rest, args, seen, depth, argDepth)
        == Translate(c, k, args, seen, depth + 1) + Expand(c, rest, args, seen, depth, argDepth)
  {
    InlineTokenOfKey(k, rest);
    assert ("@" + k + rest)[|k| + 1..] == rest;
  }

  /** A style reference expands the same way as a hex one. */
  lemma ExpandStyleRef(c: StyleCatalog, name: string, v: string, rest: string, args: seq<string>,
                       seen: set<string>, depth: nat, argDepth: nat)
    requires argDepth >= depth
    requires StyleRefName(name) && (v == "" || IsVariantValid(v)) && (v != "" || StyleBoundary(rest))
    ensures KeyOf(name, v) !in c.catalog ==>
      Expand(c, "@" + KeyOf(name, v) + rest, args, seen, depth, argDepth)
        == MissingMarker(KeyOf(name, v)) + Expand(c, rest, args, seen, depth, argDepth)
    ensures KeyOf(name, v) in c.catalog ==>
      Expand(c, "@" + KeyOf(name, v) + rest, args, seen, depth, argDepth)
        == Translate(c, KeyOf(name, v), args, seen, depth + 1) + Expand(c, rest, args, seen, depth, argDepth)
  {
    var k := KeyOf(name, v);
    InlineTokenOfStyle(name, v, rest);
    assert ("@" + k + rest)[|k| + 1..] == rest;
  }

  lemma {:induction false} DigitRunOf(d: string, rest: string)
    requires forall i :: 0 <= i < |d| ==> IsDigit(d[i])
    requires rest == [] || !IsDigit(rest[0])
    ensures DigitRun(d + rest) == |d|
    decreases |d|
  {
    if d != [] {
      assert (d + rest)[1..] == d[1..] + rest;
      DigitRunOf(d[1..], rest);
    } else {
      assert d + rest == rest;
    }
  }

  /** `%N` expands to the resolved argument `N`, or to the argument marker
      when there are not that many arguments. */
  lemma ExpandPlaceholder(c: StyleCatalog, n: nat, rest: string, args: seq<string>, seen: set<string>,
                          depth: nat, argDepth: nat)
    requires argDepth >= depth
    requires rest == [] || !IsDigit(rest[0])
    ensures n < |args| ==>
      Expand(c, "%" + Decimal(n) + rest, args, seen, depth, argDepth)
        == ResolveArg(c, args[n], seen, argDepth) + Expand(c, rest, args, seen, depth, argDepth)
    ensures n >= |args| ==>
      Expand(c, "%" + Decimal(n) + rest, args, seen, depth, argDepth)
        == ArgMarker(n) + Expand(c, rest, args, seen, depth, argDepth)
  {
    var d := Decimal(n);
    var raw := "%" + d + rest;
    assert raw[1..] == d + rest;
    DigitRunOf(d, rest);
    assert raw[1..|d| + 1] == d;
    assert raw[|d| + 1..] == rest;
    DigitsValueOfDecimal(n);
  }

  // ---------------------------------------------------------------------
  // Escaping

  /** Doubles every `@`, so that the text expands back to itself. */
  function EscapeAt(s: string): (r: string)
    ensures |r| >= |s|
    ensures s != [] ==> r[0] == s[0]
  {
    if s == [] then ""
    else if s[0] == '@' then "@@" + EscapeAt(s[1..])
    else [s[0]] + EscapeAt(s[1..])
  }

  /** No `%` directly before a digit: `%N` has no escape. */
  predicate NoPlaceholder(s: string) {
    forall i :: 0 <= i < |s| - 1 ==> s[i] == '%' ==> !IsDigit(s[i + 1])
  }

  /** Escaping round trip: text with `@` doubled expands back to the text. */
  lemma {:induction false} ExpandEscapeAt(c: StyleCatalog, s: string, args: seq<string>, seen: set<string>,
                                          depth: nat, argDepth: nat)
    requires argDepth >= depth
    requires NoPlaceholder(s)
    ensures Expand(c, EscapeAt(s), args, seen, depth, argDepth) == s
    decreases |s|
  {
    if s != [] {
      assert NoPlaceholder(s[1..]) by {
        forall i | 0 <= i < |s[1..]| - 1 ensures s[1..][i] == '%' ==> !IsDigit(s[1..][i + 1]) {
          assert s[1..][i] == s[i + 1] && s[1..][i + 1] == s[i + 2];
        }
      }
      ExpandEscapeAt(c, s[1..], args, seen, depth, argDepth);
      if s[0] == '@' {
        ExpandEscapedAt(c, EscapeAt(s[1..]), args, seen, depth, argDepth);
      } else {
        var e := [s[0]] + EscapeAt(s[1..]);
        assert e[1..] == EscapeAt(s[1..]);
        if |s| > 1 {
          assert e[1] == EscapeAt(s[1..])[0] == s[1];
        }
      }
      assert s == [s[0]] + s[1..];
    }
  }

  // ---------------------------------------------------------------------
  // Translation facts

  /** A token that is not a style token has no style: it is never in the
      registry. */
  lemma NoStyleFor(snap: Snapshot, token: string, args: seq<string>, seen: set<string>, depth: nat)
    requires !IsStyleToken(token)
    ensures BuildStyle(StyleCatalogOf(snap), token, args, seen, depth).None?
  {
  }

  /** An unknown token translates to itself between markers. */
  lemma TranslateUnknown(snap: Snapshot, token: string, args: seq<string>, seen: set<string>, depth: nat)
    requires depth <= MaxDepth && token !in seen
    requires token !in snap.catalog
    ensures Translate(StyleCatalogOf(snap), token, args, seen, depth) == Marker(token)
  {
  }

  /** Translation of a non-style text with no reference, escape or
      placeholder gives the text itself. */
  lemma TranslateVerbatim(snap: Snapshot, token: string, args: seq<string>, seen: set<string>, depth: nat)
    requires depth <= MaxDepth && token !in seen
    requires token in snap.catalog && !IsStyleToken(token) && Verbatim(snap.catalog[token])
    ensures Translate(StyleCatalogOf(snap), token, args, seen, depth) == snap.catalog[token]
  {
    var c := StyleCatalogOf(snap);
    NoStyleFor(snap, token, args, seen + {token}, depth);
    ExpandVerbatim(c, snap.catalog[token], args, seen + {token}, depth, depth);
  }

  /** A text that refers to its own key: re-entry is reported as a cycle,
      unless the reference already lies past the depth limit. */
  lemma TranslateSelfReference(snap: Snapshot, token: string, args: seq<string>, seen: set<string>, depth: nat)
    requires depth <= MaxDepth && token !in seen
    requires CanonicalKey(token) && token in snap.catalog && snap.catalog[token] == "@" + token
    ensures depth < MaxDepth ==> Translate(StyleCatalogOf(snap), token, args, seen, depth) == CycleMarker(token)
    ensures depth == MaxDepth ==> Translate(StyleCatalogOf(snap), token, args, seen, depth) == RecursionLimitMarker
  {
    var c := StyleCatalogOf(snap);
    HexKeyIsNotStyleToken(token);
    NoStyleFor(snap, token, args, seen + {token}, depth);
    ExpandKeyRef(c, token, "", args, seen + {token}, depth, depth);
    assert "@" + token + "" == "@" + token;
  }

  /** A text with one reference between verbatim parts translates to the
      parts around the translation of the reference, one level deeper and
      with the outer token marked as seen. */
  lemma TranslateOneRef(snap: Snapshot, token: string, p: string, k: string, q: string,
                        args: seq<string>, seen: set<string>, depth: nat)
    requires depth <= MaxDepth && token !in seen && !IsStyleToken(token)
    requires Verbatim(p) && Verbatim(q)
    requires CanonicalKey(k) && (SplitKey(k).1 != "" || HexBoundary(q))
    requires token in snap.catalog && snap.catalog[token] == p + ("@" + k + q)
    ensures k in snap.catalog ==>
      Translate(StyleCatalogOf(snap), token, args, seen, depth)
        == p + Translate(StyleCatalogOf(snap), k, args, seen + {token}, depth + 1) + q
    ensures k !in snap.catalog ==>
      Translate(StyleCatalogOf(snap), token, args, seen, depth) == p + MissingMarker(k) + q
  {
    var c := StyleCatalogOf(snap);
    var inner := seen + {token};
    NoStyleFor(snap, token, args, inner, depth);
    ExpandOneRef(c, p, k, q, args, inner, depth, depth);
  }

  /** A text with one reference between verbatim parts expands to the
      parts around the reference's piece. */
  lemma ExpandOneRef(c: StyleCatalog, p: string, k: string, q: string, args: seq<string>, seen: set<string>,
                     depth: nat, argDepth: nat)
    requires argDepth >= depth
    requires Verbatim(p) && Verbatim(q)
    requires CanonicalKey(k) && (SplitKey(k).1 != "" || HexBoundary(q))
    ensures k in c.catalog ==>
      Expand(c, p + ("@" + k + q), args, seen, depth, argDepth) == p + Translate(c, k, args, seen, depth + 1) + q
    ensures k !in c.catalog ==>
      Expand(c, p + ("@" + k + q), args, seen, depth, argDepth) == p + MissingMarker(k) + q
  {
    var piece := if k in c.catalog then Translate(c, k, args, seen, depth + 1) else MissingMarker(k);
    ExpandRefThenVerbatim(c, k, q, args, seen, depth, argDepth);
    ExpandVerbatimPrefix(c, p, "@" + k + q, args, seen, depth, argDepth);
    JoinAfterPiece(p, piece, q);
  }

  lemma JoinAfterPiece(p: string, piece: string, q: string)
    ensures p + (piece + q) == p + piece + q
  {
  }

  lemma ExpandRefThenVerbatim(c: StyleCatalog, k: string, q: string, args: seq<string>, seen: set<string>,
                              depth: nat, argDepth: nat)
    requires argDepth >= depth
    requires Verbatim(q)
    requires CanonicalKey(k) && (SplitKey(k).1 != "" || HexBoundary(q))
    ensures Expand(c, "@" + k + q, args, seen, depth, argDepth)
      == (if k in c.catalog then Translate(c, k, args, seen, depth + 1) else MissingMarker(k)) + q
  {
    ExpandKeyRef(c, k, q, args, seen, depth, argDepth);
    ExpandVerbatim(c, q, args, seen, depth, argDepth);
  }

  /** A text that is one placeholder translates to the resolved argument,
      resolved at the same depth, or to the argument marker. */
  lemma TranslatePlaceholder(snap: Snapshot, token: string, n: nat, args: seq<string>, seen: set<string>, depth: nat)
    requires depth <= MaxDepth && token !in seen && !IsStyleToken(token)
    requires token in snap.catalog && snap.catalog[token] == "%" + Decimal(n)
    ensures n < |args| ==>
      Translate(StyleCatalogOf(snap), token, args, seen, depth)
        == ResolveArg(StyleCatalogOf(snap), args[n], seen + {token}, depth)
    ensures n >= |args| ==> Translate(StyleCatalogOf(snap), token, args, seen, depth) == ArgMarker(n)
  {
    var c := StyleCatalogOf(snap);
    var inner := seen + {token};
    NoStyleFor(snap, token, args, inner, depth);
    ExpandPlaceholder(c, n, "", args, inner, depth, depth);
    assert "%" + Decimal(n) + "" == "%" + Decimal(n);
  }

  /** A lowercase key is canonical exactly when its base is a hex token. */
  lemma LowerKeyCanonical(key: string)
    requires IsLowerString(key)
    ensures CanonicalKey(key) <==> IsHexToken(SplitKey(key).0)
  {
    if ParseVariantSuffix(key).Some? {
      ParseVariantSuffixJoins(key);
      ParseVariantSuffixLower(key);
      ToLowerIdentity(key);
    }
  }

  /** The key `resolve_arg` looks up is the lowercased argument. */
  lemma ArgLookupIsLower(arg: string)
    ensures ArgLookup(arg).1 == ToLower(arg)
    ensures ArgLookup(arg).0 == SplitKey(ToLower(arg)).0
  {
    var normalized := ToLower(arg);
    if ParseVariantSuffix(normalized).Some? {
      ParseVariantSuffixJoins(normalized);
      ToLowerIsLower(arg);
      ToLowerIdentity(normalized);
    }
  }

  /** `resolve_arg`: `=x` is the literal `x`; an argument that names a hex
      catalog key in any case is translated one level deeper with no
      arguments; every other argument is used as it is. */
  lemma ResolveArgCases(c: StyleCatalog, arg: string, seen: set<string>, depth: nat)
    ensures arg != [] && arg[0] == '=' ==> ResolveArg(c, arg, seen, depth) == arg[1..]
    ensures (arg == [] || arg[0] != '=') && CanonicalKey(ToLower(arg)) && ToLower(arg) in c.catalog ==>
      ResolveArg(c, arg, seen, depth) == Translate(c, ToLower(arg), [], seen, depth + 1)
    ensures (arg == [] || arg[0] != '=') && !(CanonicalKey(ToLower(arg)) && ToLower(arg) in c.catalog) ==>
      ResolveArg(c, arg, seen, depth) == arg
  {
    ArgLookupIsLower(arg);
    ToLowerIsLower(arg);
    LowerKeyCanonical(ToLower(arg));
  }

  /** Quoting round trip: `=` before any text passes it through. */
  lemma ResolveArgQuoted(c: StyleCatalog, x: string, seen: set<string>, depth: nat)
    ensures ResolveArg(c, "=" + x, seen, depth) == x
  {
    ResolveArgCases(c, "=" + x, seen, depth);
    assert ("=" + x)[1..] == x;
  }

  // ---------------------------------------------------------------------
  // Style strings

  /** A named property whose value needs no resolving. */
  predicate PlainNamed(p: StyleProperty) {
    p.name != [] && Verbatim(p.value)
  }

  /** One `name: value;` entry. */
  function Declaration(p: StyleProperty): (r: string)
    ensures r != [] && r[|r| - 1] == ';'
  {
    p.name + ": " + p.value + ";"
  }

  /** The entries of the properties, in order, separated by single spaces. */
  function Declarations(props: seq<StyleProperty>): string
    requires props != []
  {
    if |props| == 1 then Declaration(props[0])
    else Declaration(props[0]) + " " + Declarations(props[1..])
  }

  lemma {:induction false} DeclarationsEnd(props: seq<StyleProperty>)
    requires props != []
    ensures Declarations(props) != [] && Declarations(props)[|Declarations(props)| - 1] == ';'
    decreases |props|
  {
    if |props| > 1 {
      DeclarationsEnd(props[1..]);
    }
  }

  /** Style text round trip: the `name: value;` entries of writable
      properties, after nothing or one space, parse back to the
      properties, in order. */
  lemma {:induction false} ParseDeclarations(lead: string, props: seq<StyleProperty>)
    requires lead == "" || lead == " "
    requires props != [] && forall i :: 0 <= i < |props| ==> WritableProperty(props[i])
    ensures ParseStyleProperties(lead + Declarations(props)) == props
    decreases |props|
  {
    ParseFirstDeclaration(lead, props);
    if |props| == 1 {
      assert ParseStyleProperties(DeclarationsTail(props)) == [];
      assert props == [props[0]];
    } else {
      ParseDeclarations(" ", props[1..]);
      HeadThenTail(props);
    }
  }

  /** The first entry parses to the first property; parsing goes on
      with what follows its `;`. */
  lemma ParseFirstDeclaration(lead: string, props: seq<StyleProperty>)
    requires lead == "" || lead == " "
    requires props != [] && WritableProperty(props[0])
    ensures ParseStyleProperties(lead + Declarations(props)) == [props[0]] + ParseStyleProperties(DeclarationsTail(props))
  {
    var p := props[0];
    var tail := DeclarationsTail(props);
    ParseWrittenSegment(lead, p);
    DeclarationsSplit(props);
    SegmentThenTail(lead, Written(p), tail);
    ParseStylePropertiesCons(lead + Written(p), tail);
  }

  /** What follows the first entry's `;`: nothing, or a space and the
      other entries. */
  function DeclarationsTail(props: seq<StyleProperty>): string
    requires props != []
  {
    if |props| == 1 then "" else " " + Declarations(props[1..])
  }

  /** The entries are the first one's text, its `;`, and the rest. */
  lemma DeclarationsSplit(props: seq<StyleProperty>)
    requires props != []
    ensures Declarations(props) == Written(props[0]) + ";" + DeclarationsTail(props)
  {
    var w := Written(props[0]);
    DeclarationIsWritten(props[0]);
    if |props| == 1 {
      assert Declarations(props) == w + ";";
      assert w + ";" + "" == w + ";";
    } else {
      ThreeJoin(w + ";", " ", Declarations(props[1..]));
    }
  }

  lemma DeclarationIsWritten(p: StyleProperty)
    ensures Declaration(p) == Written(p) + ";"
  {
  }

  lemma ThreeJoin(a: string, b: string, c: string)
    ensures a + b + c == a + (b + c)
  {
  }

  lemma SegmentThenTail(lead: string, w: string, tail: string)
    ensures lead + (w + ";" + tail) == lead + w + ";" + tail
  {
  }

  lemma HeadThenTail<T>(s: seq<T>)
    requires s != []
    ensures [s[0]] + s[1..] == s
  {
  }

  /** A style token whose text is the entries of writable properties is
      registered with exactly those properties. */
  lemma StyleRegistryOfDeclarations(catalog: map<string, string>, token: string, props: seq<StyleProperty>)
    requires token in catalog && IsStyleToken(token)
    requires props != [] && forall i :: 0 <= i < |props| ==> WritableProperty(props[i])
    requires catalog[token] == Declarations(props)
    ensures token in StyleRegistry(catalog) && StyleRegistry(catalog)[token] == props
  {
    ParseDeclarations("", props);
    assert "" + Declarations(props) == Declarations(props);
  }

  /** A style token written as the entries of writable, verbatim
      properties translates to its own text: parsing the style and
      building it again are inverse. */
  lemma TranslateStyleText(snap: Snapshot, token: string, props: seq<StyleProperty>, args: seq<string>,
                           seen: set<string>, depth: nat)
    requires depth < MaxDepth && token !in seen
    requires token in snap.catalog && IsStyleToken(token)
    requires props != [] && forall i :: 0 <= i < |props| ==> WritableProperty(props[i]) && Verbatim(props[i].value)
    requires snap.catalog[token] == Declarations(props)
    ensures Translate(StyleCatalogOf(snap), token, args, seen, depth) == snap.catalog[token]
  {
    RegistryOfPlainDeclarations(snap.catalog, token, props);
    TranslateStyle(snap, token, args, seen, depth);
  }

  lemma RegistryOfPlainDeclarations(catalog: map<string, string>, token: string, props: seq<StyleProperty>)
    requires token in catalog && IsStyleToken(token)
    requires props != [] && forall i :: 0 <= i < |props| ==> WritableProperty(props[i]) && Verbatim(props[i].value)
    requires catalog[token] == Declarations(props)
    ensures token in StyleRegistry(catalog) && StyleRegistry(catalog)[token] == props
    ensures forall i :: 0 <= i < |props| ==> PlainNamed(props[i])
  {
    StyleRegistryOfDeclarations(catalog, token, props);
  }

  /** A verbatim value resolves to itself while the depth allows. */
  lemma ResolvePlainVerbatim(c: StyleCatalog, raw: string, args: seq<string>, seen: set<string>, depth: nat)
    requires depth <= MaxDepth && Verbatim(raw)
    ensures ResolvePlain(c, raw, args, seen, depth) == raw
  {
    ExpandVerbatim(c, raw, args, seen, depth, depth + 1);
  }

  /** One round of the property loop on a named verbatim property. */
  lemma StyleEntriesStep(c: StyleCatalog, props: seq<StyleProperty>, builder: string,
                         args: seq<string>, seen: set<string>, depth: nat)
    requires depth < MaxDepth && props != [] && PlainNamed(props[0])
    ensures StyleEntries(c, props, builder, args, seen, depth)
      == StyleEntries(c, props[1..], Separated(builder) + Declaration(props[0]), args, seen, depth)
  {
    ResolvePlainVerbatim(c, props[0].value, args, seen, depth + 1);
    AppendNamed(builder, props[0]);
  }

  lemma AppendNamed(builder: string, p: StyleProperty)
    requires p.name != []
    ensures AppendEntry(builder, p.name, p.value) == Separated(builder) + Declaration(p)
  {
  }

  /** Any loop that appends the entry of each named verbatim property
      after a separating space builds the space-separated entries. */
  lemma {:induction false} FoldDeclarations(loop: (seq<StyleProperty>, string) -> string,
                                            props: seq<StyleProperty>, builder: string)
    requires props != []
    requires forall i :: 0 <= i < |props| ==> PlainNamed(props[i])
    requires builder == [] || builder[|builder| - 1] == ';'
    requires forall ps, b :: ps != [] && PlainNamed(ps[0]) ==> loop(ps, b) == loop(ps[1..], Separated(b) + Declaration(ps[0]))
    requires forall b :: loop([], b) == b
    ensures loop(props, builder) == Separated(builder) + Declarations(props)
    decreases |props|
  {
    var next := Separated(builder) + Declaration(props[0]);
    assert loop(props, builder) == loop(props[1..], next);
    if |props| > 1 {
      FoldDeclarations(loop, props[1..], next);
      assert Separated(next) == next + " ";
      JoinAfter(Separated(builder), Declaration(props[0]), Declarations(props[1..]));
    } else {
      assert props[1..] == [];
    }
  }

  lemma JoinAfter(s: string, d: string, rest: string)
    ensures s + d + " " + rest == s + (d + " " + rest)
  {
  }

  /** The property loop renders named verbatim properties as their
      entries, after the builder and a separating space. */
  lemma StyleEntriesNamed(c: StyleCatalog, props: seq<StyleProperty>, builder: string,
                          args: seq<string>, seen: set<string>, depth: nat)
    requires depth < MaxDepth && props != []
    requires forall i :: 0 <= i < |props| ==> PlainNamed(props[i])
    requires builder == [] || builder[|builder| - 1] == ';'
    ensures StyleEntries(c, props, builder, args, seen, depth) == Separated(builder) + Declarations(props)
  {
    var loop := (ps: seq<StyleProperty>, b: string) => StyleEntries(c, ps, b, args, seen, depth);
    forall ps, b | ps != [] && PlainNamed(ps[0])
      ensures loop(ps, b) == loop(ps[1..], Separated(b) + Declaration(ps[0]))
    {
      StyleEntriesStep(c, ps, b, args, seen, depth);
    }
    FoldDeclarations(loop, props, builder);
  }

  /** The style builder emits `name: value;` for each named verbatim
      property of a registered token, in order, separated by spaces. */
  lemma BuildStyleNamed(c: StyleCatalog, token: string, args: seq<string>, seen: set<string>, depth: nat)
    requires depth < MaxDepth
    requires token in c.registry && c.registry[token] != []
    requires forall i :: 0 <= i < |c.registry[token]| ==> PlainNamed(c.registry[token][i])
    ensures BuildStyle(c, token, args, seen, depth) == Some(Declarations(c.registry[token]))
  {
    var props := c.registry[token];
    StyleEntriesNamed(c, props, "", args, seen, depth);
    DeclarationsEnd(props);
    var d := Declarations(props);
    assert Separated("") + d == d;
    var r := DropTrailingSpaces(d);
    assert r == d;
  }

  /** A style token whose properties are all named and verbatim
      translates to its style string. */
  lemma TranslateStyle(snap: Snapshot, token: string, args: seq<string>, seen: set<string>, depth: nat)
    requires depth < MaxDepth && token !in seen
    requires token in StyleRegistry(snap.catalog)
    requires forall i :: 0 <= i < |StyleRegistry(snap.catalog)[token]| ==> PlainNamed(StyleRegistry(snap.catalog)[token][i])
    ensures Translate(StyleCatalogOf(snap), token, args, seen, depth) == Declarations(StyleRegistry(snap.catalog)[token])
  {
    BuildStyleNamed(StyleCatalogOf(snap), token, args, seen + {token}, depth);
  }

  // ---------------------------------------------------------------------
  // Listing references

  /** The loop of `scan_inline_refs`: every reference in text order, with
      `@@` skipped as an escape. */
  function ScanRefs(s: string): seq<string>
    decreases |s|
  {
    if s == [] then []
    else if s[0] != '@' then ScanRefs(s[1..])
    else if |s| > 1 && s[1] == '@' then ScanRefs(s[2..])
    else
      match InlineToken(s)
      case Some((token, used)) => [token] + ScanRefs(s[used..])
      case None => ScanRefs(s[1..])
  }

  /** `scan_inline_refs`: the references of a text, sorted and each once. */
  function ScanInlineRefs(s: string): (r: seq<string>)
    ensures StrictlySorted(r, LexLess)
    ensures forall x :: x in r <==> x in ScanRefs(s)
  {
    LexLessIsStrictTotalOrder();
    var refs := ScanRefs(s);
    SortedFromSet(set i | 0 <= i < |refs| :: refs[i], LexLess)
  }

  /** Every listed reference is a canonical hex key or a `style_` token. */
  lemma {:induction false} ScanRefsShape(s: string)
    ensures forall x :: x in ScanRefs(s) ==> CanonicalKey(x) || StartsWith(ToLower(x), StylePrefix)
    decreases |s|
  {
    if s != [] {
      if s[0] != '@' {
        ScanRefsShape(s[1..]);
      } else if |s| > 1 && s[1] == '@' {
        ScanRefsShape(s[2..]);
      } else if InlineToken(s).Some? {
        InlineTokenShape(s);
        ScanRefsShape(s[InlineToken(s).value.1..]);
      } else {
        ScanRefsShape(s[1..]);
      }
    }
  }

  /** Text with every `@` doubled lists no references. */
  lemma {:induction false} ScanRefsEscapeAt(s: string)
    ensures ScanRefs(EscapeAt(s)) == []
    decreases |s|
  {
    if s != [] {
      ScanRefsEscapeAt(s[1..]);
      var e := EscapeAt(s);
      if s[0] == '@' {
        assert e[2..] == EscapeAt(s[1..]);
      } else {
        assert e[1..] == EscapeAt(s[1..]);
      }
    }
  }

  /** Text without `@` lists nothing of its own. */
  lemma {:induction false} ScanRefsSkips(p: string, r: string)
    requires NoChar(p, '@')
    ensures ScanRefs(p + r) == ScanRefs(r)
    decreases |p|
  {
    if p != [] {
      assert (p + r)[0] == p[0] && (p + r)[1..] == p[1..] + r;
      ScanRefsSkips(p[1..], r);
    } else {
      assert p + r == r;
    }
  }

  /** A hex reference in the text is listed, in its place. */
  lemma ScanRefsOfKey(p: string, k: string, rest: string)
    requires NoChar(p, '@')
    requires CanonicalKey(k) && (SplitKey(k).1 != "" || HexBoundary(rest))
    ensures ScanRefs(p + ("@" + k + rest)) == [k] + ScanRefs(rest)
  {
    ScanRefsSkips(p, "@" + k + rest);
    InlineTokenOfKey(k, rest);
    var s := "@" + k + rest;
    assert s[1] == k[0] by {
      var (b, v) := SplitKey(k);
      assert k[0] == b[0];
    }
    assert s[|k| + 1..] == rest;
  }
}
