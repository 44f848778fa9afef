/** Character classes and string helpers of the engine, in their "C"-locale
    ASCII form. A `char` stands for one byte of a `std::string`. */
module Ascii {
  import opened Wrappers

  /** `std::isspace` in the "C" locale. */
  predicate IsSpace(c: char) {
    c == ' ' || c == '\t' || c == '\n' || c == '\U{0B}' || c == '\U{0C}' || c == '\r'
  }

  predicate IsDigit(c: char) {
    '0' <= c <= '9'
  }

  predicate IsLower(c: char) {
    'a' <= c <= 'z'
  }

  predicate IsUpper(c: char) {
    'A' <= c <= 'Z'
  }

  predicate IsAlnum(c: char) {
    IsDigit(c) || IsLower(c) || IsUpper(c)
  }

  /** `std::isxdigit`. */
  predicate IsHexDigit(c: char) {
    IsDigit(c) || 'a' <= c <= 'f' || 'A' <= c <= 'F'
  }

  /** `std::tolower` on one byte. */
  function LowerChar(c: char): (r: char)
    ensures IsUpper(c) ==> IsLower(r)
    ensures !IsUpper(c) ==> r == c
  {
    if IsUpper(c) then (c as int + 32) as char else c
  }

  /** `to_lower_ascii`: lowercases every byte, nothing else changes. */
  function ToLower(s: string): (r: string)
    ensures |r| == |s|
    ensures forall i :: 0 <= i < |s| ==> r[i] == LowerChar(s[i])
  {
    seq(|s|, i requires 0 <= i < |s| => LowerChar(s[i]))
  }

  predicate IsLowerString(s: string) {
    forall i :: 0 <= i < |s| ==> !IsUpper(s[i])
  }

  lemma ToLowerIdentity(s: string)
    requires IsLowerString(s)
    ensures ToLower(s) == s
  {
  }

  lemma ToLowerAppend(a: string, b: string)
    ensures ToLower(a + b) == ToLower(a) + ToLower(b)
  {
  }

  lemma ToLowerIsLower(s: string)
    ensures IsLowerString(ToLower(s))
  {
  }

  predicate StartsWith(s: string, prefix: string) {
    |prefix| <= |s| && s[..|prefix|] == prefix
  }

  /** `std::string::find(c, from)`: the first index at or after `from`
      holding `c`. */
  function FindChar(s: string, c: char, from: nat): (r: Option<nat>)
    ensures r.Some? ==> from <= r.value < |s| && s[r.value] == c
    ensures r.Some? ==> forall j :: from <= j < r.value ==> s[j] != c
    ensures r.None? ==> forall j :: from <= j < |s| ==> s[j] != c
    decreases |s| - from
  {
    if from >= |s| then None
    else if s[from] == c then Some(from)
    else FindChar(s, c, from + 1)
  }

  /** Drops leading whitespace. */
  function TrimLeft(s: string): (r: string)
    ensures |r| <= |s| && r == s[|s| - |r|..]
    ensures r == [] || !IsSpace(r[0])
    ensures forall i :: 0 <= i < |s| - |r| ==> IsSpace(s[i])
  {
    if |s| > 0 && IsSpace(s[0]) then TrimLeft(s[1..]) else s
  }

  /** Drops trailing whitespace. */
  function TrimRight(s: string): (r: string)
    ensures |r| <= |s| && r == s[..|r|]
    ensures r == [] || !IsSpace(r[|r| - 1])
    ensures forall i :: |r| <= i < |s| ==> IsSpace(s[i])
  {
    if |s| > 0 && IsSpace(s[|s| - 1]) then TrimRight(s[..|s| - 1]) else s
  }

  /** `trim_inplace`. */
  function Trim(s: string): (r: string)
    ensures r == [] || (!IsSpace(r[0]) && !IsSpace(r[|r| - 1]))
    ensures |r| <= |s|
  {
    TrimRight(TrimLeft(s))
  }

  /** No whitespace at either end: what `Trim` leaves. */
  predicate Trimmed(s: string) {
    s == [] || (!IsSpace(s[0]) && !IsSpace(s[|s| - 1]))
  }

  lemma TrimOfTrimmed(s: string)
    requires Trimmed(s)
    ensures TrimLeft(s) == s && TrimRight(s) == s && Trim(s) == s
  {
  }

  /** `FindChar` finds the first `c` at or after `from`. */
  lemma FindCharAt(s: string, c: char, from: nat, k: nat)
    requires from <= k < |s| && s[k] == c
    requires forall j :: from <= j < k ==> s[j] != c
    ensures FindChar(s, c, from) == Some(k)
  {
  }

  /** `is_hex_token`: 6 to 32 hex digits, either case. */
  predicate IsHexToken(s: string) {
    6 <= |s| <= 32 && forall i :: 0 <= i < |s| ==> IsHexDigit(s[i])
  }

  /** The character a backslash escape stands for in `unescape_txt_min`;
      `\\`, `\:` and every unknown escape stand for the escaped character. */
  function EscapedChar(c: char): char {
    match c
    case 'n' => '\n'
    case 't' => '\t'
    case 'r' => '\r'
    case _ => c
  }

  /** `unescape_txt_min`: resolves backslash escapes; a trailing lone
      backslash is kept. */
  function Unescape(s: string): (r: string)
    ensures |r| <= |s|
  {
    if |s| == 0 then ""
    else if s[0] == '\\' && |s| >= 2 then [EscapedChar(s[1])] + Unescape(s[2..])
    else [s[0]] + Unescape(s[1..])
  }

  /** The escaping a catalog author applies so that `Unescape` gives the
      intended text back. */
  function Escape(s: string): string {
    if |s| == 0 then ""
    else
      var c := s[0];
      var e := if c == '\n' then "\\n"
               else if c == '\t' then "\\t"
               else if c == '\r' then "\\r"
               else if c == '\\' || c == ':' then ['\\', c]
               else [c];
      e + Escape(s[1..])
  }

  /** Unescaping undoes escaping, so every text, including ones holding
      newlines, colons and backslashes, can be written in a catalog line. */
  lemma {:induction false} UnescapeInvertsEscape(s: string)
    ensures Unescape(Escape(s)) == s
  {
    if |s| > 0 {
      UnescapeInvertsEscape(s[1..]);
      var c := s[0];
      var e := if c == '\n' then "\\n"
               else if c == '\t' then "\\t"
               else if c == '\r' then "\\r"
               else if c == '\\' || c == ':' then ['\\', c]
               else [c];
      assert Escape(s) == e + Escape(s[1..]);
      if |e| == 2 {
        assert (e + Escape(s[1..]))[2..] == Escape(s[1..]);
      } else {
        assert c != '\\';
        assert (e + Escape(s[1..]))[1..] == Escape(s[1..]);
      }
    }
  }

  /** The escaped form of a text holds no line break, and it starts and ends
      with a non-space whenever the text does. */
  lemma {:induction false} EscapeShape(s: string)
    ensures forall i :: 0 <= i < |Escape(s)| ==> Escape(s)[i] != '\n' && Escape(s)[i] != '\r'
    ensures |Escape(s)| >= |s|
    ensures s != [] && !IsSpace(s[0]) ==> !IsSpace(Escape(s)[0])
    ensures s != [] && !IsSpace(s[|s| - 1]) ==> !IsSpace(Escape(s)[|Escape(s)| - 1])
  {
    if s != [] {
      EscapeShape(s[1..]);
      var c := s[0];
      var e := if c == '\n' then "\\n"
               else if c == '\t' then "\\t"
               else if c == '\r' then "\\r"
               else if c == '\\' || c == ':' then ['\\', c]
               else [c];
      assert Escape(s) == e + Escape(s[1..]);
      if |s| == 1 {
        assert Escape(s[1..]) == [];
      } else {
        assert s[1..][|s[1..]| - 1] == s[|s| - 1];
      }
    }
  }
}
