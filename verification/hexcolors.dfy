/** The colour extractor of the command-line tool: `hex_digit` and
    `collect_hex_colors`, which lists every `#rrggbb` code of a text once,
    in order of first occurrence, with its three channels. */
module HexColors {
  import opened Ascii

  /** `ColorEntry`: the seven-character code and its channels. */
  datatype ColorEntry = ColorEntry(hex: string, r: int, g: int, b: int)

  /** `hex_digit`: the value of a hex digit of either case, -1 for any
      other character. */
  function HexDigit(c: char): (v: int)
    ensures -1 <= v < 16
    ensures v >= 0 <==> IsHexDigit(c)
    ensures IsDigit(c) ==> v == c as int - '0' as int
  {
    var normalized := LowerChar(c);
    if '0' <= normalized <= '9' then normalized as int - '0' as int
    else if 'a' <= normalized <= 'f' then 10 + (normalized as int - 'a' as int)
    else -1
  }

  const LowerDigits: string := "0123456789abcdef"
  const UpperDigits: string := "0123456789ABCDEF"

  /** Both spellings of a digit value read back as that value. */
  lemma HexDigitOfValue(v: nat)
    requires v < 16
    ensures HexDigit(LowerDigits[v]) == v
    ensures HexDigit(UpperDigits[v]) == v
  {
  }

  /** Case does not matter to `hex_digit`. */
  lemma HexDigitIgnoresCase(c: char)
    ensures HexDigit(LowerChar(c)) == HexDigit(c)
  {
  }

  // ---------------------------------------------------------------------
  // Where the colours are

  /** A `#` at `p` followed by six hex digits, all within the text. */
  predicate IsColorAt(text: string, p: nat) {
    p + 7 <= |text| && text[p] == '#' && forall j :: p + 1 <= j < p + 7 ==> IsHexDigit(text[j])
  }

  /** The value of the two hex digits at `p`. */
  function Channel(text: string, p: nat): (v: int)
    requires p + 2 <= |text| && IsHexDigit(text[p]) && IsHexDigit(text[p + 1])
    ensures 0 <= v < 256
  {
    HexDigit(text[p]) * 16 + HexDigit(text[p + 1])
  }

  /** The entry for the colour code at `p`. */
  function EntryAt(text: string, p: nat): (e: ColorEntry)
    requires IsColorAt(text, p)
  {
    ColorEntry(text[p..p + 7], Channel(text, p + 1), Channel(text, p + 3), Channel(text, p + 5))
  }

  /** The code at `p` appears at no earlier position. */
  predicate FirstAt(text: string, p: nat) {
    IsColorAt(text, p) && forall q: nat :: q < p && IsColorAt(text, q) ==> text[q..q + 7] != text[p..p + 7]
  }

  /** The positions before `n` where a code appears for the first time, in
      increasing order. */
  function FirstPositions(text: string, n: nat): (ps: seq<nat>)
    ensures forall k :: 0 <= k < |ps| ==> ps[k] < n && FirstAt(text, ps[k])
    ensures forall k, l :: 0 <= k < l < |ps| ==> ps[k] < ps[l]
    ensures forall p: nat :: p in ps <==> p < n && FirstAt(text, p)
  {
    if n == 0 then []
    else FirstPositions(text, n - 1) + (if FirstAt(text, n - 1) then [n - 1] else [])
  }

  function EntriesAt(text: string, ps: seq<nat>): (es: seq<ColorEntry>)
    requires forall k :: 0 <= k < |ps| ==> IsColorAt(text, ps[k])
    ensures |es| == |ps|
    ensures forall k :: 0 <= k < |ps| ==> es[k] == EntryAt(text, ps[k])
  {
    seq(|ps|, k requires 0 <= k < |ps| => EntryAt(text, ps[k]))
  }

  /** What `collect_hex_colors` returns: one entry per first occurrence of
      a code, in text order. */
  function Colors(text: string): seq<ColorEntry> {
    EntriesAt(text, FirstPositions(text, |text|))
  }

  /** The codes found before `n`. */
  function HexesBefore(text: string, n: nat): (hs: set<string>)
    ensures forall h :: h in hs <==> exists q: nat :: q < n && IsColorAt(text, q) && text[q..q + 7] == h
  {
    if n == 0 then {}
    else HexesBefore(text, n - 1) + (if IsColorAt(text, n - 1) then {text[n - 1..n + 6]} else {})
  }

  // ---------------------------------------------------------------------
  // The loop

  /** The six digits after the `#` at `i`, or nothing when one of them is
      not a hex digit: the inner loop of `collect_hex_colors`. */
  method ReadDigits(text: string, i: nat) returns (valid: bool, digits: seq<int>)
    requires i + 7 <= |text|
    ensures valid <==> forall j :: i + 1 <= j < i + 7 ==> IsHexDigit(text[j])
    ensures valid ==> |digits| == 6 && forall m :: 0 <= m < 6 ==> digits[m] == HexDigit(text[i + 1 + m])
  {
    valid := true;
    digits := [];
    var j := 0;
    while j < 6
      invariant 0 <= j <= 6 && |digits| == j
      invariant forall m :: 0 <= m < j ==> digits[m] == HexDigit(text[i + 1 + m]) && IsHexDigit(text[i + 1 + m])
    {
      var value := HexDigit(text[i + 1 + j]);
      if value < 0 {
        valid := false;
        return;
      }
      digits := digits + [value];
      j := j + 1;
    }
    forall p | i + 1 <= p < i + 7 ensures IsHexDigit(text[p]) {
      var m := p - i - 1;
      assert 0 <= m < j && digits[m] == HexDigit(text[i + 1 + m]);
      assert IsHexDigit(text[i + 1 + m]);
    }
  }

  /** `collect_hex_colors`: scans every position that leaves room for seven
      characters, keeps a code the first time it is seen (comparing codes
      exactly, so case matters) and computes its channels. */
  method CollectHexColors(text: string) returns (colors: seq<ColorEntry>)
    ensures colors == Colors(text)
  {
    colors := [];
    var seen: set<string> := {};
    var i := 0;
    while i + 7 <= |text|
      invariant i <= |text|
      invariant colors == EntriesAt(text, FirstPositions(text, i))
      invariant seen == HexesBefore(text, i)
    {
      var found := false;
      if text[i] == '#' {
        var valid, digits := ReadDigits(text, i);
        if valid {
          found := true;
          var hex := text[i..i + 7];
          ColorStep(text, i);
          if hex !in seen {
            seen := seen + {hex};
            var entry := ColorEntry(hex, digits[0] * 16 + digits[1], digits[2] * 16 + digits[3],
                                    digits[4] * 16 + digits[5]);
            EntryOfDigits(text, i, digits);
            EntriesAtAppend(text, FirstPositions(text, i), i);
            colors := colors + [entry];
          }
        }
      }
      if !found {
        NoColorStep(text, i);
      }
      i := i + 1;
    }
    NoCodeNearEnd(text, i);
  }

  /** A position with no code adds nothing. */
  lemma NoColorStep(text: string, i: nat)
    requires !IsColorAt(text, i)
    ensures FirstPositions(text, i + 1) == FirstPositions(text, i)
    ensures HexesBefore(text, i + 1) == HexesBefore(text, i)
  {
    assert FirstPositions(text, i + 1) == FirstPositions(text, i) + [];
    assert HexesBefore(text, i + 1) == HexesBefore(text, i) + {};
  }

  /** A code is recorded as seen, and listed when it is new. */
  lemma ColorStep(text: string, i: nat)
    requires IsColorAt(text, i)
    ensures HexesBefore(text, i + 1) == HexesBefore(text, i) + {text[i..i + 7]}
    ensures text[i..i + 7] in HexesBefore(text, i) ==> FirstPositions(text, i + 1) == FirstPositions(text, i)
    ensures text[i..i + 7] !in HexesBefore(text, i) ==> FirstPositions(text, i + 1) == FirstPositions(text, i) + [i]
  {
    FirstIffUnseen(text, i);
    assert text[i..i + 7] in HexesBefore(text, i) ==> FirstPositions(text, i + 1) == FirstPositions(text, i) + [];
  }

  /** The channels the loop computes from the digits it read. */
  lemma EntryOfDigits(text: string, i: nat, digits: seq<int>)
    requires IsColorAt(text, i)
    requires |digits| == 6 && forall m :: 0 <= m < 6 ==> digits[m] == HexDigit(text[i + 1 + m])
    ensures ColorEntry(text[i..i + 7], digits[0] * 16 + digits[1], digits[2] * 16 + digits[3],
                       digits[4] * 16 + digits[5]) == EntryAt(text, i)
  {
    assert digits[0] == HexDigit(text[i + 1]) && digits[1] == HexDigit(text[i + 2]);
    assert digits[2] == HexDigit(text[i + 3]) && digits[3] == HexDigit(text[i + 4]);
    assert digits[4] == HexDigit(text[i + 5]) && digits[5] == HexDigit(text[i + 6]);
  }

  /** A code is new at `p` exactly when it was not seen before `p`. */
  lemma FirstIffUnseen(text: string, p: nat)
    requires IsColorAt(text, p)
    ensures FirstAt(text, p) <==> text[p..p + 7] !in HexesBefore(text, p)
  {
  }

  lemma EntriesAtAppend(text: string, ps: seq<nat>, p: nat)
    requires forall k :: 0 <= k < |ps| ==> IsColorAt(text, ps[k])
    requires IsColorAt(text, p)
    ensures EntriesAt(text, ps + [p]) == EntriesAt(text, ps) + [EntryAt(text, p)]
  {
  }

  /** No code starts in the last six characters, so the scan can stop
      there. */
  lemma {:induction false} NoCodeNearEnd(text: string, n: nat)
    requires n <= |text| < n + 7
    ensures FirstPositions(text, n) == FirstPositions(text, |text|)
    decreases |text| - n
  {
    if n < |text| {
      assert !FirstAt(text, n);
      assert FirstPositions(text, n + 1) == FirstPositions(text, n) + [];
      NoCodeNearEnd(text, n + 1);
    }
  }

  // ---------------------------------------------------------------------
  // What the result promises

  /** Every entry is a `#` with six hex digits, copied from the text, and
      its channels are the values of its digit pairs. */
  lemma ColorsAreCodes(text: string, k: nat)
    requires k < |Colors(text)|
    ensures |Colors(text)[k].hex| == 7 && IsColorAt(Colors(text)[k].hex, 0)
    ensures exists p: nat :: IsColorAt(text, p) && text[p..p + 7] == Colors(text)[k].hex
    ensures Colors(text)[k].r == Channel(Colors(text)[k].hex, 1)
    ensures Colors(text)[k].g == Channel(Colors(text)[k].hex, 3)
    ensures Colors(text)[k].b == Channel(Colors(text)[k].hex, 5)
    ensures 0 <= Colors(text)[k].r < 256 && 0 <= Colors(text)[k].g < 256 && 0 <= Colors(text)[k].b < 256
  {
    var p := FirstPositions(text, |text|)[k];
    var hex := text[p..p + 7];
    assert forall j :: 0 <= j < 7 ==> hex[j] == text[p + j];
  }

  /** No code is listed twice. */
  lemma ColorsDistinct(text: string)
    ensures forall k, l :: 0 <= k < l < |Colors(text)| ==> Colors(text)[k].hex != Colors(text)[l].hex
  {
  }

  /** Entries come in the order their codes first appear. */
  lemma ColorsInOrder(text: string, k: nat, l: nat)
    requires k < l < |Colors(text)|
    ensures exists p: nat, q: nat :: (p < q && FirstAt(text, p) && FirstAt(text, q)
      && Colors(text)[k].hex == text[p..p + 7] && Colors(text)[l].hex == text[q..q + 7])
  {
    var ps := FirstPositions(text, |text|);
    assert FirstAt(text, ps[k]) && FirstAt(text, ps[l]);
  }

  /** The first position where the code at `p` appears. */
  lemma {:induction false} FirstWitness(text: string, p: nat) returns (q: nat)
    requires IsColorAt(text, p)
    ensures q <= p && FirstAt(text, q) && text[q..q + 7] == text[p..p + 7]
    decreases p
  {
    if FirstAt(text, p) {
      q := p;
    } else {
      var r: nat :| r < p && IsColorAt(text, r) && text[r..r + 7] == text[p..p + 7];
      q := FirstWitness(text, r);
    }
  }

  /** Every code in the text is listed. */
  lemma ColorsComplete(text: string, p: nat)
    requires IsColorAt(text, p)
    ensures exists k :: 0 <= k < |Colors(text)| && Colors(text)[k].hex == text[p..p + 7]
  {
    var q := FirstWitness(text, p);
    var ps := FirstPositions(text, |text|);
    assert q in ps;
    var k :| 0 <= k < |ps| && ps[k] == q;
    assert Colors(text)[k].hex == text[q..q + 7];
  }

  /** Codes are compared exactly: two codes that differ only in case are
      both listed, as two entries. */
  lemma CaseSensitive(text: string, p: nat, q: nat)
    requires IsColorAt(text, p) && IsColorAt(text, q)
    requires text[p..p + 7] != text[q..q + 7] && ToLower(text[p..p + 7]) == ToLower(text[q..q + 7])
    ensures exists k, l :: (0 <= k < |Colors(text)| && 0 <= l < |Colors(text)| && k != l
      && Colors(text)[k].hex == text[p..p + 7] && Colors(text)[l].hex == text[q..q + 7])
  {
    ColorsComplete(text, p);
    ColorsComplete(text, q);
  }
}
