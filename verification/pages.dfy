/** The page-assembly steps of the two page generators: splitting the
    `<style>` blocks off a rendered card, collecting the cards of a page in
    order, adding the Vision link after the first Insights link, and
    assembling the head styles. The engine's rendering is not modelled
    here: the rendered strings are the inputs. */
module Pages {
  import opened Wrappers
  import opened Ascii

  const Open: string := "<style>"
  const Close: string := "</style>"

  // ---------------------------------------------------------------------
  // Python string primitives

  /** `str.isspace` for one character: the ASCII white space, the four
      information separators, and the Unicode space characters. */
  predicate IsPySpace(c: char) {
    c in {' ', '\t', '\n', '\U{0B}', '\U{0C}', '\r', '\U{1C}', '\U{1D}', '\U{1E}', '\U{1F}',
          '\U{85}', '\U{A0}', '\U{1680}', '\U{2028}', '\U{2029}', '\U{202F}', '\U{205F}', '\U{3000}'}
    || '\U{2000}' <= c <= '\U{200A}'
  }

  function StripLeft(s: string): (r: string)
    ensures |r| <= |s| && r == s[|s| - |r|..]
    ensures r == [] || !IsPySpace(r[0])
    ensures forall i :: 0 <= i < |s| - |r| ==> IsPySpace(s[i])
  {
    if |s| > 0 && IsPySpace(s[0]) then StripLeft(s[1..]) else s
  }

  function StripRight(s: string): (r: string)
    ensures |r| <= |s| && r == s[..|r|]
    ensures r == [] || !IsPySpace(r[|r| - 1])
    ensures forall i :: |r| <= i < |s| ==> IsPySpace(s[i])
  {
    if |s| > 0 && IsPySpace(s[|s| - 1]) then StripRight(s[..|s| - 1]) else s
  }

  /** No white space at either end. */
  predicate Stripped(s: string) {
    s == [] || (!IsPySpace(s[0]) && !IsPySpace(s[|s| - 1]))
  }

  /** `str.strip()`: the text without its leading and trailing white
      space. */
  function Strip(s: string): (r: string)
    ensures Stripped(r) && |r| <= |s|
    ensures Stripped(s) ==> r == s
  {
    StripRight(StripLeft(s))
  }

  /** `pat` occurs in `s` at `j`. */
  predicate OccursAt(s: string, pat: string, j: int) {
    0 <= j && j + |pat| <= |s| && s[j..j + |pat|] == pat
  }

  /** `str.find`: the first index at or after `from` where `pat` occurs. */
  function FindFrom(s: string, pat: string, from: nat): (r: Option<nat>)
    ensures r.Some? ==> from <= r.value && OccursAt(s, pat, r.value)
    ensures r.Some? ==> forall j :: from <= j < r.value ==> !OccursAt(s, pat, j)
    ensures r.None? ==> forall j :: from <= j ==> !OccursAt(s, pat, j)
    decreases |s| - from
  {
    if from + |pat| > |s| then None
    else if s[from..from + |pat|] == pat then Some(from)
    else FindFrom(s, pat, from + 1)
  }

  function Find(s: string, pat: string): (r: Option<nat>)
    ensures r.Some? ==> OccursAt(s, pat, r.value) && forall j :: 0 <= j < r.value ==> !OccursAt(s, pat, j)
    ensures r.None? ==> forall j :: !OccursAt(s, pat, j)
  {
    FindFrom(s, pat, 0)
  }

  /** An occurrence with none before it is the one `find` reports. */
  lemma FindIs(s: string, pat: string, x: nat)
    requires OccursAt(s, pat, x) && forall j :: 0 <= j < x ==> !OccursAt(s, pat, j)
    ensures Find(s, pat) == Some(x)
  {
  }

  /** `sep.join(parts)`. */
  function Join(sep: string, parts: seq<string>): string
    decreases |parts|
  {
    if parts == [] then ""
    else if |parts| == 1 then parts[0]
    else parts[0] + sep + Join(sep, parts[1..])
  }

  /** Joining two non-empty lists is joining each and putting one separator
      between them. */
  lemma {:induction false} JoinAppend(sep: string, a: seq<string>, b: seq<string>)
    requires a != [] && b != []
    ensures Join(sep, a + b) == Join(sep, a) + sep + Join(sep, b)
    decreases |a|
  {
    if |a| == 1 {
      assert (a + b)[1..] == b;
    } else {
      assert (a + b)[1..] == a[1..] + b;
      JoinAppend(sep, a[1..], b);
    }
  }

  // ---------------------------------------------------------------------
  // Style blocks

  /** A block `extract_style_blocks` hands out: it starts with `<style>`
      and its first `</style>` is its end. */
  predicate IsBlock(b: string) {
    StartsWith(b, Open) && |b| >= |Close| && Find(b, Close) == Some(|b| - |Close|)
  }

  /** The prefix up to and including the first `</style>` is a block. */
  lemma BlockOfPrefix(s: string, e: nat)
    requires StartsWith(s, Open) && Find(s, Close) == Some(e)
    ensures e + |Close| <= |s| && IsBlock(s[..e + |Close|])
  {
    var b := s[..e + |Close|];
    assert e + |Close| <= |s|;
    assert b[e..e + |Close|] == s[e..e + |Close|];
    forall j | 0 <= j < e ensures !OccursAt(b, Close, j) {
      assert !OccursAt(s, Close, j);
      assert j + |Close| <= |b|;
      assert b[j..j + |Close|] == s[j..j + |Close|];
    }
    FindIs(b, Close, e);
    assert StartsWith(b, Open) by {
      assert |Open| <= e + |Close| by {
        if e < |Open| {
          assert s[e] == Open[e];
        }
      }
      assert b[..|Open|] == s[..|Open|];
    }
  }

  /** The loop of `extract_style_blocks` from a remainder: while it starts
      with `<style>` and holds a `</style>`, cut off the text up to and
      including that tag and strip the rest. */
  function ExtractFrom(remaining: string): (r: (seq<string>, string))
    ensures forall i :: 0 <= i < |r.0| ==> IsBlock(r.0[i])
    ensures !StartsWith(remaining, Open) ==> r.0 == [] && r.1 == remaining
    ensures StartsWith(r.1, Open) ==> Find(r.1, Close).None?
    ensures |r.1| <= |remaining|
    decreases |remaining|
  {
    if !StartsWith(remaining, Open) then ([], remaining)
    else
      match Find(remaining, Close)
      case None => ([], remaining)
      case Some(e) =>
        BlockOfPrefix(remaining, e);
        var rest := ExtractFrom(Strip(remaining[e + |Close|..]));
        AllBlocksCons(remaining[..e + |Close|], rest.0);
        ([remaining[..e + |Close|]] + rest.0, rest.1)
  }

  lemma AllBlocksCons(b: string, bs: seq<string>)
    requires IsBlock(b) && forall i :: 0 <= i < |bs| ==> IsBlock(bs[i])
    ensures forall i :: 0 <= i < |[b] + bs| ==> IsBlock(([b] + bs)[i])
  {
  }

  /** `extract_style_blocks`: the leading style blocks of the stripped
      text, and what is left. */
  function ExtractStyleBlocks(rendered: string): (r: (seq<string>, string))
    ensures forall i :: 0 <= i < |r.0| ==> IsBlock(r.0[i])
    ensures !StartsWith(Strip(rendered), Open) ==> r.0 == [] && r.1 == Strip(rendered)
    ensures StartsWith(r.1, Open) ==> Find(r.1, Close).None?
  {
    ExtractFrom(Strip(rendered))
  }

  /** What is left is stripped text. */
  lemma {:induction false} ExtractFromRemainderStripped(remaining: string)
    requires Stripped(remaining)
    ensures Stripped(ExtractFrom(remaining).1)
    decreases |remaining|
  {
    if StartsWith(remaining, Open) && Find(remaining, Close).Some? {
      var e := Find(remaining, Close).value;
      ExtractFromRemainderStripped(Strip(remaining[e + |Close|..]));
    }
  }

  function Concat(parts: seq<string>): string
    decreases |parts|
  {
    if parts == [] then "" else parts[0] + Concat(parts[1..])
  }

  /** A block is found first in any text it begins. */
  lemma FindAfterBlock(b: string, rest: string)
    requires IsBlock(b)
    ensures Find(b + rest, Close) == Some(|b| - |Close|)
  {
    var s := b + rest;
    var e := |b| - |Close|;
    assert OccursAt(b, Close, e);
    assert s[e..e + |Close|] == b[e..e + |Close|];
    forall j | 0 <= j < e ensures !OccursAt(s, Close, j) {
      assert !OccursAt(b, Close, j);
      assert s[j..j + |Close|] == b[j..j + |Close|];
    }
    FindIs(s, Close, e);
  }

  lemma StartsWithBlock(b: string, rest: string)
    requires IsBlock(b)
    ensures StartsWith(b + rest, Open) && (b + rest)[..|b|] == b && (b + rest)[|b|..] == rest
  {
    assert (b + rest)[..|Open|] == b[..|Open|];
  }

  /** A block starts with `<` and ends with `>`. */
  lemma BlockEnds(b: string)
    requires IsBlock(b)
    ensures |b| > 0 && b[0] == '<' && b[|b| - 1] == '>'
  {
    assert b[..|Open|] == Open;
    assert OccursAt(b, Close, |b| - |Close|);
    assert b[|b| - |Close|..|b|][|Close| - 1] == b[|b| - 1];
  }

  /** Text after a block that starts and ends with no white space. */
  lemma StrippedAfterBlock(b: string, rest: string)
    requires IsBlock(b) && Stripped(rest)
    ensures Stripped(b + rest)
  {
    BlockEnds(b);
    assert (b + rest)[0] == b[0];
    if rest == [] {
      assert b + rest == b;
    } else {
      assert (b + rest)[|b + rest| - 1] == rest[|rest| - 1];
    }
  }

  /** A text of blocks ends like its last block or like what follows. */
  lemma {:induction false} ConcatStripped(blocks: seq<string>, body: string)
    requires forall i :: 0 <= i < |blocks| ==> IsBlock(blocks[i])
    requires Stripped(body)
    ensures Stripped(Concat(blocks) + body)
    decreases |blocks|
  {
    if blocks != [] {
      ConcatStripped(blocks[1..], body);
      ConcatStep(blocks, body);
      StrippedAfterBlock(blocks[0], Concat(blocks[1..]) + body);
    }
  }

  lemma ConcatStep(blocks: seq<string>, body: string)
    requires blocks != []
    ensures Concat(blocks) + body == blocks[0] + (Concat(blocks[1..]) + body)
  {
  }

  /** The round trip: blocks written one after another and followed by a
      stripped body that is not itself a closed block come back out. */
  lemma ExtractConcat(blocks: seq<string>, body: string)
    requires forall i :: 0 <= i < |blocks| ==> IsBlock(blocks[i])
    requires Stripped(body) && (StartsWith(body, Open) ==> Find(body, Close).None?)
    ensures ExtractFrom(Concat(blocks) + body).0 == blocks
    ensures ExtractFrom(Concat(blocks) + body).1 == body
  {
    forall b, rest | IsBlock(b) && Stripped(rest)
      ensures ExtractFrom(b + rest).0 == [b] + ExtractFrom(rest).0
      ensures ExtractFrom(b + rest).1 == ExtractFrom(rest).1
    {
      ExtractFromBlock(b, rest);
    }
    CutBlocks(ExtractFrom, blocks, body);
  }

  /** The induction of the round trip, for any extractor that cuts a
      leading block off stripped text and leaves the body alone. */
  lemma {:induction false} CutBlocks(ex: string -> (seq<string>, string), blocks: seq<string>, body: string)
    requires forall i :: 0 <= i < |blocks| ==> IsBlock(blocks[i])
    requires Stripped(body) && ex(body).0 == [] && ex(body).1 == body
    requires forall b, rest :: IsBlock(b) && Stripped(rest) ==>
      ex(b + rest).0 == [b] + ex(rest).0 && ex(b + rest).1 == ex(rest).1
    ensures ex(Concat(blocks) + body).0 == blocks
    ensures ex(Concat(blocks) + body).1 == body
    decreases |blocks|
  {
    if blocks == [] {
      assert Concat(blocks) + body == body;
    } else {
      var rest := Concat(blocks[1..]) + body;
      ConcatStep(blocks, body);
      ConcatStripped(blocks[1..], body);
      CutBlocks(ex, blocks[1..], body);
      assert ex(blocks[0] + rest).0 == [blocks[0]] + ex(rest).0;
      assert [blocks[0]] + blocks[1..] == blocks;
    }
  }

  /** A block followed by stripped text is cut off first. */
  lemma ExtractFromBlock(b: string, rest: string)
    requires IsBlock(b) && Stripped(rest)
    ensures ExtractFrom(b + rest).0 == [b] + ExtractFrom(rest).0
    ensures ExtractFrom(b + rest).1 == ExtractFrom(rest).1
  {
    FindAfterBlock(b, rest);
    StartsWithBlock(b, rest);
  }

  /** The same round trip through `extract_style_blocks`. */
  lemma ExtractStyleBlocksConcat(blocks: seq<string>, body: string)
    requires forall i :: 0 <= i < |blocks| ==> IsBlock(blocks[i])
    requires Stripped(body) && (StartsWith(body, Open) ==> Find(body, Close).None?)
    ensures ExtractStyleBlocks(Concat(blocks) + body).0 == blocks
    ensures ExtractStyleBlocks(Concat(blocks) + body).1 == body
  {
    ConcatStripped(blocks, body);
    ExtractConcat(blocks, body);
  }

  /** `split_style` of the first page generator: the first style block
      (closed when it is not) and the stripped rest. */
  function SplitStyle(rendered: string): (r: (string, string))
    ensures !StartsWith(Strip(rendered), Open) ==> r == ("", Strip(rendered))
    ensures StartsWith(Strip(rendered), Open) && Find(Strip(rendered), Close).None? ==>
      r == (Strip(rendered) + Close, "")
    ensures Stripped(r.1)
  {
    var s := Strip(rendered);
    if StartsWith(s, Open) then
      match Find(s, Close)
      case None => (s + Close, "")
      case Some(e) => (s[..e] + Close, Strip(s[e + |Close|..]))
    else ("", s)
  }

  /** With a closing tag, `split_style` and `extract_style_blocks` agree
      on the first block; the body `split_style` gives is the text after
      it, of which `extract_style_blocks` takes further blocks. */
  lemma SplitStyleIsFirstBlock(rendered: string)
    requires StartsWith(Strip(rendered), Open) && Find(Strip(rendered), Close).Some?
    ensures |ExtractStyleBlocks(rendered).0| > 0
    ensures SplitStyle(rendered).0 == ExtractStyleBlocks(rendered).0[0]
    ensures ExtractStyleBlocks(rendered).1 == ExtractFrom(SplitStyle(rendered).1).1
    ensures ExtractStyleBlocks(rendered).0[1..] == ExtractFrom(SplitStyle(rendered).1).0
  {
    var s := Strip(rendered);
    var e := Find(s, Close).value;
    assert s[..e] + Close == s[..e + |Close|];
  }

  // ---------------------------------------------------------------------
  // Cards and pages

  /** `render_card_set` over the rendered cards: the style blocks of every
      card in card order, and the cards' markup joined with nothing between. */
  function RenderCardSet(rendered: seq<string>): (r: (seq<string>, string))
    decreases |rendered|
  {
    if rendered == [] then ([], "")
    else
      var prev := RenderCardSet(rendered[..|rendered| - 1]);
      var card := ExtractStyleBlocks(rendered[|rendered| - 1]);
      (prev.0 + card.0, prev.1 + card.1)
  }

  /** One card gives what `extract_style_blocks` gives for it. */
  lemma RenderOneCard(card: string)
    ensures RenderCardSet([card]) == ExtractStyleBlocks(card)
  {
    assert [card][..0] == [];
    RenderCardSetStep([card]);
    assert [] + ExtractStyleBlocks(card).0 == ExtractStyleBlocks(card).0;
    assert "" + ExtractStyleBlocks(card).1 == ExtractStyleBlocks(card).1;
  }

  lemma RenderCardSetStep(cards: seq<string>)
    requires cards != []
    ensures RenderCardSet(cards).0
      == RenderCardSet(cards[..|cards| - 1]).0 + ExtractStyleBlocks(cards[|cards| - 1]).0
    ensures RenderCardSet(cards).1
      == RenderCardSet(cards[..|cards| - 1]).1 + ExtractStyleBlocks(cards[|cards| - 1]).1
  {
  }

  /** Card order is kept: the set of cards `a + b` renders as `a` then
      `b`, for styles and markup alike. */
  lemma {:induction false} RenderCardSetAppend(a: seq<string>, b: seq<string>)
    ensures RenderCardSet(a + b).0 == RenderCardSet(a).0 + RenderCardSet(b).0
    ensures RenderCardSet(a + b).1 == RenderCardSet(a).1 + RenderCardSet(b).1
    decreases |b|
  {
    if b == [] {
      assert a + b == a;
      assert RenderCardSet(a).0 + [] == RenderCardSet(a).0;
      assert RenderCardSet(a).1 + "" == RenderCardSet(a).1;
    } else {
      var b' := b[..|b| - 1];
      var last := ExtractStyleBlocks(b[|b| - 1]);
      assert (a + b)[..|a + b| - 1] == a + b';
      assert (a + b)[|a + b| - 1] == b[|b| - 1];
      RenderCardSetStep(a + b);
      RenderCardSetStep(b);
      RenderCardSetAppend(a, b');
      SeqAssoc(RenderCardSet(a).0, RenderCardSet(b').0, last.0);
      SeqAssoc(RenderCardSet(a).1, RenderCardSet(b').1, last.1);
    }
  }

  lemma SeqAssoc<T>(x: seq<T>, y: seq<T>, z: seq<T>)
    ensures x + y + z == x + (y + z)
  {
  }

  const InsightsLink: string := "<a class=\"style_nav-link\" href=\"insights.html\">Insights</a>"
  const VisionLink: string := " <a class=\"style_nav-link\" href=\"info.html\">Vision</a>"

  /** `str.replace(link, link + vision, 1)` as `build_page` uses it: the
      Vision link goes right after the first Insights link, if any. */
  function InsertVisionLink(body: string): (r: string)
    ensures Find(body, InsightsLink).None? ==> r == body
    ensures |r| == |body| + (if Find(body, InsightsLink).Some? then |VisionLink| else 0)
  {
    match Find(body, InsightsLink)
    case None => body
    case Some(i) => body[..i] + InsightsLink + VisionLink + body[i + |InsightsLink|..]
  }

  /** The link is added once, right after the first Insights link; taking
      it out again gives back the body. */
  lemma InsertVisionLinkAtFirst(body: string, i: nat)
    requires Find(body, InsightsLink) == Some(i)
    ensures Find(InsertVisionLink(body), InsightsLink) == Some(i)
    ensures OccursAt(InsertVisionLink(body), VisionLink, i + |InsightsLink|)
    ensures InsertVisionLink(body)[..i + |InsightsLink|] == body[..i + |InsightsLink|]
    ensures InsertVisionLink(body)[i + |InsightsLink| + |VisionLink|..] == body[i + |InsightsLink|..]
  {
    var j := i + |InsightsLink|;
    InsertedLayout(body, i);
    SamePrefixSameFirst(InsertVisionLink(body), body, InsightsLink, i);
  }

  /** The body with the link put in: the body up to the end of the first
      Insights link, the Vision link, and the rest of the body. */
  lemma InsertedLayout(body: string, i: nat)
    requires Find(body, InsightsLink) == Some(i)
    ensures InsertVisionLink(body) == body[..i + |InsightsLink|] + (VisionLink + body[i + |InsightsLink|..])
  {
    assert body[..i] + InsightsLink == body[..i + |InsightsLink|];
  }

  /** Two texts that agree up to the end of the first occurrence of `pat`
      in one have the same first occurrence. */
  lemma SamePrefixSameFirst(r: string, s: string, pat: string, i: nat)
    requires Find(s, pat) == Some(i) && i + |pat| <= |r| && r[..i + |pat|] == s[..i + |pat|]
    ensures Find(r, pat) == Some(i)
  {
    forall k | 0 <= k <= i ensures OccursAt(r, pat, k) == OccursAt(s, pat, k) {
      assert forall m :: k <= m < k + |pat| ==> r[m] == r[..i + |pat|][m] == s[..i + |pat|][m] == s[m];
      assert r[k..k + |pat|] == s[k..k + |pat|];
    }
    FindIs(r, pat, i);
  }

  /** `"\n".join(template_styles + card_styles + [EXTRA_STYLE_MATRIX])`,
      with the extra style text as a parameter. */
  function HeadStyles(templateStyles: seq<string>, cardStyles: seq<string>, extra: string): string {
    Join("\n", templateStyles + cardStyles + [extra])
  }

  /** The head holds the template styles, then the card styles, then the
      extra style, one newline between each. */
  lemma HeadStylesOrder(templateStyles: seq<string>, cardStyles: seq<string>, extra: string)
    requires templateStyles != [] && cardStyles != []
    ensures HeadStyles(templateStyles, cardStyles, extra)
      == Join("\n", templateStyles) + "\n" + Join("\n", cardStyles) + "\n" + extra
  {
    JoinAppend("\n", templateStyles, cardStyles);
    JoinAppend("\n", templateStyles + cardStyles, [extra]);
  }

  /** Without styles of its own the head is just the extra style. */
  lemma HeadStylesOnlyExtra(extra: string)
    ensures HeadStyles([], [], extra) == extra
  {
    assert [] + [] + [extra] == [extra];
  }
}
