/**
 * The tolerant scanner behind `parseRss` and `textOf`: the global item expression
 * `/<item\b[\s\S]*?<\/item>/gi`, the first-match tag expression
 * `<tag[^>]*>([\s\S]*?)<\/tag>` (flag `i`) and the two CDATA strippers, each written as a
 * search over the text and characterised by a ghost predicate that says what a match is.
 */
module Scan {
  import opened Wrappers
  import opened Text

  /** `pat` occurs at `i`, letters compared without case. Without the `u` flag the `i` flag
      never folds a non-ASCII character onto an ASCII one, so for the ASCII patterns used
      here this is exactly ASCII case folding. */
  predicate AtCI(s: string, i: nat, pat: string) {
    i + |pat| <= |s| && forall k :: 0 <= k < |pat| ==> Lower(s[i + k]) == Lower(pat[k])
  }

  /** The first case-insensitive occurrence of `pat` at or after `from`. */
  function FindCI(s: string, from: nat, pat: string): (r: Option<nat>)
    ensures r.Some? ==> from <= r.value && AtCI(s, r.value, pat)
    ensures r.Some? ==> forall j: nat :: from <= j < r.value ==> !AtCI(s, j, pat)
    ensures r.None? ==> forall j: nat :: from <= j ==> !AtCI(s, j, pat)
    decreases |s| - from
  {
    if from + |pat| > |s| then None
    else if AtCI(s, from, pat) then Some(from)
    else FindCI(s, from + 1, pat)
  }

  /** A case-insensitive occurrence inside a window is an occurrence at the start of it. */
  lemma AtCIWindow(s: string, p: nat, e: nat, pat: string)
    requires AtCI(s, p, pat) && p + |pat| <= e <= |s|
    ensures AtCI(s[p..e], 0, pat)
  {
    forall k | 0 <= k < |pat| ensures Lower(s[p..e][k]) == Lower(pat[k]) {
      assert s[p..e][k] == s[p + k];
    }
  }

  // ---- items ----

  const ItemOpen := "<item"
  const ItemClose := "</item>"

  /** A word character of a regular expression: `[A-Za-z0-9_]`. */
  predicate IsWordChar(c: char) {
    'a' <= c <= 'z' || 'A' <= c <= 'Z' || '0' <= c <= '9' || c == '_'
  }

  /** `<item\b` at `p`: the name, then a word boundary (the end of the text or a non-word
      character), so `<item>` and `<item x="1">` open an item and `<items>` does not. */
  predicate OpensItem(s: string, p: nat) {
    AtCI(s, p, ItemOpen) && (p + |ItemOpen| == |s| || !IsWordChar(s[p + |ItemOpen|]))
  }

  /** The item expression matches `s[p..e]`: an opening `<item\b` at `p`, and the lazy
      `[\s\S]*?` stops at the nearest `</item>` after it. */
  ghost predicate ItemMatch(s: string, p: nat, e: nat) {
    && OpensItem(s, p)
    && p + |ItemOpen| + |ItemClose| <= e
    && AtCI(s, e - |ItemClose|, ItemClose)
    && forall j: nat :: p + |ItemOpen| <= j < e - |ItemClose| ==> !AtCI(s, j, ItemClose)
  }

  /** No item match starts in `[a, b)`. */
  ghost predicate NoItemIn(s: string, a: nat, b: nat) {
    forall p: nat, e: nat :: a <= p < b ==> !ItemMatch(s, p, e)
  }

  /** A match ends inside the text, past its start. */
  lemma ItemMatchBounds(s: string, p: nat, e: nat)
    requires ItemMatch(s, p, e)
    ensures p < e <= |s|
  {
  }

  /** The lazy quantifier makes the end of a match a function of its start. */
  lemma ItemMatchUnique(s: string, p: nat, e1: nat, e2: nat)
    requires ItemMatch(s, p, e1) && ItemMatch(s, p, e2)
    ensures e1 == e2
  {
    assert AtCI(s, e1 - |ItemClose|, ItemClose) && AtCI(s, e2 - |ItemClose|, ItemClose);
  }

  /** The end of the item match that starts at `p`, if there is one. */
  function ItemAt(s: string, p: nat): (r: Option<nat>)
    ensures r.Some? ==> ItemMatch(s, p, r.value)
    ensures r.None? ==> forall e: nat :: !ItemMatch(s, p, e)
  {
    if OpensItem(s, p) then
      match FindCI(s, p + |ItemOpen|, ItemClose)
      case Some(c) => Some(c + |ItemClose|)
      case None => None
    else None
  }

  /** One step of the global search: the leftmost match at or after `from`. */
  function NextItem(s: string, from: nat): (r: Option<(nat, nat)>)
    ensures r.Some? ==> from <= r.value.0 && ItemMatch(s, r.value.0, r.value.1)
    ensures r.Some? ==> NoItemIn(s, from, r.value.0)
    ensures r.None? ==> NoItemIn(s, from, |s|)
    decreases |s| - from
  {
    if from >= |s| then None
    else
      match ItemAt(s, from)
      case Some(e) => Some((from, e))
      case None => NextItem(s, from + 1)
  }

  /** `String.prototype.match` with a global expression, as start/end pairs: the search
      resumes where the previous match ended, so the spans are ordered and do not
      overlap. */
  function ItemSpans(s: string, from: nat): (r: seq<(nat, nat)>)
    ensures forall i :: 0 <= i < |r| ==> from <= r[i].0 < r[i].1 <= |s|
    ensures forall i :: 0 < i < |r| ==> r[i - 1].1 <= r[i].0
    decreases |s| - from
  {
    match NextItem(s, from)
    case None => []
    case Some(m) =>
      ItemMatchBounds(s, m.0, m.1);
      var rest := ItemSpans(s, m.1);
      [m] + rest
  }

  /** Every span is a match of the item expression. */
  lemma {:induction false} ItemSpansSound(s: string, from: nat)
    ensures forall i :: 0 <= i < |ItemSpans(s, from)| ==> ItemMatch(s, ItemSpans(s, from)[i].0, ItemSpans(s, from)[i].1)
    decreases |s| - from
  {
    var r := ItemSpans(s, from);
    if r != [] {
      var m := NextItem(s, from).value;
      ItemMatchBounds(s, m.0, m.1);
      ItemSpansSound(s, m.1);
      assert r == [m] + ItemSpans(s, m.1);
    }
  }

  /** A non-empty result is the leftmost match followed by the spans after it. */
  lemma ItemSpansCons(s: string, from: nat)
    requires ItemSpans(s, from) != []
    ensures NextItem(s, from).Some?
    ensures var m := NextItem(s, from).value;
      ItemSpans(s, from) == [m] + ItemSpans(s, m.1)
  {
  }

  /** No match is skipped: none starts before the first span, between two spans, or after
      the last one. With soundness and order, this makes the spans the unique result of
      the global search. */
  lemma ItemSpansComplete(s: string, from: nat)
    ensures var r := ItemSpans(s, from);
      && (r == [] ==> NoItemIn(s, from, |s|))
      && (r != [] ==> NoItemIn(s, from, r[0].0) && NoItemIn(s, r[|r| - 1].1, |s|))
      && (forall i :: 0 < i < |r| ==> NoItemIn(s, r[i - 1].1, r[i].0))
  {
    var r := ItemSpans(s, from);
    if r != [] {
      ItemSpansCons(s, from);
    }
    ItemSpansLastGap(s, from);
    ItemSpansInnerGaps(s, from);
  }

  lemma {:induction false} ItemSpansLastGap(s: string, from: nat)
    ensures var r := ItemSpans(s, from);
      (r == [] ==> NoItemIn(s, from, |s|)) && (r != [] ==> NoItemIn(s, r[|r| - 1].1, |s|))
    decreases |s| - from
  {
    var r := ItemSpans(s, from);
    if r != [] {
      ItemSpansCons(s, from);
      var m := NextItem(s, from).value;
      ItemMatchBounds(s, m.0, m.1);
      var rest := ItemSpans(s, m.1);
      ItemSpansLastGap(s, m.1);
      assert r[|r| - 1] == if rest == [] then m else rest[|rest| - 1];
    }
  }

  lemma {:induction false} ItemSpansInnerGaps(s: string, from: nat)
    ensures var r := ItemSpans(s, from);
      forall i :: 0 < i < |r| ==> NoItemIn(s, r[i - 1].1, r[i].0)
    decreases |s| - from
  {
    var r := ItemSpans(s, from);
    if r != [] {
      ItemSpansCons(s, from);
      var m := NextItem(s, from).value;
      ItemMatchBounds(s, m.0, m.1);
      var rest := ItemSpans(s, m.1);
      ItemSpansInnerGaps(s, m.1);
      forall i | 0 < i < |r| ensures NoItemIn(s, r[i - 1].1, r[i].0) {
        if i == 1 {
          ItemSpansCons(s, m.1);
        } else {
          assert r[i - 1] == rest[i - 2] && r[i] == rest[i - 1];
        }
      }
    }
  }

  /** The blocks `parseRss` iterates over: the text of each span, in order. */
  function ItemBlocks(s: string): (r: seq<string>)
    ensures |r| == |ItemSpans(s, 0)|
    ensures forall i :: 0 <= i < |r| ==> r[i] == s[ItemSpans(s, 0)[i].0..ItemSpans(s, 0)[i].1]
  {
    var spans := ItemSpans(s, 0);
    seq(|spans|, i requires 0 <= i < |spans| => s[spans[i].0..spans[i].1])
  }

  /** The shape of a block: it opens with `<item` and closes with `</item>`. */
  predicate IsItemBlock(b: string) {
    |b| >= |ItemOpen| + |ItemClose| && AtCI(b, 0, ItemOpen) && AtCI(b, |b| - |ItemClose|, ItemClose)
  }

  /** Every block has that shape. */
  lemma ItemBlocksShape(s: string)
    ensures forall i :: 0 <= i < |ItemBlocks(s)| ==> IsItemBlock(ItemBlocks(s)[i])
  {
    var spans := ItemSpans(s, 0);
    var r := ItemBlocks(s);
    ItemSpansSound(s, 0);
    forall i | 0 <= i < |r| ensures IsItemBlock(r[i]) {
      MatchShape(s, spans[i].0, spans[i].1);
    }
  }

  lemma MatchShape(s: string, p: nat, e: nat)
    requires ItemMatch(s, p, e)
    ensures IsItemBlock(s[p..e])
  {
    AtCIWindow(s, p, e, ItemOpen);
    var c := e - |ItemClose|;
    forall k | 0 <= k < |ItemClose| ensures Lower(s[p..e][c - p + k]) == Lower(ItemClose[k]) {
      assert s[p..e][c - p + k] == s[c + k];
    }
  }

  // ---- tags ----

  function OpenTag(tag: string): string {
    "<" + tag
  }

  function CloseTag(tag: string): string {
    "</" + tag + ">"
  }

  /** Where one match of the tag expression sits: it starts at `start` and captures
      `s[a..b]`. */
  datatype TagSpan = TagSpan(start: nat, a: nat, b: nat)

  /** The tag expression matches at `p` and captures `s[a..b]`: `<tag` as a prefix (so
      `<titlebar>` opens `title` too), then `[^>]*>` up to the first `>`, then the lazy
      capture up to the nearest closing tag. */
  ghost predicate TagMatch(s: string, tag: string, p: nat, a: nat, b: nat) {
    && AtCI(s, p, OpenTag(tag))
    && p + |tag| + 2 <= a <= b
    && AtCI(s, b, CloseTag(tag))
    && s[a - 1] == '>'
    && (forall k :: p + |tag| + 1 <= k < a - 1 ==> s[k] != '>')
    && forall j: nat :: a <= j < b ==> !AtCI(s, j, CloseTag(tag))
  }

  /** No match of the tag expression starts in `[x, y)`. */
  ghost predicate NoTagIn(s: string, tag: string, x: nat, y: nat) {
    forall p: nat, a: nat, b: nat :: x <= p < y ==> !TagMatch(s, tag, p, a, b)
  }

  /** A match at `p` captures one definite span. */
  lemma TagMatchUnique(s: string, tag: string, p: nat, a1: nat, b1: nat, a2: nat, b2: nat)
    requires TagMatch(s, tag, p, a1, b1) && TagMatch(s, tag, p, a2, b2)
    ensures a1 == a2 && b1 == b2
  {
    assert s[a1 - 1] == '>' && s[a2 - 1] == '>';
    assert AtCI(s, b1, CloseTag(tag)) && AtCI(s, b2, CloseTag(tag));
  }

  /** The match of the tag expression at `p`, if there is one. */
  function TagAt(s: string, tag: string, p: nat): (r: Option<TagSpan>)
    ensures r.Some? ==> r.value.start == p && TagMatch(s, tag, p, r.value.a, r.value.b)
    ensures r.None? ==> forall a: nat, b: nat :: !TagMatch(s, tag, p, a, b)
  {
    if AtCI(s, p, OpenTag(tag)) then
      match FindChar(s, p + |tag| + 1, '>')
      case None => None
      case Some(g) =>
        match FindCI(s, g + 1, CloseTag(tag))
        case None => None
        case Some(c) => Some(TagSpan(p, g + 1, c))
    else None
  }

  /** `xml.match(re)` for the tag expression: the leftmost match at or after `from`. */
  function FindTag(s: string, tag: string, from: nat): (r: Option<TagSpan>)
    ensures r.Some? ==> from <= r.value.start && TagMatch(s, tag, r.value.start, r.value.a, r.value.b)
    ensures r.Some? ==> NoTagIn(s, tag, from, r.value.start)
    ensures r.None? ==> forall p: nat, a: nat, b: nat :: from <= p ==> !TagMatch(s, tag, p, a, b)
    decreases |s| - from
  {
    if from >= |s| then None
    else
      match TagAt(s, tag, from)
      case Some(m) => Some(m)
      case None => FindTag(s, tag, from + 1)
  }

  const CdataOpen := "<![CDATA["
  const CdataClose := "]]>"

  /** `.replace(/^<!\[CDATA\[/i, "")`: a leading CDATA opener, in any letter case, is cut. */
  function DropCdataOpen(x: string): (r: string)
    ensures r == x || (AtCI(x, 0, CdataOpen) && r == x[|CdataOpen|..])
    ensures AtCI(x, 0, CdataOpen) ==> |r| == |x| - |CdataOpen|
  {
    if AtCI(x, 0, CdataOpen) then x[|CdataOpen|..] else x
  }

  /** `.replace(/\]\]>$/i, "")`: a trailing CDATA closer is cut. */
  function DropCdataClose(x: string): (r: string)
    ensures r == x || (|x| >= |CdataClose| && x[|x| - |CdataClose|..] == CdataClose && r == x[..|x| - |CdataClose|])
    ensures |x| >= |CdataClose| && x[|x| - |CdataClose|..] == CdataClose ==> |r| == |x| - |CdataClose|
  {
    if |x| >= |CdataClose| && x[|x| - |CdataClose|..] == CdataClose then x[..|x| - |CdataClose|] else x
  }

  /** The CDATA wrapper comes off whole: opener first, then closer. */
  lemma CdataUnwrap(x: string)
    ensures DropCdataClose(DropCdataOpen(CdataOpen + x + CdataClose)) == x
  {
    var w := CdataOpen + x + CdataClose;
    assert AtCI(w, 0, CdataOpen) by {
      forall k | 0 <= k < |CdataOpen| ensures Lower(w[k]) == Lower(CdataOpen[k]) {
        assert w[k] == CdataOpen[k];
      }
    }
    assert w[|CdataOpen|..] == x + CdataClose;
    assert (x + CdataClose)[|x|..] == CdataClose;
    assert (x + CdataClose)[..|x|] == x;
  }

  /** `textOf(block, tag)`: the first match's capture with the CDATA wrapper removed, then
      trimmed; `""` when the block holds no complete tag pair. */
  function TextOf(s: string, tag: string): (r: string)
    ensures Unpadded(r)
  {
    match FindTag(s, tag, 0)
    case None => ""
    case Some(m) => Trim(DropCdataClose(DropCdataOpen(s[m.a..m.b])))
  }

  /** A block without a complete tag pair yields `""`. */
  lemma TextOfAbsent(s: string, tag: string)
    requires forall p: nat, a: nat, b: nat :: !TagMatch(s, tag, p, a, b)
    ensures TextOf(s, tag) == ""
  {
  }

  /** The capture `textOf` works on is that of the leftmost match. */
  lemma TextOfFirst(s: string, tag: string, p: nat, a: nat, b: nat)
    requires TagMatch(s, tag, p, a, b) && NoTagIn(s, tag, 0, p)
    ensures TextOf(s, tag) == Trim(DropCdataClose(DropCdataOpen(s[a..b])))
  {
    var m := FindTag(s, tag, 0);
    assert m.Some?;
    assert TagMatch(s, tag, m.value.start, m.value.a, m.value.b);
    TagMatchUnique(s, tag, p, a, b, m.value.a, m.value.b);
  }
}
