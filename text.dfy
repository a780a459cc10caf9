/**
 * The string helpers shared, character for character, by both handlers:
 * `trim`/`trimEnd`, the whitespace collapse `replace(/\s+/g, " ")`,
 * `stripTags`, `truncate` and `decodeEntities`.
 * A JavaScript string is modelled as a `seq<char>`.
 */
module Text {
  import opened Wrappers

  /** JavaScript's `\s` class, which is also the set `trim` removes:
      WhiteSpace (TAB, VT, FF, ZWNBSP and the Unicode space separators)
      and LineTerminator (LF, CR, LS, PS). */
  predicate IsSpace(c: char) {
    || c == '\t' || c == '\n' || c == '\U{000B}' || c == '\U{000C}' || c == '\r'
    || c == ' ' || c == '\U{00A0}' || c == '\U{1680}' || ('\U{2000}' <= c <= '\U{200A}')
    || c == '\U{2028}' || c == '\U{2029}' || c == '\U{202F}' || c == '\U{205F}'
    || c == '\U{3000}' || c == '\U{FEFF}'
  }

  /** ASCII lower-casing of one character. */
  function Lower(c: char): (r: char)
    ensures 'A' <= c <= 'Z' ==> r as int == c as int + 32
    ensures !('A' <= c <= 'Z') ==> r == c
  {
    if 'A' <= c <= 'Z' then (c as int + 32) as char else c
  }

  /** `toLowerCase` restricted to ASCII letters. */
  function ToLower(s: string): (r: string)
    ensures |r| == |s|
    ensures forall i :: 0 <= i < |s| ==> r[i] == Lower(s[i])
  {
    seq(|s|, i requires 0 <= i < |s| => Lower(s[i]))
  }

  /** Text without ASCII capitals is already lower-case. */
  lemma ToLowerNoCapitals(s: string)
    requires forall i :: 0 <= i < |s| ==> !('A' <= s[i] <= 'Z')
    ensures ToLower(s) == s
  {
  }

  /** Lower-casing twice is lower-casing once. */
  lemma ToLowerIdempotent(s: string)
    ensures ToLower(ToLower(s)) == ToLower(s)
  {
  }

  /** `trimStart`: drops the leading whitespace and nothing else. */
  function TrimStart(s: string): (r: string)
    ensures |r| <= |s| && r == s[|s| - |r|..]
    ensures forall i :: 0 <= i < |s| - |r| ==> IsSpace(s[i])
    ensures r == [] || !IsSpace(r[0])
  {
    if s != [] && IsSpace(s[0]) then TrimStart(s[1..]) else s
  }

  /** `trimEnd`: drops the trailing whitespace and nothing else. */
  function TrimEnd(s: string): (r: string)
    ensures |r| <= |s| && r == s[..|r|]
    ensures forall i :: |r| <= i < |s| ==> IsSpace(s[i])
    ensures r == [] || !IsSpace(r[|r| - 1])
  {
    if s != [] && IsSpace(s[|s| - 1]) then TrimEnd(s[..|s| - 1]) else s
  }

  /** `r` is the part of `s` that starts at offset `o`, and everything of `s` before and
      after it is whitespace. */
  ghost predicate Framed(s: string, o: nat, r: string) {
    && o + |r| <= |s| && (forall i :: 0 <= i < |r| ==> r[i] == s[o + i])
    && (forall i :: 0 <= i < o ==> IsSpace(s[i]))
    && (forall i :: o + |r| <= i < |s| ==> IsSpace(s[i]))
  }

  /** `s` neither starts nor ends with whitespace. */
  predicate Unpadded(s: string) {
    s == [] || (!IsSpace(s[0]) && !IsSpace(s[|s| - 1]))
  }

  /** `trim`: what is left is the part of `s` that starts after the leading whitespace
      `trimStart` drops, everything after it is whitespace too, and it neither starts nor
      ends with whitespace. */
  function Trim(s: string): (r: string)
    ensures Framed(s, |s| - |TrimStart(s)|, r)
    ensures Unpadded(r)
  {
    var t := TrimStart(s);
    var r := TrimEnd(t);
    FramedPrefix(s, t, r);
    r
  }

  /** A prefix `r` of a suffix `t` of `s`, with whitespace before `t` and after `r`, is
      framed by whitespace in `s`. */
  lemma FramedPrefix(s: string, t: string, r: string)
    requires |t| <= |s| && t == s[|s| - |t|..] && forall i :: 0 <= i < |s| - |t| ==> IsSpace(s[i])
    requires |r| <= |t| && r == t[..|r|] && forall i :: |r| <= i < |t| ==> IsSpace(t[i])
    ensures Framed(s, |s| - |t|, r)
  {
    var o := |s| - |t|;
    forall i | o + |r| <= i < |s| ensures IsSpace(s[i]) {
      assert s[i] == t[i - o];
    }
  }

  /** The characters of `s` that are not whitespace, in order. */
  function Visible(s: string): (r: string)
    ensures |r| <= |s|
    ensures forall i :: 0 <= i < |r| ==> !IsSpace(r[i])
  {
    if s == [] then []
    else if IsSpace(s[0]) then Visible(s[1..])
    else [s[0]] + Visible(s[1..])
  }

  lemma {:induction false} VisibleAppend(a: string, b: string)
    ensures Visible(a + b) == Visible(a) + Visible(b)
    decreases |a|
  {
    if a == [] {
      assert a + b == b;
    } else {
      assert (a + b)[0] == a[0] && (a + b)[1..] == a[1..] + b;
      VisibleAppend(a[1..], b);
    }
  }

  lemma {:induction false} VisibleSpaces(w: string)
    requires forall i :: 0 <= i < |w| ==> IsSpace(w[i])
    ensures Visible(w) == []
    decreases |w|
  {
    if w != [] {
      assert forall i :: 0 <= i < |w| - 1 ==> w[1..][i] == w[i + 1];
      VisibleSpaces(w[1..]);
    }
  }

  /** Whitespace around a string adds nothing visible. */
  lemma VisibleAround(head: string, r: string, tail: string)
    requires forall i :: 0 <= i < |head| ==> IsSpace(head[i])
    requires forall i :: 0 <= i < |tail| ==> IsSpace(tail[i])
    ensures Visible(head + r + tail) == Visible(r)
  {
    VisibleAppend(head + r, tail);
    VisibleAppend(head, r);
    VisibleSpaces(head);
    VisibleSpaces(tail);
  }

  /** A part of `s` with only whitespace around it has the same visible characters. */
  lemma VisiblePart(s: string, o: nat, r: string)
    requires Framed(s, o, r)
    ensures Visible(r) == Visible(s)
  {
    var head, tail := s[..o], s[o + |r|..];
    assert s[o..o + |r|] == r;
    assert s == head + s[o..o + |r|] + tail;
    assert forall i :: 0 <= i < |tail| ==> tail[i] == s[o + |r| + i];
    VisibleAround(head, r, tail);
  }

  /** Trimming removes whitespace only. */
  lemma TrimVisible(s: string)
    ensures Visible(Trim(s)) == Visible(s)
  {
    VisiblePart(s, |s| - |TrimStart(s)|, Trim(s));
  }

  /** `trimStart` removes whitespace only. */
  lemma TrimStartVisible(s: string)
    ensures Visible(TrimStart(s)) == Visible(s)
  {
    var t := TrimStart(s);
    var head := s[..|s| - |t|];
    assert s == head + t;
    VisibleAppend(head, t);
    VisibleSpaces(head);
  }

  /** Leading whitespace up to a visible character is what `trimStart` drops. */
  lemma {:induction false} TrimStartAppend(u: string, c: char, v: string)
    requires !IsSpace(c)
    ensures TrimStart(u + [c] + v) == TrimStart(u) + [c] + v
    decreases |u|
  {
    var s := u + [c] + v;
    if u == [] {
      assert s == [c] + v;
    } else {
      assert s[0] == u[0] && s[1..] == u[1..] + [c] + v;
      if IsSpace(u[0]) {
        TrimStartAppend(u[1..], c, v);
      }
    }
  }

  /** No whitespace character but the plain space, and never two spaces in a row. */
  ghost predicate SingleSpaced(s: string) {
    && (forall i :: 0 <= i < |s| && IsSpace(s[i]) ==> s[i] == ' ')
    && (forall i, j :: 0 <= i && j == i + 1 && j < |s| ==> !(s[i] == ' ' && s[j] == ' '))
  }

  /** `replace(/\s+/g, " ")`: every maximal run of whitespace becomes one space. */
  function CollapseSpaces(s: string): (r: string)
    ensures |r| <= |s|
    ensures r != [] && r[0] == ' ' ==> IsSpace(s[0])
    ensures SingleSpaced(r)
    ensures forall c :: c in r && c != ' ' ==> c in s
    decreases |s|
  {
    if s == [] then []
    else if IsSpace(s[0]) then
      var rest := TrimStart(s);
      " " + CollapseSpaces(rest)
    else [s[0]] + CollapseSpaces(s[1..])
  }

  /** A run of whitespace alone collapses to one space, or to nothing when it is empty. */
  lemma CollapseRun(w: string)
    requires forall i :: 0 <= i < |w| ==> IsSpace(w[i])
    ensures CollapseSpaces(w) == if w == [] then [] else " "
  {
  }

  /** Collapsing works piecewise around a visible character: the whitespace on either
      side of it is collapsed separately and the character itself is kept. Together with
      `CollapseRun` this determines the result on every string. */
  lemma {:induction false} CollapseSplit(u: string, c: char, v: string)
    requires !IsSpace(c)
    ensures CollapseSpaces(u + [c] + v) == CollapseSpaces(u) + [c] + CollapseSpaces(v)
    decreases |u|
  {
    if u == [] {
      assert u + [c] + v == [c] + v;
      CollapseCharCons(c, v);
    } else if IsSpace(u[0]) {
      var t := TrimStart(u);
      CollapseSplit(t, c, v);
      CollapseSpaceStep(u, c, v);
    } else {
      CollapseSplit(u[1..], c, v);
      CollapseCharStep(u, c, v);
    }
  }

  lemma CollapseCharCons(c: char, v: string)
    requires !IsSpace(c)
    ensures CollapseSpaces([c] + v) == [c] + CollapseSpaces(v)
  {
    DropFirst([c], v);
  }

  lemma CollapseSpaceStep(u: string, c: char, v: string)
    requires !IsSpace(c) && u != [] && IsSpace(u[0])
    requires var t := TrimStart(u);
      CollapseSpaces(t + [c] + v) == CollapseSpaces(t) + [c] + CollapseSpaces(v)
    ensures CollapseSpaces(u + [c] + v) == CollapseSpaces(u) + [c] + CollapseSpaces(v)
  {
    Assoc(u, c, v);
    DropFirst(u, [c] + v);
    TrimStartAppend(u, c, v);
    Regroup(" ", CollapseSpaces(TrimStart(u)), c, CollapseSpaces(v));
  }

  lemma CollapseCharStep(u: string, c: char, v: string)
    requires !IsSpace(c) && u != [] && !IsSpace(u[0])
    requires CollapseSpaces(u[1..] + [c] + v) == CollapseSpaces(u[1..]) + [c] + CollapseSpaces(v)
    ensures CollapseSpaces(u + [c] + v) == CollapseSpaces(u) + [c] + CollapseSpaces(v)
  {
    var s := u + [c] + v;
    Assoc(u, c, v);
    Assoc(u[1..], c, v);
    DropFirst(u, [c] + v);
    assert CollapseSpaces(s) == [u[0]] + CollapseSpaces(u[1..] + [c] + v);
    Regroup([u[0]], CollapseSpaces(u[1..]), c, CollapseSpaces(v));
  }

  lemma Assoc(u: string, c: char, v: string)
    ensures u + [c] + v == u + ([c] + v)
  {
  }

  lemma DropFirst(u: string, w: string)
    requires u != []
    ensures u + w == [u[0]] + (u[1..] + w) && (u + w)[0] == u[0] && (u + w)[1..] == u[1..] + w
  {
  }

  lemma Regroup(x: string, a: string, c: char, b: string)
    ensures x + (a + [c] + b) == x + a + [c] + b
  {
  }

  /** Collapsing changes whitespace only: the visible characters stay, in order. */
  lemma {:induction false} CollapseVisible(s: string)
    ensures Visible(CollapseSpaces(s)) == Visible(s)
    decreases |s|
  {
    if s != [] {
      if IsSpace(s[0]) {
        var t := TrimStart(s);
        CollapseVisible(t);
        TrimStartVisible(s);
        var x := CollapseSpaces(t);
        assert (" " + x)[1..] == x;
      } else {
        CollapseVisible(s[1..]);
        assert ([s[0]] + CollapseSpaces(s[1..]))[1..] == CollapseSpaces(s[1..]);
      }
    }
  }

  /** Index of the first `c` in `s` at or after `from`. */
  function FindChar(s: string, from: nat, c: char): (r: Option<nat>)
    ensures r.Some? ==> from <= r.value < |s| && s[r.value] == c
    ensures r.Some? ==> forall k :: from <= k < r.value ==> s[k] != c
    ensures r.None? ==> forall k :: from <= k < |s| ==> s[k] != c
    decreases |s| - from
  {
    if from >= |s| then None
    else if s[from] == c then Some(from)
    else FindChar(s, from + 1, c)
  }

  /** `replace(/<[^>]*>/g, "")`: every `<` with a `>` somewhere after it starts a tag
      that runs to the first such `>` and is deleted; a `<` with no `>` after it stays. */
  function StripTags(s: string): (r: string)
    ensures |r| <= |s|
    ensures forall c :: c in r ==> c in s
    decreases |s|
  {
    if s == [] then []
    else if s[0] == '<' then
      match FindChar(s, 1, '>')
      case Some(k) => StripTags(s[k + 1..])
      case None => [s[0]] + StripTags(s[1..])
    else [s[0]] + StripTags(s[1..])
  }

  /** No `<` is followed, anywhere later, by a `>`: nothing a tag pattern could match. */
  ghost predicate TagFree(s: string) {
    forall i, j :: 0 <= i < j < |s| ==> !(s[i] == '<' && s[j] == '>')
  }

  lemma TagFreeCons(c: char, t: string)
    ensures TagFree([c] + t) <==> TagFree(t) && (c == '<' ==> '>' !in t)
  {
    var s := [c] + t;
    if TagFree(s) {
      forall i, j | 0 <= i < j < |t| ensures !(t[i] == '<' && t[j] == '>') {
        assert t[i] == s[i + 1] && t[j] == s[j + 1];
      }
      if c == '<' {
        forall j | 0 <= j < |t| ensures t[j] != '>' {
          assert s[0] == '<' && t[j] == s[j + 1];
        }
      }
    }
    if TagFree(t) && (c == '<' ==> '>' !in t) {
      forall i, j | 0 <= i < j < |s| ensures !(s[i] == '<' && s[j] == '>') {
        if i == 0 {
          assert s[j] == t[j - 1];
        } else {
          assert s[i] == t[i - 1] && s[j] == t[j - 1];
        }
      }
    }
  }

  /** A string without `<` has no tag to strip. */
  lemma {:induction false} StripTagsNoLt(s: string)
    requires '<' !in s
    ensures StripTags(s) == s
    decreases |s|
  {
    if s != [] {
      assert s[0] != '<';
      assert '<' !in s[1..];
      StripTagsNoLt(s[1..]);
      assert s == [s[0]] + s[1..];
    }
  }

  /** Text before the first `<` is kept as it is, and stripping carries on after it. */
  lemma {:induction false} StripTagsPrefix(u: string, w: string)
    requires '<' !in u
    ensures StripTags(u + w) == u + StripTags(w)
    decreases |u|
  {
    if u == [] {
      assert u + w == w;
    } else {
      DropFirst(u, w);
      assert u[0] != '<' && '<' !in u[1..];
      StripTagsPrefix(u[1..], w);
      DropFirst(u, StripTags(w));
    }
  }

  /** A closed tag, `<` up to the first `>` after it, is deleted. */
  lemma StripTagsTag(t: string, v: string)
    requires '>' !in t
    ensures StripTags(['<'] + t + ['>'] + v) == StripTags(v)
  {
    var s := ['<'] + t + ['>'] + v;
    var k := 1 + |t|;
    assert s[0] == '<' && s[k] == '>';
    assert forall i :: 1 <= i < k ==> s[i] == t[i - 1];
    assert s[k + 1..] == v;
    match FindChar(s, 1, '>')
    case None =>
      assert false;
    case Some(m) =>
      assert m == k;
  }

  /** A `<` with no `>` anywhere after it is kept. */
  lemma StripTagsUnclosed(t: string)
    requires '>' !in t
    ensures StripTags(['<'] + t) == ['<'] + StripTags(t)
  {
    var s := ['<'] + t;
    assert s[1..] == t;
    assert forall i :: 1 <= i < |s| ==> s[i] == t[i - 1];
  }

  /** `stripTags` keeps the text around a tag and deletes the tag: for `u<t>v`, with no `<`
      in `u` and no `>` in `t`, the result is `u` followed by the stripped `v`. */
  lemma StripTagsSplit(u: string, t: string, v: string)
    requires '<' !in u && '>' !in t
    ensures StripTags(u + ['<'] + t + ['>'] + v) == u + StripTags(v)
  {
    var w := ['<'] + t + ['>'] + v;
    assert u + ['<'] + t + ['>'] + v == u + w;
    StripTagsPrefix(u, w);
    StripTagsTag(t, v);
  }

  /** What `StripTags` leaves contains no tag. */
  lemma {:induction false} StripTagsTagFree(s: string)
    ensures TagFree(StripTags(s))
    decreases |s|
  {
    if s != [] {
      if s[0] == '<' {
        match FindChar(s, 1, '>')
        case Some(k) =>
          StripTagsTagFree(s[k + 1..]);
        case None =>
          StripTagsTagFree(s[1..]);
          var t := StripTags(s[1..]);
          assert '>' !in s[1..];
          assert '>' !in t;
          TagFreeCons(s[0], t);
      } else {
        StripTagsTagFree(s[1..]);
        TagFreeCons(s[0], StripTags(s[1..]));
      }
    }
  }

  /** A string that already contains no tag is left unchanged. */
  lemma {:induction false} StripTagsKeepsTagFree(s: string)
    requires TagFree(s)
    ensures StripTags(s) == s
    decreases |s|
  {
    if s != [] {
      TagFreeCons(s[0], s[1..]);
      assert s == [s[0]] + s[1..];
      if s[0] == '<' {
        assert FindChar(s, 1, '>').None? by {
          forall k | 1 <= k < |s| ensures s[k] != '>' {
            assert s[1..][k - 1] == s[k];
          }
        }
      }
      StripTagsKeepsTagFree(s[1..]);
    }
  }

  /** Stripping tags twice is stripping them once. */
  lemma StripTagsIdempotent(s: string)
    ensures StripTags(StripTags(s)) == StripTags(s)
  {
    StripTagsTagFree(s);
    StripTagsKeepsTagFree(StripTags(s));
  }

  /** A part of a tag-free string is tag-free. */
  lemma TagFreeInfix(s: string, a: nat, b: nat)
    requires a <= b <= |s| && TagFree(s)
    ensures TagFree(s[a..b])
  {
    var t := s[a..b];
    forall i, j | 0 <= i < j < |t| ensures !(t[i] == '<' && t[j] == '>') {
      assert t[i] == s[a + i] && t[j] == s[a + j];
    }
  }

  /** Appending text without `>` keeps a string tag-free. */
  lemma TagFreeAppend(u: string, e: string)
    requires TagFree(u) && '>' !in e
    ensures TagFree(u + e)
  {
    var s := u + e;
    forall i, j | 0 <= i < j < |s| ensures !(s[i] == '<' && s[j] == '>') {
      if j >= |u| {
        assert s[j] == e[j - |u|];
      } else {
        assert s[i] == u[i] && s[j] == u[j];
      }
    }
  }

  /** `trim` keeps a tag-free string tag-free. */
  lemma TrimKeepsTagFree(s: string)
    requires TagFree(s)
    ensures TagFree(Trim(s))
  {
    var t := TrimStart(s);
    TagFreeInfix(s, |s| - |t|, |s|);
    TagFreeInfix(t, 0, |TrimEnd(t)|);
  }

  /** A part of a single-spaced string is single-spaced. */
  lemma SingleSpacedInfix(s: string, a: nat, b: nat)
    requires a <= b <= |s| && SingleSpaced(s)
    ensures SingleSpaced(s[a..b])
  {
    var r := s[a..b];
    forall i | 0 <= i < |r| && IsSpace(r[i]) ensures r[i] == ' ' {
      assert r[i] == s[a + i];
    }
    forall i | 0 <= i < |r| - 1 ensures !(r[i] == ' ' && r[i + 1] == ' ') {
      assert r[i] == s[a + i] && r[i + 1] == s[a + i + 1];
    }
  }

  /** `trim` keeps a single-spaced string single-spaced. */
  lemma TrimKeepsSingleSpaced(s: string)
    requires SingleSpaced(s)
    ensures SingleSpaced(Trim(s))
  {
    var t := TrimStart(s);
    SingleSpacedInfix(s, |s| - |t|, |s|);
    SingleSpacedInfix(t, 0, |TrimEnd(t)|);
  }

  /** Collapsing whitespace keeps a tag-free string tag-free. */
  lemma {:induction false} CollapseKeepsTagFree(s: string)
    requires TagFree(s)
    ensures TagFree(CollapseSpaces(s))
    decreases |s|
  {
    if s != [] {
      TagFreeTail(s);
      if IsSpace(s[0]) {
        var rest := TrimStart(s[1..]);
        CollapseKeepsTagFree(rest);
        CollapseSpaceHead(s, rest);
      } else {
        CollapseKeepsTagFree(s[1..]);
        CollapseCharHead(s);
      }
    }
  }

  /** What a tag-free string leaves behind its first character. */
  lemma TagFreeTail(s: string)
    requires s != [] && TagFree(s)
    ensures TagFree(s[1..]) && TagFree(TrimStart(s[1..]))
    ensures s[0] == '<' ==> '>' !in s[1..]
  {
    var t := s[1..];
    TagFreeDrop(s, 1);
    TagFreeDrop(t, |t| - |TrimStart(t)|);
    if s[0] == '<' {
      forall k | 0 <= k < |t| ensures t[k] != '>' {
        assert t[k] == s[k + 1];
      }
    }
  }

  /** A suffix of a tag-free string is tag-free. */
  lemma TagFreeDrop(s: string, a: nat)
    requires a <= |s| && TagFree(s)
    ensures TagFree(s[a..])
  {
    var t := s[a..];
    forall i, j | 0 <= i < j < |t| ensures !(t[i] == '<' && t[j] == '>') {
      assert t[i] == s[a + i] && t[j] == s[a + j];
    }
  }

  lemma CollapseSpaceHead(s: string, rest: string)
    requires s != [] && IsSpace(s[0]) && rest == TrimStart(s[1..])
    requires TagFree(CollapseSpaces(rest))
    ensures TagFree(CollapseSpaces(s))
  {
    assert CollapseSpaces(s) == [' '] + CollapseSpaces(rest);
    TagFreeCons(' ', CollapseSpaces(rest));
  }

  lemma CollapseCharHead(s: string)
    requires s != [] && !IsSpace(s[0])
    requires TagFree(CollapseSpaces(s[1..])) && (s[0] == '<' ==> '>' !in s[1..])
    ensures TagFree(CollapseSpaces(s))
  {
    var t := CollapseSpaces(s[1..]);
    assert s[0] == '<' ==> '>' !in t;
    TagFreeCons(s[0], t);
  }

  /** Truncation keeps a tag-free string tag-free when the ellipsis holds no `>`. */
  lemma TruncateKeepsTagFree(s: string, max: nat, ellipsis: string)
    requires max >= 1 && TagFree(s) && '>' !in ellipsis
    ensures TagFree(Truncate(s, max, ellipsis))
  {
    var r := Truncate(s, max, ellipsis);
    if |s| > max {
      var k := |r| - |ellipsis|;
      TagFreeInfix(s, 0, k);
      TagFreeAppend(s[..k], ellipsis);
      assert r == s[..k] + ellipsis;
    }
  }

  /** `truncate(s, max)` with the given ellipsis: a string of at most `max` characters is
      returned as it is; a longer one is cut to its first `max - 1` characters, trailing
      whitespace is dropped from those, and the ellipsis is appended. The contract pins the
      result down: the kept part `r[..k]` is a prefix of `s` that ends in a non-space, and the
      characters dropped between `k` and `max - 1` are all whitespace. */
  function Truncate(s: string, max: nat, ellipsis: string): (r: string)
    requires max >= 1
    ensures |s| <= max ==> r == s
    ensures |s| > max ==>
      var k := |r| - |ellipsis|;
      && 0 <= k <= max - 1
      && r[k..] == ellipsis
      && r[..k] == s[..k]
      && (k == 0 || !IsSpace(s[k - 1]))
      && (forall i :: k <= i < max - 1 ==> IsSpace(s[i]))
  {
    if |s| <= max then s else TrimEnd(s[..max - 1]) + ellipsis
  }

  /** `t` occurs in `s` at index `i`. */
  predicate At(s: string, i: nat, t: string) {
    i + |t| <= |s| && s[i..i + |t|] == t
  }

  /** `t` occurs nowhere in `s`. */
  ghost predicate Absent(s: string, t: string) {
    forall i: nat :: !At(s, i, t)
  }

  /** No character of `a` appears in `b`. */
  ghost predicate Disjoint(a: string, b: string) {
    forall c :: c in a ==> c !in b
  }

  /** `replaceAll(pat, rep)` for a non-empty string pattern: occurrences are found left to
      right, and scanning resumes after each replaced occurrence. */
  function ReplaceAll(s: string, pat: string, rep: string): (r: string)
    requires pat != []
    ensures |rep| <= |pat| ==> |r| <= |s|
    decreases |s|
  {
    if s == [] then []
    else if At(s, 0, pat) then rep + ReplaceAll(s[|pat|..], pat, rep)
    else [s[0]] + ReplaceAll(s[1..], pat, rep)
  }

  /** A string that does not contain the pattern's first character is left unchanged. */
  lemma {:induction false} ReplaceAllNoMatch(s: string, pat: string, rep: string)
    requires pat != [] && pat[0] !in s
    ensures ReplaceAll(s, pat, rep) == s
    decreases |s|
  {
    if s != [] {
      assert s[0] != pat[0];
      assert pat[0] !in s[1..];
      ReplaceAllNoMatch(s[1..], pat, rep);
      assert s == [s[0]] + s[1..];
    }
  }

  lemma ReplaceAllHead(s: string, pat: string, rep: string)
    requires pat != [] && rep != [] && s != []
    ensures ReplaceAll(s, pat, rep)[0] == if At(s, 0, pat) then rep[0] else s[0]
  {
  }

  /** Up to the first character that comes from a replacement, the output copies the input. */
  lemma {:induction false} ReplaceAllCopiesPrefix(s: string, pat: string, rep: string, m: nat)
    requires pat != [] && rep != []
    requires m <= |ReplaceAll(s, pat, rep)|
    requires forall k :: 0 <= k < m ==> ReplaceAll(s, pat, rep)[k] !in rep
    ensures m <= |s| && ReplaceAll(s, pat, rep)[..m] == s[..m]
    decreases |s|
  {
    var r := ReplaceAll(s, pat, rep);
    if m > 0 {
      ReplaceAllHead(s, pat, rep);
      assert r[0] !in rep && rep[0] in rep;
      var t := ReplaceAll(s[1..], pat, rep);
      assert r == [s[0]] + t;
      forall k | 0 <= k < m - 1 ensures t[k] !in rep {
        assert t[k] == r[k + 1];
      }
      ReplaceAllCopiesPrefix(s[1..], pat, rep, m - 1);
      assert r[..m] == [s[0]] + t[..m - 1];
    }
  }

  /** A window of `a + b` that starts past `a` is a window of `b`. */
  lemma SliceOfTail(a: string, b: string, i: nat, n: nat)
    requires |a| <= i && i + n <= |a| + |b|
    ensures (a + b)[i..i + n] == b[i - |a|..i - |a| + n]
  {
    assert (a + b)[|a|..] == b;
    assert (a + b)[i..i + n] == (a + b)[|a|..][i - |a|..i - |a| + n];
  }

  /** What does not occur in a string does not occur in any of its suffixes. */
  lemma AbsentSuffix(s: string, q: string, skip: nat)
    requires skip <= |s| && Absent(s, q)
    ensures Absent(s[skip..], q)
  {
    forall i: nat ensures !At(s[skip..], i, q) {
      if i + |q| <= |s| - skip {
        assert s[skip..][i..i + |q|] == s[skip + i..skip + i + |q|];
        assert !At(s, skip + i, q);
      }
    }
  }

  /** An occurrence of `q` cannot start on a character that `q` does not contain. */
  lemma NotAtForeign(r: string, i: nat, q: string, rep: string)
    requires i < |r| && r[i] in rep && q != [] && Disjoint(rep, q)
    ensures !At(r, i, q)
  {
    if i + |q| <= |r| {
      assert r[i..i + |q|][0] == r[i];
    }
  }

  /** The output of `replaceAll` does not start with `q` when the input does not, nor with
      the pattern, as long as the replacement shares no character with `q`. */
  lemma ReplaceAllNotAtStart(s: string, pat: string, rep: string, q: string)
    requires pat != [] && rep != [] && q != [] && Disjoint(rep, q)
    requires q == pat || !At(s, 0, q)
    ensures !At(ReplaceAll(s, pat, rep), 0, q)
  {
    var r := ReplaceAll(s, pat, rep);
    if |q| <= |r| {
      if exists k :: 0 <= k < |q| && r[k] in rep {
        var k :| 0 <= k < |q| && r[k] in rep;
        assert r[..|q|][k] == r[k];
      } else {
        ReplaceAllCopiesPrefix(s, pat, rep, |q|);
        assert r[0..|q|] == s[..|q|];
        if s != [] {
          ReplaceAllHead(s, pat, rep);
          assert r[0] !in rep && rep[0] in rep;
        }
      }
    }
  }

  /** A non-empty replacement that shares no character with `q` never produces an
      occurrence of `q`. So `q` is absent after `replaceAll` when it was absent before, and
      the pattern itself is absent after `replaceAll` whatever the input. */
  lemma {:induction false} ReplaceAllAvoids(s: string, pat: string, rep: string, q: string)
    requires pat != [] && rep != [] && q != [] && Disjoint(rep, q)
    requires q == pat || Absent(s, q)
    ensures Absent(ReplaceAll(s, pat, rep), q)
    decreases |s|
  {
    var r := ReplaceAll(s, pat, rep);
    if s != [] {
      var matched := At(s, 0, pat);
      var skip := if matched then |pat| else 1;
      var head := if matched then rep else [s[0]];
      var t := ReplaceAll(s[skip..], pat, rep);
      assert r == head + t;
      if q != pat {
        AbsentSuffix(s, q, skip);
        assert !At(s, 0, q);
      }
      ReplaceAllAvoids(s[skip..], pat, rep, q);
      ReplaceAllNotAtStart(s, pat, rep, q);
      assert forall i :: 0 < i < |head| ==> head[i] in rep by {
        if matched {
          forall i | 0 < i < |head| ensures head[i] in rep {
            assert head[i] == rep[i];
          }
        }
      }
      AbsentJoin(head, t, q, rep);
    }
  }

  /** A string absent from `t`, not at the start of `head + t`, and sharing no character
      with the rest of `head`, is absent from `head + t`. */
  lemma AbsentJoin(head: string, t: string, q: string, rep: string)
    requires q != [] && Disjoint(rep, q)
    requires forall i :: 0 < i < |head| ==> head[i] in rep
    requires !At(head + t, 0, q) && Absent(t, q)
    ensures Absent(head + t, q)
  {
    var r := head + t;
    forall i: nat ensures !At(r, i, q) {
      if 0 < i < |head| {
        assert r[i] == head[i];
        NotAtForeign(r, i, q, rep);
      } else if |head| <= i && i + |q| <= |r| {
        SliceOfTail(head, t, i, |q|);
        assert !At(t, i - |head|, q);
      }
    }
  }

  /** One `replaceAll(pattern, replacement)` pass of entity decoding. */
  type Pass = (string, string)

  /** The passes of `decodeEntities`, in the order they run. */
  const Entities: seq<Pass> := [
    ("&amp;", "&"), ("&lt;", "<"), ("&gt;", ">"),
    ("&quot;", "\""), ("&#39;", "'"), ("&apos;", "'")]

  /** The passes run one after another over the whole text, so an escaped entity is decoded
      twice: `&amp;lt;` comes out as `<`, not as `&lt;`. */
  lemma DecodesTwice()
    ensures DecodeEntities("&amp;lt;") == "<"
  {
    var s := "&amp;lt;";
    assert At(s, 0, "&amp;");
    assert ReplaceAll(s[5..], "&amp;", "&") == "lt;" by {
      ReplaceAllNoMatch(s[5..], "&amp;", "&");
    }
    var t := ReplaceAll(s, "&amp;", "&");
    assert t == "&lt;";
    assert At(t, 0, "&lt;");
    assert ReplaceAll(t, "&lt;", "<") == "<";
    DecodeWithNoAmp("<", Entities[2..]);
  }

  /** Every pass has a non-empty pattern and a non-empty replacement. */
  ghost predicate Proper(passes: seq<Pass>) {
    forall i :: 0 <= i < |passes| ==> passes[i].0 != [] && passes[i].1 != []
  }

  /** The passes run one after the other, each on the output of the previous one. */
  function DecodeWith(s: string, passes: seq<Pass>): (r: string)
    requires Proper(passes)
    ensures (forall i :: 0 <= i < |passes| ==> |passes[i].1| <= |passes[i].0|) ==> |r| <= |s|
    decreases |passes|
  {
    if passes == [] then s
    else DecodeWith(ReplaceAll(s, passes[0].0, passes[0].1), passes[1..])
  }

  /** `decodeEntities`: the six passes, `&amp;` first. */
  function DecodeEntities(s: string): (r: string)
    ensures |r| <= |s|
  {
    DecodeWith(s, Entities)
  }

  /** Passes whose patterns all start with `&` leave text without `&` alone. */
  lemma {:induction false} DecodeWithNoAmp(s: string, passes: seq<Pass>)
    requires Proper(passes) && '&' !in s
    requires forall i :: 0 <= i < |passes| ==> passes[i].0[0] == '&'
    ensures DecodeWith(s, passes) == s
    decreases |passes|
  {
    if passes != [] {
      ReplaceAllNoMatch(s, passes[0].0, passes[0].1);
      DecodeWithNoAmp(s, passes[1..]);
    }
  }

  /** Text without an ampersand is not touched by entity decoding. */
  lemma DecodeEntitiesNoAmp(s: string)
    requires '&' !in s
    ensures DecodeEntities(s) == s
  {
    DecodeWithNoAmp(s, Entities);
  }

  /** Passes whose replacements share no character with `q` keep `q` absent. */
  lemma {:induction false} DecodeWithKeepsAbsent(s: string, passes: seq<Pass>, q: string)
    requires Proper(passes) && q != [] && Absent(s, q)
    requires forall i :: 0 <= i < |passes| ==> Disjoint(passes[i].1, q)
    ensures Absent(DecodeWith(s, passes), q)
    decreases |passes|
  {
    if passes != [] {
      ReplaceAllAvoids(s, passes[0].0, passes[0].1, q);
      DecodeWithKeepsAbsent(ReplaceAll(s, passes[0].0, passes[0].1), passes[1..], q);
    }
  }

  /** The pattern of pass `k` is gone after all the passes when no replacement from pass `k`
      on shares a character with it. */
  lemma {:induction false} DecodeWithEliminates(s: string, passes: seq<Pass>, k: nat)
    requires Proper(passes) && k < |passes|
    requires forall i :: k <= i < |passes| ==> Disjoint(passes[i].1, passes[k].0)
    ensures Absent(DecodeWith(s, passes), passes[k].0)
    decreases |passes|
  {
    var s1 := ReplaceAll(s, passes[0].0, passes[0].1);
    if k == 0 {
      ReplaceAllAvoids(s, passes[0].0, passes[0].1, passes[0].0);
      DecodeWithKeepsAbsent(s1, passes[1..], passes[0].0);
    } else {
      DecodeWithEliminates(s1, passes[1..], k - 1);
    }
  }

  /** After decoding, none of `&lt;`, `&gt;`, `&quot;`, `&#39;`, `&apos;` is left: each pass
      removes its entity and no later pass can create an earlier one. (`&amp;` can remain:
      `&amp;amp;` decodes to `&amp;`.) */
  lemma DecodeEntitiesLeavesNoEntity(s: string)
    ensures var r := DecodeEntities(s);
      Absent(r, "&lt;") && Absent(r, "&gt;") && Absent(r, "&quot;")
      && Absent(r, "&#39;") && Absent(r, "&apos;")
  {
    forall k | 1 <= k < |Entities| ensures Absent(DecodeEntities(s), Entities[k].0) {
      LaterPassesSpare(k);
      DecodeWithEliminates(s, Entities, k);
    }
  }

  /** No replacement from pass 1 on contains a character of the entities from pass 1 on:
      the replacements are single characters among `<`, `>`, `"` and `'`. */
  lemma LaterPassesSpare(k: nat)
    requires 1 <= k < |Entities|
    ensures forall i :: k <= i < |Entities| ==> Disjoint(Entities[i].1, Entities[k].0)
  {
    var marks := "<>\"'";
    assert forall i :: 1 <= i < |Entities| ==> |Entities[i].1| == 1 && Entities[i].1[0] in marks;
    assert forall c :: c in Entities[k].0 ==> c !in marks;
  }
}
