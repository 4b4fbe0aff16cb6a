/**
 * The search highlighter of the PDF viewer: `escapeRegExp`, `highlightText`
 * (the extracted-text panel) and `highlightPattern` (the text layer of the
 * rendered page).
 *
 * Both highlighters build the case-insensitive global regular expression
 * `(<escaped term>)`. Because every syntax character of the term is escaped,
 * that expression denotes the term itself (lemma `EscapedPatternIsLiteral`),
 * so the model replaces the regular-expression engine by a literal,
 * case-insensitive, leftmost, non-overlapping substring search. Case folding
 * is ASCII only.
 */
module Highlight {
  import opened Wrappers

  // ---------------------------------------------------------------------------
  // escapeRegExp

  /** The characters of the class `[-\/\\^$*+?.()|[\]{}]` that `escapeRegExp` escapes. */
  predicate IsSyntaxChar(c: char) {
    c in {'-', '/', '\\', '^', '$', '*', '+', '?', '.', '(', ')', '|', '[', ']', '{', '}'}
  }

  predicate NoSyntaxChar(s: string) {
    forall i :: 0 <= i < |s| ==> !IsSyntaxChar(s[i])
  }

  /** Puts a backslash in front of every syntax character and leaves every other character alone. */
  function EscapeRegExp(s: string): (r: string)
    ensures |r| >= |s|
    ensures |r| == |s| <==> NoSyntaxChar(s)
    ensures NoSyntaxChar(s) ==> r == s
  {
    if s == [] then []
    else (if IsSyntaxChar(s[0]) then ['\\', s[0]] else [s[0]]) + EscapeRegExp(s[1..])
  }

  /**
   * The string a regular expression denotes when it is made only of ordinary
   * characters and backslash-escaped syntax characters, each of which matches
   * itself; `None` for any pattern that uses an operator, a class, a group or
   * an escape with another meaning.
   */
  function LiteralOf(p: string): Option<string>
    decreases |p|
  {
    if p == [] then Some([])
    else if p[0] == '\\' then
      if |p| >= 2 && IsSyntaxChar(p[1]) then
        match LiteralOf(p[2..])
        case None => None
        case Some(t) => Some([p[1]] + t)
      else None
    else if IsSyntaxChar(p[0]) then None
    else
      match LiteralOf(p[1..])
      case None => None
      case Some(t) => Some([p[0]] + t)
  }

  /**
   * The escaped term denotes exactly the term, and the escaped form is the only
   * pattern of this kind that does.
   */
  lemma {:induction false} EscapedPatternIsLiteral(p: string, s: string)
    ensures LiteralOf(p) == Some(s) <==> p == EscapeRegExp(s)
    decreases |p|
  {
    if p == EscapeRegExp(s) && s != [] {
      EscapedPatternIsLiteral(EscapeRegExp(s[1..]), s[1..]);
      if IsSyntaxChar(s[0]) {
        assert p[2..] == EscapeRegExp(s[1..]);
      } else {
        assert p[1..] == EscapeRegExp(s[1..]);
      }
      assert s == [s[0]] + s[1..];
    }
    if LiteralOf(p) == Some(s) && p != [] {
      if p[0] == '\\' {
        var t := LiteralOf(p[2..]).value;
        assert s == [p[1]] + t && s[1..] == t;
        EscapedPatternIsLiteral(p[2..], t);
        assert p == ['\\', p[1]] + p[2..];
      } else {
        var t := LiteralOf(p[1..]).value;
        assert s == [p[0]] + t && s[1..] == t;
        EscapedPatternIsLiteral(p[1..], t);
        assert p == [p[0]] + p[1..];
      }
    }
  }

  // ---------------------------------------------------------------------------
  // Case-insensitive literal search

  /** ASCII lower-casing (`toLowerCase` and the `i` flag agree on ASCII letters). */
  function Lower(c: char): char {
    if 'A' <= c <= 'Z' then ((c as int) + 32) as char else c
  }

  function LowerStr(s: string): string {
    seq(|s|, i requires 0 <= i < |s| => Lower(s[i]))
  }

  /** `a.toLowerCase() === b.toLowerCase()`. */
  predicate EqualsIgnoreCase(a: string, b: string) {
    LowerStr(a) == LowerStr(b)
  }

  /** From index `k` of the term on, `s[i..]` agrees with the term ignoring case. */
  predicate AgreesFrom(s: string, i: nat, t: string, k: nat)
    requires i + |t| <= |s| && k <= |t|
    decreases |t| - k
  {
    k == |t| || (Lower(s[i + k]) == Lower(t[k]) && AgreesFrom(s, i, t, k + 1))
  }

  /** The term occurs in `s` at position `i`, ignoring case. */
  predicate MatchesAt(s: string, t: string, i: nat) {
    i + |t| <= |s| && AgreesFrom(s, i, t, 0)
  }

  lemma {:induction false} AgreesFromPointwise(s: string, i: nat, t: string, k: nat)
    requires i + |t| <= |s| && k <= |t|
    ensures AgreesFrom(s, i, t, k) <==> forall j :: k <= j < |t| ==> Lower(s[i + j]) == Lower(t[j])
    decreases |t| - k
  {
    if k < |t| {
      AgreesFromPointwise(s, i, t, k + 1);
    }
  }

  /** An occurrence is exactly a slice whose lower-case form equals the term's. */
  lemma MatchesAtIff(s: string, t: string, i: nat)
    requires i + |t| <= |s|
    ensures MatchesAt(s, t, i) <==> EqualsIgnoreCase(s[i..i + |t|], t)
  {
    AgreesFromPointwise(s, i, t, 0);
    var a, b := LowerStr(s[i..i + |t|]), LowerStr(t);
    if MatchesAt(s, t, i) {
      forall j | 0 <= j < |t|
        ensures a[j] == b[j]
      {
        assert s[i..i + |t|][j] == s[i + j];
      }
    }
    if a == b {
      forall j | 0 <= j < |t|
        ensures Lower(s[i + j]) == Lower(t[j])
      {
        assert a[j] == b[j];
        assert s[i..i + |t|][j] == s[i + j];
      }
    }
  }

  /** No occurrence of the term starts at a position in `[a, b)`. */
  predicate NoMatchIn(s: string, t: string, a: nat, b: nat)
    decreases b - a
  {
    a >= b || (!MatchesAt(s, t, a) && NoMatchIn(s, t, a + 1, b))
  }

  lemma {:induction false} NoMatchInAt(s: string, t: string, a: nat, b: nat, j: nat)
    requires NoMatchIn(s, t, a, b) && a <= j < b
    ensures !MatchesAt(s, t, j)
    decreases b - a
  {
    if a < j {
      NoMatchInAt(s, t, a + 1, b, j);
    }
  }

  lemma {:induction false} NoMatchInAll(s: string, t: string, a: nat, b: nat)
    requires NoMatchIn(s, t, a, b)
    ensures forall j :: a <= j < b ==> !MatchesAt(s, t, j)
  {
    forall j | a <= j < b
      ensures !MatchesAt(s, t, j)
    {
      NoMatchInAt(s, t, a, b, j);
    }
  }

  lemma {:induction false} NoMatchInNarrow(s: string, t: string, a: nat, b: nat, c: nat)
    requires NoMatchIn(s, t, a, c) && b <= c
    ensures NoMatchIn(s, t, a, b)
    decreases b - a
  {
    if a < b {
      NoMatchInNarrow(s, t, a + 1, b, c);
    }
  }

  /** The leftmost position at or after `from` where the term occurs. */
  function IndexOf(s: string, t: string, from: nat): (r: Option<nat>)
    requires from <= |s|
    ensures r.Some? ==> from <= r.value && MatchesAt(s, t, r.value) && NoMatchIn(s, t, from, r.value)
    ensures r.None? ==> NoMatchIn(s, t, from, |s| + 1)
    decreases |s| - from
  {
    if MatchesAt(s, t, from) then Some(from)
    else if from == |s| then None
    else IndexOf(s, t, from + 1)
  }

  // ---------------------------------------------------------------------------
  // String.split with one capturing group

  function Concat(parts: seq<string>): string {
    if parts == [] then [] else parts[0] + Concat(parts[1..])
  }

  lemma {:induction false} ConcatAppend(a: seq<string>, b: seq<string>)
    ensures Concat(a + b) == Concat(a) + Concat(b)
  {
    if a == [] {
      assert a + b == b;
    } else {
      assert (a + b)[0] == a[0];
      assert (a + b)[1..] == a[1..] + b;
      ConcatAppend(a[1..], b);
    }
  }

  lemma ConcatShift(a: string, b: string, rest: seq<string>, k: nat)
    requires 2 <= k <= |rest| + 2
    ensures Concat(([a, b] + rest)[..k]) == a + b + Concat(rest[..k - 2])
  {
    assert ([a, b] + rest)[..k] == [a, b] + rest[..k - 2];
    ConcatAppend([a, b], rest[..k - 2]);
    assert [a, b][1..] == [b];
    assert [b][1..] == [];
  }

  /**
   * The split of `s[p..]` by the term, scanning from position `p` as
   * `String.split` does with a regular expression of one capturing group: the
   * text up to the next occurrence, the occurrence itself (the captured
   * group), and so on; the text after the last occurrence comes last.
   */
  function SplitFrom(s: string, t: string, p: nat): (parts: seq<string>)
    requires t != [] && p <= |s|
    ensures |parts| % 2 == 1
    decreases |s| - p
  {
    match IndexOf(s, t, p)
    case None => [s[p..]]
    case Some(i) => [s[p..i], s[i..i + |t|]] + SplitFrom(s, t, i + |t|)
  }

  /**
   * `s.split(/(t)/gi)` for a non-empty term. A term that never occurs leaves
   * `[s]`, which is `[""]` for the empty text.
   */
  function Split(s: string, t: string): (parts: seq<string>)
    requires t != []
    ensures |parts| % 2 == 1
    ensures Concat(parts) == s
  {
    SplitFromLossless(s, t, 0);
    SplitFrom(s, t, 0)
  }

  /** The parts join back into the scanned text. */
  lemma {:induction false} SplitFromLossless(s: string, t: string, p: nat)
    requires t != [] && p <= |s|
    ensures Concat(SplitFrom(s, t, p)) == s[p..]
    decreases |s| - p
  {
    match IndexOf(s, t, p)
    case None =>
      assert SplitFrom(s, t, p)[1..] == [];
    case Some(i) =>
      var n := |t|;
      var rest := SplitFrom(s, t, i + n);
      SplitFromLossless(s, t, i + n);
      ConcatShift(s[p..i], s[i..i + n], rest, |rest| + 2);
      assert ([s[p..i], s[i..i + n]] + rest)[..|rest| + 2] == SplitFrom(s, t, p);
      assert rest[..|rest|] == rest;
      assert s[p..] == s[p..i] + s[i..i + n] + s[i + n..];
  }

  /**
   * Where each part lies in the text: part `k` is the slice of `s` that starts
   * right after the parts before it. Odd parts are occurrences of the term; no
   * occurrence starts inside an even part. So the occurrences are found left to
   * right, leftmost first and without overlap, and none is missed.
   */
  lemma {:induction false} SplitFromAt(s: string, t: string, p: nat, k: nat)
    requires t != [] && p <= |s| && k < |SplitFrom(s, t, p)|
    ensures PartAt(s, t, p, SplitFrom(s, t, p), k)
    decreases |s| - p
  {
    var parts := SplitFrom(s, t, p);
    match IndexOf(s, t, p)
    case None =>
      PartAtLast(s, t, p);
    case Some(i) =>
      var n := |t|;
      var rest := SplitFrom(s, t, i + n);
      assert parts == [s[p..i], s[i..i + n]] + rest;
      if k < 2 {
        PartAtFirst(s, t, p, i, rest, k);
      } else {
        SplitFromAt(s, t, i + n, k - 2);
        PartAtShift(s, t, p, i + n, [s[p..i], s[i..i + n]], rest, k);
      }
  }

  /**
   * Part `k` of `parts`, the split of `s` from position `p`, lies where the
   * parts before it end; an odd part is an occurrence and no occurrence starts
   * inside an even one.
   */
  predicate PartAt(s: string, t: string, p: nat, parts: seq<string>, k: nat)
    requires k < |parts|
  {
    var o := p + |Concat(parts[..k])|;
    o + |parts[k]| <= |s| && s[o..o + |parts[k]|] == parts[k]
    && (k % 2 == 1 ==> |parts[k]| == |t| && MatchesAt(s, t, o))
    && (k % 2 == 0 ==> NoMatchIn(s, t, o, o + |parts[k]|))
  }

  lemma PartAtLast(s: string, t: string, p: nat)
    requires p <= |s| && NoMatchIn(s, t, p, |s| + 1)
    ensures PartAt(s, t, p, [s[p..]], 0)
  {
    assert [s[p..]][..0] == [];
    NoMatchInNarrow(s, t, p, |s|, |s| + 1);
  }

  lemma PartAtFirst(s: string, t: string, p: nat, i: nat, rest: seq<string>, k: nat)
    requires p <= i && i + |t| <= |s| && MatchesAt(s, t, i) && NoMatchIn(s, t, p, i) && k < 2
    ensures PartAt(s, t, p, [s[p..i], s[i..i + |t|]] + rest, k)
  {
  }

  lemma PartAtShift(s: string, t: string, p: nat, q: nat, front: seq<string>, rest: seq<string>, k: nat)
    requires |front| == 2 && q == p + |front[0]| + |front[1]|
    requires 2 <= k < |rest| + 2 && PartAt(s, t, q, rest, k - 2)
    ensures PartAt(s, t, p, front + rest, k)
  {
    ConcatShift(front[0], front[1], rest, k);
    assert front == [front[0], front[1]];
    assert (front + rest)[k] == rest[k - 2];
  }

  // ---------------------------------------------------------------------------
  // highlightText

  datatype Segment = Segment(value: string, isMatch: bool)

  /**
   * What `highlightText` returns: the text itself when there is no search term,
   * otherwise the split parts, each flagged as a match or not.
   */
  datatype Highlighted = Unchanged(text: string) | Segments(parts: seq<Segment>)

  function Values(segments: seq<Segment>): (r: seq<string>)
    ensures |r| == |segments| && forall k :: 0 <= k < |r| ==> r[k] == segments[k].value
  {
    seq(|segments|, k requires 0 <= k < |segments| => segments[k].value)
  }

  /**
   * `highlightText(text, search)`: no term leaves the text as it is; otherwise
   * the text is split on the term and a part is flagged as a match when it
   * equals the term ignoring case.
   */
  function HighlightText(text: string, search: string): (r: Highlighted)
    ensures r.Unchanged? <==> search == []
    ensures r.Unchanged? ==> r.text == text
  {
    if search == [] then Unchanged(text)
    else
      var parts := Split(text, search);
      Segments(seq(|parts|, k requires 0 <= k < |parts| =>
        Segment(parts[k], EqualsIgnoreCase(parts[k], search))))
  }

  /** Joining the segment values gives back the text, character for character. */
  lemma HighlightTextLossless(text: string, search: string)
    requires search != []
    ensures Concat(Values(HighlightText(text, search).parts)) == text
  {
    assert Values(HighlightText(text, search).parts) == Split(text, search);
    SplitFromLossless(text, search, 0);
  }

  /**
   * Segment `k` is the slice of the text after the segments before it, in its
   * original casing; it is flagged as a match exactly when `k` is odd, every
   * flagged segment is an occurrence of the term at that place, and no
   * occurrence starts inside an unflagged one.
   */
  lemma HighlightTextSegment(text: string, search: string, k: nat)
    requires search != [] && k < |HighlightText(text, search).parts|
    ensures var segs := HighlightText(text, search).parts;
      var o := |Concat(Values(segs[..k]))|; var v := segs[k].value;
      o + |v| <= |text| && text[o..o + |v|] == v
      && (segs[k].isMatch <==> k % 2 == 1)
      && (segs[k].isMatch ==> MatchesAt(text, search, o))
      && (!segs[k].isMatch ==> forall j :: o <= j < o + |v| ==> !MatchesAt(text, search, j))
  {
    var parts := Split(text, search);
    SegmentsFollowParts(text, search, k);
    SplitFromAt(text, search, 0, k);
    ClassifyPart(text, search, parts, k);
  }

  /** The segments carry the split parts in order, each flagged by comparing it with the term. */
  lemma SegmentsFollowParts(text: string, search: string, k: nat)
    requires search != [] && k < |HighlightText(text, search).parts|
    ensures var segs := HighlightText(text, search).parts; var parts := Split(text, search);
      k < |parts| && Values(segs[..k]) == parts[..k]
      && segs[k] == Segment(parts[k], EqualsIgnoreCase(parts[k], search))
  {
  }

  /** Comparing a part with the term, as `highlightText` does, flags exactly the odd parts. */
  lemma ClassifyPart(s: string, t: string, parts: seq<string>, k: nat)
    requires t != [] && k < |parts| && PartAt(s, t, 0, parts, k)
    ensures var o := |Concat(parts[..k])|;
      (EqualsIgnoreCase(parts[k], t) <==> k % 2 == 1)
      && (k % 2 == 0 ==> forall j :: o <= j < o + |parts[k]| ==> !MatchesAt(s, t, j))
  {
    var o := |Concat(parts[..k])|;
    if |parts[k]| == |t| {
      MatchesAtIff(s, t, o);
    } else {
      assert |LowerStr(parts[k])| != |LowerStr(t)|;
    }
    if k % 2 == 0 {
      NoMatchInAll(s, t, o, o + |parts[k]|);
    }
  }

  // ---------------------------------------------------------------------------
  // highlightPattern

  /**
   * A global replace whose pattern matches the empty string everywhere: the
   * empty match at every position 0..|s| becomes `<mark></mark>`.
   */
  function MarkEveryPosition(s: string): (r: string)
    ensures |r| == |s| + 13 * (|s| + 1)
    ensures r[..13] == "<mark></mark>" && r[|r| - 13..] == "<mark></mark>"
  {
    if s == [] then "<mark></mark>"
    else "<mark></mark>" + [s[0]] + MarkEveryPosition(s[1..])
  }

  /**
   * With the empty pattern, character `k` of the text sits between the `k`-th
   * and the `k+1`-th `<mark></mark>`: a mark at every position, text unchanged
   * between them.
   */
  lemma MarkEveryPositionLayout(s: string)
    ensures var r := MarkEveryPosition(s);
      forall k :: 0 <= k < |s| ==> r[14 * k..14 * k + 13] == "<mark></mark>" && r[14 * k + 13] == s[k]
  {
    forall k | 0 <= k < |s|
      ensures MarkEveryPosition(s)[14 * k..14 * k + 13] == "<mark></mark>"
      ensures MarkEveryPosition(s)[14 * k + 13] == s[k]
    {
      MarkEveryPositionAt(s, k);
    }
  }

  lemma {:induction false} MarkEveryPositionAt(s: string, k: nat)
    requires k < |s|
    ensures var r := MarkEveryPosition(s);
      r[14 * k..14 * k + 13] == "<mark></mark>" && r[14 * k + 13] == s[k]
    decreases k
  {
    var head := "<mark></mark>" + [s[0]];
    var tail := MarkEveryPosition(s[1..]);
    assert MarkEveryPosition(s) == head + tail;
    if k > 0 {
      MarkEveryPositionAt(s[1..], k - 1);
      SliceAfter(head, tail, 14 * k, 14 * k + 13);
    }
  }

  lemma SliceAfter(a: string, b: string, i: nat, j: nat)
    requires |a| <= i <= j <= |a| + |b|
    ensures (a + b)[i..j] == b[i - |a|..j - |a|]
  {
  }

  /**
   * A global replace that wraps every leftmost, non-overlapping occurrence of
   * `t` from position `p` on: each occurrence, one per odd split part, adds
   * one `<mark></mark>` pair (13 characters) to the text.
   */
  function MarkFrom(s: string, t: string, p: nat): (r: string)
    requires t != [] && p <= |s|
    ensures |r| == |s| - p + 13 * (|SplitFrom(s, t, p)| / 2)
    decreases |s| - p
  {
    match IndexOf(s, t, p)
    case None => s[p..]
    case Some(i) => s[p..i] + "<mark>" + s[i..i + |t|] + "</mark>" + MarkFrom(s, t, i + |t|)
  }

  /**
   * `highlightPattern(text, pattern)`. It has no guard for the empty pattern,
   * which marks every position. Any other pattern gives the split parts of
   * `highlightText`, joined with the matched ones wrapped in marks and the
   * others unchanged.
   */
  function HighlightPattern(text: string, pattern: string): (r: string)
    ensures pattern == [] ==> r == MarkEveryPosition(text) && |r| == 14 * |text| + 13
    ensures pattern != [] ==> r == Concat(Wrapped(Split(text, pattern)))
  {
    if pattern == [] then MarkEveryPosition(text)
    else
      MarkFromWrapsMatches(text, pattern, 0);
      MarkFrom(text, pattern, 0)
  }

  /** The split parts with every odd (matched) part wrapped in `<mark>`/`</mark>`. */
  function Wrapped(parts: seq<string>): (r: seq<string>)
    ensures |r| == |parts|
  {
    seq(|parts|, k requires 0 <= k < |parts| =>
      if k % 2 == 1 then "<mark>" + parts[k] + "</mark>" else parts[k])
  }

  lemma {:induction false} MarkFromWrapsMatches(s: string, t: string, p: nat)
    requires t != [] && p <= |s|
    ensures MarkFrom(s, t, p) == Concat(Wrapped(SplitFrom(s, t, p)))
    decreases |s| - p
  {
    match IndexOf(s, t, p)
    case None =>
      MarkLast(s[p..]);
    case Some(i) =>
      var n := |t|;
      MarkFromWrapsMatches(s, t, i + n);
      MarkStep(s[p..i], s[i..i + n], MarkFrom(s, t, i + n), SplitFrom(s, t, i + n));
  }

  lemma MarkLast(rest: string)
    ensures rest == Concat(Wrapped([rest]))
  {
  }

  /** One step of the replace: the text before an occurrence, the wrapped occurrence, then the rest. */
  lemma MarkStep(a: string, b: string, marked: string, rest: seq<string>)
    requires marked == Concat(Wrapped(rest))
    ensures a + "<mark>" + b + "</mark>" + marked == Concat(Wrapped([a, b] + rest))
  {
    WrappedShift(a, b, rest);
    ConcatShift(a, "<mark>" + b + "</mark>", Wrapped(rest), |rest| + 2);
    var whole := [a, "<mark>" + b + "</mark>"] + Wrapped(rest);
    assert whole[..|whole|] == whole;
    assert Wrapped(rest)[..|rest|] == Wrapped(rest);
  }

  /** Two leading parts shift the parity of the rest by two, which keeps it. */
  lemma WrappedShift(a: string, b: string, rest: seq<string>)
    ensures Wrapped([a, b] + rest) == [a, "<mark>" + b + "</mark>"] + Wrapped(rest)
  {
    var l := Wrapped([a, b] + rest);
    var r := [a, "<mark>" + b + "</mark>"] + Wrapped(rest);
    assert |l| == |r|;
    forall k | 0 <= k < |l|
      ensures l[k] == r[k]
    {
      if k >= 2 {
        assert ([a, b] + rest)[k] == rest[k - 2];
        assert (k - 2) % 2 == k % 2;
      }
    }
  }

  /**
   * An empty term leaves the panel text unchanged but changes every page text
   * item, even the empty one: the two highlighters disagree on the empty term.
   */
  lemma EmptyTermAsymmetry(text: string)
    ensures HighlightText(text, "") == Unchanged(text)
    ensures HighlightPattern(text, "") != text
    ensures |HighlightPattern(text, "")| == 14 * |text| + 13
  {
  }

  /** A term that does not occur leaves both highlighters' output equal to the text. */
  lemma NoOccurrence(text: string, t: string)
    requires t != []
    requires forall j :: 0 <= j <= |text| ==> !MatchesAt(text, t, j)
    ensures HighlightPattern(text, t) == text
    ensures HighlightText(text, t) == Segments([Segment(text, false)])
  {
    assert IndexOf(text, t, 0).None?;
    assert Split(text, t) == [text];
    if |text| == |t| {
      MatchesAtIff(text, t, 0);
      assert text[0..|t|] == text;
    } else {
      assert |LowerStr(text)| != |LowerStr(t)|;
    }
  }
}
