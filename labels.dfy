/** The small Option datatype used throughout the model. */
module Wrappers {
  datatype Option<T> = None | Some(value: T)
}

/**
 * The selector-value string helpers of pinmap/adapter.py: finding a separator,
 * Python's left-to-right `str.split`, removing the conflict tag in front of an
 * option label, splitting a label into its four fields, formatting a label,
 * and choosing the value a selector is reset to.
 */
module Labels {
  import opened Wrappers

  /** Every conflict tag ends with this marker; the label follows it. */
  const TagEnd: string := ">> "
  /** Separates the four fields of an option label. */
  const FieldSeparator: string := " - "

  predicate OccursAt(hay: string, needle: string, i: nat)
  {
    i + |needle| <= |hay| && hay[i..i + |needle|] == needle
  }

  /** Index of the first occurrence of `needle` in `hay` (Python's `str.find`). */
  function FindFirst(hay: string, needle: string): (r: Option<nat>)
    ensures r.Some? ==> OccursAt(hay, needle, r.value)
    ensures r.Some? ==> forall j :: 0 <= j < r.value ==> !OccursAt(hay, needle, j)
    ensures r.None? ==> forall j :: 0 <= j <= |hay| ==> !OccursAt(hay, needle, j)
  {
    FindFrom(hay, needle, 0)
  }

  /** The first occurrence of `needle` in `hay` at index `from` or later. */
  function FindFrom(hay: string, needle: string, from: nat): (r: Option<nat>)
    ensures r.Some? ==> from <= r.value && OccursAt(hay, needle, r.value)
    ensures r.Some? ==> forall j :: from <= j < r.value ==> !OccursAt(hay, needle, j)
    ensures r.None? ==> forall j :: from <= j <= |hay| ==> !OccursAt(hay, needle, j)
    decreases |hay| - from
  {
    if |hay| < from + |needle| then None
    else if OccursAt(hay, needle, from) then Some(from)
    else FindFrom(hay, needle, from + 1)
  }

  /** Python's `needle in hay` on strings. */
  predicate Contains(hay: string, needle: string)
  {
    exists j :: 0 <= j <= |hay| && OccursAt(hay, needle, j)
  }

  /** Python's `s.split(sep)`: the pieces between non-overlapping occurrences, found left to right. */
  function SplitOn(s: string, sep: string): (pieces: seq<string>)
    requires |sep| > 0
    ensures |pieces| >= 1
    decreases |s|
  {
    match FindFirst(s, sep)
    case None => [s]
    case Some(i) => [s[..i]] + SplitOn(s[i + |sep|..], sep)
  }

  function Last(pieces: seq<string>): string
    requires |pieces| >= 1
  {
    pieces[|pieces| - 1]
  }

  /** Python's `sep.join(pieces)`. */
  function Join(pieces: seq<string>, sep: string): string
    requires |pieces| >= 1
  {
    if |pieces| == 1 then pieces[0] else pieces[0] + sep + Join(pieces[1..], sep)
  }

  /** Splitting and joining again gives back the string. */
  lemma {:induction false} SplitJoin(s: string, sep: string)
    requires |sep| > 0
    ensures Join(SplitOn(s, sep), sep) == s
    decreases |s|
  {
    match FindFirst(s, sep)
    case None =>
      assert SplitOn(s, sep) == [s];
    case Some(i) =>
      var rest := s[i + |sep|..];
      var pieces := SplitOn(s, sep);
      assert pieces == [s[..i]] + SplitOn(rest, sep);
      assert pieces[1..] == SplitOn(rest, sep);
      assert Join(pieces, sep) == s[..i] + sep + Join(SplitOn(rest, sep), sep);
      SplitJoin(rest, sep);
      assert s[i..i + |sep|] == sep;
      assert s == s[..i] + sep + rest;
  }

  /** No piece of a split holds the separator. */
  lemma {:induction false} SplitPiecesFree(s: string, sep: string)
    requires |sep| > 0
    ensures forall k :: 0 <= k < |SplitOn(s, sep)| ==> !Contains(SplitOn(s, sep)[k], sep)
    decreases |s|
  {
    match FindFirst(s, sep)
    case None =>
    case Some(i) =>
      SplitPiecesFree(s[i + |sep|..], sep);
      forall j | 0 <= j <= i ensures !OccursAt(s[..i], sep, j) {
        if j + |sep| <= i {
          assert s[..i][j..j + |sep|] == s[j..j + |sep|];
          assert j < i && !OccursAt(s, sep, j);
        }
      }
  }

  /** `r` is a suffix of `s` that is either all of `s` or directly follows a `sep`. */
  predicate EndPiece(r: string, s: string, sep: string)
  {
    && |r| <= |s| && r == s[|s| - |r|..]
    && (|r| < |s| ==> |r| + |sep| <= |s| && s[|s| - |r| - |sep|..|s| - |r|] == sep)
  }

  lemma {:induction false} LastPiece(s: string, sep: string)
    requires |sep| > 0
    ensures EndPiece(Last(SplitOn(s, sep)), s, sep)
    decreases |s|
  {
    match FindFirst(s, sep)
    case None =>
      assert SplitOn(s, sep) == [s];
      assert s[|s| - |s|..] == s;
    case Some(i) =>
      var rest := s[i + |sep|..];
      SplitOnStep(s, sep, i);
      LastAfterHead(s[..i], SplitOn(rest, sep));
      LastPiece(rest, sep);
      EndPieceAfterSeparator(s, i + |sep|, Last(SplitOn(rest, sep)), sep);
  }

  /** One step of a split: the text before the first separator, then the split of the rest. */
  lemma SplitOnStep(s: string, sep: string, i: nat)
    requires |sep| > 0 && FindFirst(s, sep) == Some(i)
    ensures SplitOn(s, sep) == [s[..i]] + SplitOn(s[i + |sep|..], sep)
  {
  }

  lemma LastAfterHead(head: string, tail: seq<string>)
    requires |tail| >= 1
    ensures Last([head] + tail) == Last(tail)
  {
  }

  /** A last piece of the text after a separator is a last piece of the whole text. */
  lemma EndPieceAfterSeparator(s: string, j: nat, r: string, sep: string)
    requires |sep| <= j <= |s| && s[j - |sep|..j] == sep
    requires EndPiece(r, s[j..], sep)
    ensures EndPiece(r, s, sep)
  {
    SuffixOfDrop(s, j, r);
    if |r| < |s| - j {
      SliceBeforeSuffix(s, j, |s| - j - |r| - |sep|, |sep|);
    }
  }

  /** A suffix of `s[j..]` is a suffix of `s`. */
  lemma SuffixOfDrop(s: string, j: nat, r: string)
    requires j <= |s| && |r| <= |s| - j && r == s[j..][|s| - j - |r|..]
    ensures r == s[|s| - |r|..]
  {
    var t := s[|s| - |r|..];
    forall k | 0 <= k < |r| ensures r[k] == t[k] {
      assert r[k] == s[j..][|s| - j - |r| + k];
    }
  }

  /** A slice of `s[j..]` is the slice of `s` shifted by `j`. */
  lemma SliceBeforeSuffix(s: string, j: nat, a: nat, len: nat)
    requires j <= |s| && a + len <= |s| - j
    ensures s[j..][a..a + len] == s[j + a..j + a + len]
  {
    var x, y := s[j..][a..a + len], s[j + a..j + a + len];
    forall k | 0 <= k < len ensures x[k] == y[k] {
      assert x[k] == s[j..][a + k];
    }
  }

  /** `_removeSharedPrefixFromSelectorValue`: the text after the last conflict-tag marker. */
  function RemoveSharedPrefix(value: string): string
  {
    Last(SplitOn(value, TagEnd))
  }

  /**
   * What is left after removing the tag is a suffix of the value that holds no marker, and
   * a marker stands right before it unless it is the whole value.
   */
  lemma TagRemoved(value: string)
    ensures var r := RemoveSharedPrefix(value);
      && |r| <= |value| && r == value[|value| - |r|..]
      && !Contains(r, TagEnd)
      && (|r| < |value| ==> |r| + 3 <= |value| && value[|value| - |r| - 3..|value| - |r|] == TagEnd)
  {
    LastPiece(value, TagEnd);
    SplitPiecesFree(value, TagEnd);
    var pieces := SplitOn(value, TagEnd);
    assert !Contains(pieces[|pieces| - 1], TagEnd);
  }

  /** A string without the marker is its own last piece. */
  lemma NoTagIsKept(value: string)
    requires !Contains(value, TagEnd)
    ensures RemoveSharedPrefix(value) == value
  {
  }

  /** Removing the tag twice is the same as removing it once. */
  lemma RemoveSharedPrefixIdempotent(value: string)
    ensures RemoveSharedPrefix(RemoveSharedPrefix(value)) == RemoveSharedPrefix(value)
  {
    TagRemoved(value);
    NoTagIsKept(RemoveSharedPrefix(value));
  }

  /** Two occurrences of the marker never overlap. */
  lemma TagEndNoOverlap(s: string, i: nat, j: nat)
    requires OccursAt(s, TagEnd, i) && OccursAt(s, TagEnd, j) && i < j
    ensures i + 3 <= j
  {
    assert s[i..i + 3][1] == s[i + 1] && s[i..i + 3][2] == s[i + 2];
    assert s[j..j + 3][0] == s[j] && s[j..j + 3][1] == s[j + 1];
  }

  /** A label written after any text that ends with the marker is recovered by removing the prefix. */
  lemma {:induction false} LastPieceAfterTag(p: string, text: string)
    requires |p| >= 3 && p[|p| - 3..] == TagEnd
    requires !Contains(text, TagEnd)
    ensures Last(SplitOn(p + text, TagEnd)) == text
    decreases |p|
  {
    var s := p + text;
    TagAtEnd(p, text);
    var i := FindFirst(s, TagEnd).value;
    SplitOnStep(s, TagEnd, i);
    LastAfterHead(s[..i], SplitOn(s[i + 3..], TagEnd));
    DropOfConcat(p, text, i + 3);
    if i == |p| - 3 {
      assert p[i + 3..] + text == text;
      NoTagIsKept(text);
    } else {
      TagEndNoOverlap(s, i, |p| - 3);
      DropKeepsSuffix(p, i + 3, 3);
      LastPieceAfterTag(p[i + 3..], text);
    }
  }

  lemma TagAtEnd(p: string, text: string)
    requires |p| >= 3 && p[|p| - 3..] == TagEnd
    ensures OccursAt(p + text, TagEnd, |p| - 3)
  {
    var s, t := p + text, p[|p| - 3..];
    assert s[|p| - 3..|p|] == t by {
      forall k | 0 <= k < 3 ensures s[|p| - 3..|p|][k] == t[k] {
        assert s[|p| - 3 + k] == p[|p| - 3 + k];
      }
    }
  }

  lemma DropOfConcat(p: string, text: string, j: nat)
    requires j <= |p|
    ensures (p + text)[j..] == p[j..] + text
  {
    var x, y := (p + text)[j..], p[j..] + text;
    forall k | 0 <= k < |x| ensures x[k] == y[k] {
      if j + k < |p| {
        assert x[k] == p[j + k];
      } else {
        assert x[k] == text[j + k - |p|];
      }
    }
  }

  lemma DropKeepsSuffix(p: string, j: nat, n: nat)
    requires j + n <= |p|
    ensures p[j..][|p| - j - n..] == p[|p| - n..]
  {
    var x, y := p[j..][|p| - j - n..], p[|p| - n..];
    forall k | 0 <= k < n ensures x[k] == y[k] {
      assert x[k] == p[|p| - n + k];
    }
  }

  /** Removing the prefix undoes putting a conflict tag in front of a label. */
  lemma RemoveTagOfTaggedLabel(tag: string, text: string)
    requires tag == "" || (|tag| >= 3 && tag[|tag| - 3..] == TagEnd)
    requires !Contains(text, TagEnd)
    ensures RemoveSharedPrefix(tag + text) == text
  {
    if tag == "" {
      assert tag + text == text;
    } else {
      LastPieceAfterTag(tag, text);
    }
  }

  /** A string with no `>` cannot hold the marker. */
  lemma {:induction false} NoAngleNoTag(s: string)
    requires forall k :: 0 <= k < |s| ==> s[k] != '>'
    ensures !Contains(s, TagEnd)
  {
    forall j | 0 <= j <= |s| ensures !OccursAt(s, TagEnd, j) {
      if j + 3 <= |s| {
        assert s[j..j + 3][0] == s[j];
      }
    }
  }

  /** Python's `s.replace(' ', '')`. */
  function RemoveSpaces(s: string): (r: string)
    ensures forall k :: 0 <= k < |r| ==> r[k] != ' '
    ensures |r| <= |s|
  {
    if |s| == 0 then ""
    else (if s[0] == ' ' then "" else [s[0]]) + RemoveSpaces(s[1..])
  }

  function Spaces(n: nat): (r: string)
    ensures |r| == n && forall k :: 0 <= k < n ==> r[k] == ' '
  {
    if n == 0 then "" else " " + Spaces(n - 1)
  }

  /** Python's `"{:<n}".format(s)`: pad on the right with spaces up to width `n`. */
  function PadRight(s: string, n: nat): string
  {
    if |s| < n then s + Spaces(n - |s|) else s
  }

  /** A name that survives formatting and parsing unchanged: no spaces and no `>`. */
  predicate Plain(s: string)
  {
    forall k :: 0 <= k < |s| ==> s[k] != ' ' && s[k] != '>'
  }

  /** The option text built in `_updateSelectorOptions`: `"{:<6} - {:<5} - {} - {}"`. */
  function FormatOption(boardPin: string, mcuPin: string, moduleName: string, functionName: string): string
  {
    PadRight(boardPin, 6) + FieldSeparator + PadRight(mcuPin, 5) + FieldSeparator + moduleName + FieldSeparator + functionName
  }

  /** A field with every space removed. */
  predicate SpaceFree(s: string)
  {
    forall k :: 0 <= k < |s| ==> s[k] != ' '
  }

  datatype PinFields = PinFields(boardPin: string, mcuPin: string, moduleName: string, functionName: string)

  /**
   * `_splitPinSelectorValueString`: remove the tag; an empty value gives four empty
   * fields; otherwise exactly four pieces around " - " with spaces removed (any other
   * count is Python's unpacking error, here None).
   */
  function SplitSelectorValue(value: string): (r: Option<PinFields>)
    ensures RemoveSharedPrefix(value) == "" ==> r == Some(PinFields("", "", "", ""))
    ensures r.Some? ==>
      && SpaceFree(r.value.boardPin) && SpaceFree(r.value.mcuPin)
      && SpaceFree(r.value.moduleName) && SpaceFree(r.value.functionName)
  {
    var stripped := RemoveSharedPrefix(value);
    if |stripped| == 0 then Some(PinFields("", "", "", ""))
    else
      var pieces := SplitOn(stripped, FieldSeparator);
      if |pieces| != 4 then None
      else Some(PinFields(RemoveSpaces(pieces[0]), RemoveSpaces(pieces[1]), RemoveSpaces(pieces[2]), RemoveSpaces(pieces[3])))
  }

  /** Splitting does not look at the tag: a value and its tag-free text split alike. */
  lemma SplitIgnoresTag(value: string)
    ensures SplitSelectorValue(RemoveSharedPrefix(value)) == SplitSelectorValue(value)
  {
    RemoveSharedPrefixIdempotent(value);
  }

  lemma {:induction false} RemoveSpacesAppend(a: string, b: string)
    ensures RemoveSpaces(a + b) == RemoveSpaces(a) + RemoveSpaces(b)
    decreases |a|
  {
    if |a| == 0 {
      assert a + b == b;
    } else {
      assert (a + b)[1..] == a[1..] + b;
      RemoveSpacesAppend(a[1..], b);
    }
  }

  lemma {:induction false} RemoveSpacesPlain(s: string)
    requires forall k :: 0 <= k < |s| ==> s[k] != ' '
    ensures RemoveSpaces(s) == s
    decreases |s|
  {
    if |s| > 0 {
      RemoveSpacesPlain(s[1..]);
      assert s == [s[0]] + s[1..];
    }
  }

  lemma {:induction false} RemoveSpacesOfSpaces(n: nat)
    ensures RemoveSpaces(Spaces(n)) == ""
  {
    if n > 0 {
      assert Spaces(n)[1..] == Spaces(n - 1);
      RemoveSpacesOfSpaces(n - 1);
    }
  }

  /** Removing spaces undoes the padding of a name without spaces. */
  lemma RemoveSpacesUnpads(s: string, n: nat)
    requires Plain(s)
    ensures RemoveSpaces(PadRight(s, n)) == s
  {
    RemoveSpacesPlain(s);
    if |s| < n {
      RemoveSpacesAppend(s, Spaces(n - |s|));
      RemoveSpacesOfSpaces(n - |s|);
    }
  }

  /** A padded plain name followed by the field separator: the first separator is the one after the padding. */
  lemma FirstSeparatorAfterPadded(x: string, n: nat, rest: string)
    requires Plain(x)
    ensures var a := PadRight(x, n);
      SplitOn(a + FieldSeparator + rest, FieldSeparator) == [a] + SplitOn(rest, FieldSeparator)
  {
    var a := PadRight(x, n);
    var s := a + FieldSeparator + rest;
    assert forall k :: |x| <= k < |a| ==> a[k] == ' ';
    assert forall k :: 0 <= k < |x| ==> a[k] == x[k];
    assert s[|a|..|a| + 3] == FieldSeparator;
    assert OccursAt(s, FieldSeparator, |a|);
    assert FieldSeparator[0] == ' ' && FieldSeparator[1] == '-';
    forall j | 0 <= j < |a| ensures !OccursAt(s, FieldSeparator, j) {
      var w := s[j..j + 3];
      assert w[0] == s[j] && w[1] == s[j + 1];
      if j < |x| {
        assert s[j] == x[j] != ' ';
        assert w[0] != FieldSeparator[0];
      } else if j + 1 < |a| {
        assert s[j + 1] == a[j + 1] == ' ';
        assert w[1] != FieldSeparator[1];
      } else {
        assert s[j + 1] == FieldSeparator[0];
        assert w[1] != FieldSeparator[1];
      }
    }
    var i := FindFirst(s, FieldSeparator).value;
    assert i == |a|;
    assert s[..i] == a;
    assert s[i + 3..] == rest;
  }

  lemma {:induction false} PlainHasNoSeparator(x: string)
    requires Plain(x)
    ensures SplitOn(x, FieldSeparator) == [x]
  {
    forall j | 0 <= j <= |x| ensures !OccursAt(x, FieldSeparator, j) {
      if j + 3 <= |x| {
        assert x[j..j + 3][0] == x[j];
      }
    }
  }

  lemma {:induction false} PlainLabelHasNoAngle(b: string, m: string, mo: string, f: string)
    requires Plain(b) && Plain(m) && Plain(mo) && Plain(f)
    ensures forall k :: 0 <= k < |FormatOption(b, m, mo, f)| ==> FormatOption(b, m, mo, f)[k] != '>'
  {
    var pb, pm := PadRight(b, 6), PadRight(m, 5);
    assert forall k :: 0 <= k < |pb| ==> pb[k] != '>' by {
      assert forall k :: |b| <= k < |pb| ==> pb[k] == ' ';
      assert forall k :: 0 <= k < |b| ==> pb[k] == b[k];
    }
    assert forall k :: 0 <= k < |pm| ==> pm[k] != '>' by {
      assert forall k :: |m| <= k < |pm| ==> pm[k] == ' ';
      assert forall k :: 0 <= k < |m| ==> pm[k] == m[k];
    }
  }

  /** A label built from plain names splits into its four padded fields. */
  lemma FormatSplitsIntoFour(b: string, m: string, mo: string, f: string)
    requires Plain(b) && Plain(m) && Plain(mo) && Plain(f)
    ensures SplitOn(FormatOption(b, m, mo, f), FieldSeparator) == [PadRight(b, 6), PadRight(m, 5), mo, f]
  {
    var pb, pm := PadRight(b, 6), PadRight(m, 5);
    var tail := mo + FieldSeparator + f;
    assert FormatOption(b, m, mo, f) == pb + FieldSeparator + (pm + FieldSeparator + tail);
    FirstSeparatorAfterPadded(b, 6, pm + FieldSeparator + tail);
    FirstSeparatorAfterPadded(m, 5, tail);
    assert PadRight(mo, 0) == mo;
    FirstSeparatorAfterPadded(mo, 0, f);
    PlainHasNoSeparator(f);
  }

  /**
   * Round trip: a formatted label, with or without a conflict tag in front, splits
   * back into the four names it was built from when the names hold no space and no `>`.
   */
  lemma SplitFormatRoundTrip(tag: string, b: string, m: string, mo: string, f: string)
    requires tag == "" || (|tag| >= 3 && tag[|tag| - 3..] == TagEnd)
    requires Plain(b) && Plain(m) && Plain(mo) && Plain(f)
    ensures SplitSelectorValue(tag + FormatOption(b, m, mo, f)) == Some(PinFields(b, m, mo, f))
  {
    var text := FormatOption(b, m, mo, f);
    PlainLabelHasNoAngle(b, m, mo, f);
    NoAngleNoTag(text);
    RemoveTagOfTaggedLabel(tag, text);
    FormatSplitsIntoFour(b, m, mo, f);
    RemoveSpacesUnpads(b, 6);
    RemoveSpacesUnpads(m, 5);
    RemoveSpacesUnpads(mo, 0);
    RemoveSpacesUnpads(f, 0);
  }

  /**
   * The value `_safeSetPinSelectorValue` puts in a selector: the first option when the
   * tag-free value is empty or found in no option, otherwise the last option holding it.
   */
  function SafeValue(options: seq<string>, value: string): (chosen: string)
    requires |options| > 0
    ensures chosen in options
    ensures var v := RemoveSharedPrefix(value);
      if v == "" || forall k :: 0 <= k < |options| ==> !Contains(options[k], v) then chosen == options[0]
      else exists k :: (0 <= k < |options| && chosen == options[k] && Contains(options[k], v)
        && forall k' :: k < k' < |options| ==> !Contains(options[k'], v))
  {
    var v := RemoveSharedPrefix(value);
    if v == "" then options[0] else LastContaining(options, v, |options|)
  }

  /** The last of the first `n` options holding `v`, or the first option when none does. */
  function LastContaining(options: seq<string>, v: string, n: nat): (chosen: string)
    requires 0 < |options| && n <= |options|
    ensures (forall k :: 0 <= k < n ==> !Contains(options[k], v)) ==> chosen == options[0]
    ensures (exists k :: 0 <= k < n && Contains(options[k], v)) ==>
      exists k :: (0 <= k < n && chosen == options[k] && Contains(options[k], v)
        && forall k' :: k < k' < n ==> !Contains(options[k'], v))
  {
    if n == 0 then options[0]
    else if Contains(options[n - 1], v) then options[n - 1]
    else LastContaining(options, v, n - 1)
  }

  /**
   * The substring test lets a label select an option for a longer label: with options
   * '', L(f) and L(f + suffix) on the same pin and module, the value L(f) selects
   * L(f + suffix), a different candidate.
   */
  lemma SafeValuePicksLongerLabel(b: string, m: string, mo: string, f: string, suffix: string)
    requires Plain(b) && Plain(m) && Plain(mo) && Plain(f) && Plain(suffix) && |suffix| > 0
    ensures var options := ["", FormatOption(b, m, mo, f), FormatOption(b, m, mo, f + suffix)];
      SafeValue(options, options[1]) == options[2] != options[1]
  {
    var short, long := FormatOption(b, m, mo, f), FormatOption(b, m, mo, f + suffix);
    assert long == short + suffix;
    assert |long| > |short|;
    PlainLabelHasNoAngle(b, m, mo, f);
    NoAngleNoTag(short);
    NoTagIsKept(short);
    assert OccursAt(long, short, 0);
  }

  /** The tag-free text of each option. */
  function TagFree(options: seq<string>): (texts: seq<string>)
    ensures |texts| == |options|
    ensures forall k :: 0 <= k < |options| ==> texts[k] == RemoveSharedPrefix(options[k])
  {
    seq(|options|, k requires 0 <= k < |options| => RemoveSharedPrefix(options[k]))
  }

  /** The last index below `n` holding `v`, or 0 when none does. */
  function LastMatch(texts: seq<string>, v: string, n: nat): (k: nat)
    requires 0 < |texts| && n <= |texts|
    ensures k < |texts|
  {
    if n == 0 then 0
    else if texts[n - 1] == v then n - 1
    else LastMatch(texts, v, n - 1)
  }

  lemma {:induction false} LastMatchSpec(texts: seq<string>, v: string, n: nat)
    requires 0 < |texts| && n <= |texts|
    ensures var k := LastMatch(texts, v, n);
      && ((forall j :: 0 <= j < n ==> texts[j] != v) ==> k == 0)
      && ((exists j :: 0 <= j < n && texts[j] == v) ==>
            k < n && texts[k] == v && forall j :: k < j < n ==> texts[j] != v)
  {
    if n > 0 && texts[n - 1] != v {
      LastMatchSpec(texts, v, n - 1);
    }
  }

  /**
   * The value the selector is evidently meant to show: the last option whose tag-free
   * text is the tag-free value, or the first option when the value is empty or no
   * option shows it.
   */
  function ShownValue(options: seq<string>, value: string): (chosen: string)
    requires |options| > 0
    ensures chosen in options
    ensures var v, texts := RemoveSharedPrefix(value), TagFree(options);
      if v == "" || v !in texts then chosen == options[0]
      else exists k :: (0 <= k < |options| && chosen == options[k] && texts[k] == v
        && forall j :: k < j < |options| ==> texts[j] != v)
  {
    var v := RemoveSharedPrefix(value);
    LastMatchSpec(TagFree(options), v, |options|);
    if v == "" then options[0] else options[LastMatch(TagFree(options), v, |options|)]
  }

  /** `_safeSetPinSelectorValue`'s loop over the options as written: the last option containing the label wins. */
  method SafeSelectorValue(options: seq<string>, value: string) returns (chosen: string)
    requires |options| > 0
    ensures chosen == SafeValue(options, value)
  {
    var v := RemoveSharedPrefix(value);
    chosen := options[0];
    if v != "" {
      for i := 0 to |options|
        invariant chosen == LastContaining(options, v, i)
      {
        assert LastContaining(options, v, i + 1)
          == if Contains(options[i], v) then options[i] else LastContaining(options, v, i);
        if Contains(options[i], v) {
          chosen := options[i];
        }
      }
    }
  }

  /** The corrected loop: the last option whose tag-free text is the whole tag-free label wins. */
  method ShownSelectorValue(options: seq<string>, value: string) returns (chosen: string)
    requires |options| > 0
    ensures chosen == ShownValue(options, value)
  {
    var v := RemoveSharedPrefix(value);
    var texts := TagFree(options);
    var picked := 0;
    if v != "" {
      for i := 0 to |options|
        invariant picked == LastMatch(texts, v, i)
      {
        if texts[i] == v {
          picked := i;
        }
      }
    }
    chosen := options[picked];
  }
}
