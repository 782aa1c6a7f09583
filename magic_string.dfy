/**
 * The part of magic-string the plugins rely on: a string under edit that keeps its
 * original text, a prepended intro and a list of span edits (a removal is an edit with
 * empty content). `toString()` splices the edits into the original text.
 */
module MagicStrings {
  import opened Wrappers

  /** Replace `[start, end)` of the original text by `content`. */
  datatype Edit = Edit(start: nat, end: nat, content: string)

  predicate Overlaps(e: Edit, start: nat, end: nat) {
    start < e.end && e.start < end
  }

  /** No recorded edit overlaps `[start, end)`. */
  predicate Clear(edits: seq<Edit>, start: nat, end: nat) {
    forall k :: 0 <= k < |edits| ==> !Overlaps(edits[k], start, end)
  }

  /** Every edit is a non-empty span of a text of length `len`, and no two edits overlap. */
  ghost predicate WellFormed(edits: seq<Edit>, len: nat) {
    && (forall k :: 0 <= k < |edits| ==> edits[k].start < edits[k].end <= len)
    && (forall j, k :: 0 <= j < k < |edits| ==> !Overlaps(edits[j], edits[k].start, edits[k].end))
  }

  /**
   * `remove(start, end)`: an empty range is a no-op; an out-of-bounds or reversed range
   * throws (None), and so does a range that would split an earlier edit.
   */
  function RemoveResult(edits: seq<Edit>, len: nat, start: nat, end: nat): (r: Option<seq<Edit>>)
    ensures WellFormed(edits, len) && r.Some? ==> WellFormed(r.value, len)
    ensures r.Some? ==> |edits| <= |r.value| && r.value[..|edits|] == edits
  {
    if start == end then Some(edits)
    else if end > len || start > end then None
    else if !Clear(edits, start, end) then None
    else Some(edits + [Edit(start, end, "")])
  }

  /**
   * `overwrite(start, end, content)`: an empty, reversed or out-of-bounds range throws
   * (None), and so does a range that would split an earlier edit.
   */
  function OverwriteResult(edits: seq<Edit>, len: nat, start: nat, end: nat, content: string): (r: Option<seq<Edit>>)
    ensures WellFormed(edits, len) && r.Some? ==> WellFormed(r.value, len)
    ensures r.Some? ==> |r.value| == |edits| + 1 && r.value[..|edits|] == edits
  {
    if start >= end || end > len then None
    else if !Clear(edits, start, end) then None
    else Some(edits + [Edit(start, end, content)])
  }

  /** The edit that starts at `pos`, if any. */
  function EditAt(edits: seq<Edit>, pos: nat): (r: Option<Edit>)
    ensures r.Some? ==> r.value in edits && r.value.start == pos
    ensures r.None? ==> forall k :: 0 <= k < |edits| ==> edits[k].start != pos
  {
    if |edits| == 0 then None
    else if edits[0].start == pos then Some(edits[0])
    else EditAt(edits[1..], pos)
  }

  /** The edited text from position `pos` of the original on. */
  function RenderFrom(text: string, edits: seq<Edit>, pos: nat): string
    decreases |text| - pos
  {
    if pos >= |text| then ""
    else
      match EditAt(edits, pos)
      case Some(e) =>
        if pos < e.end <= |text| then e.content + RenderFrom(text, edits, e.end)
        else [text[pos]] + RenderFrom(text, edits, pos + 1)
      case None => [text[pos]] + RenderFrom(text, edits, pos + 1)
  }

  /** The original text with every edit spliced in. */
  function Apply(text: string, edits: seq<Edit>): string {
    RenderFrom(text, edits, 0)
  }

  /** Where no edit starts, the original characters are copied through unchanged. */
  lemma {:induction false} RenderSkip(text: string, edits: seq<Edit>, pos: nat, q: nat)
    requires pos <= q <= |text|
    requires forall k :: 0 <= k < |edits| ==> !(pos <= edits[k].start < q)
    ensures RenderFrom(text, edits, pos) == text[pos..q] + RenderFrom(text, edits, q)
    decreases q - pos
  {
    if pos < q {
      var e := EditAt(edits, pos);
      assert e.None?;
      assert RenderFrom(text, edits, pos) == [text[pos]] + RenderFrom(text, edits, pos + 1);
      RenderSkip(text, edits, pos + 1, q);
      assert text[pos..q] == [text[pos]] + text[pos + 1..q];
    }
  }

  /** With no edits, the text is unchanged. */
  lemma ApplyNoEdits(text: string)
    ensures Apply(text, []) == text
  {
    RenderSkip(text, [], 0, |text|);
  }

  /** A regular-expression match `[start, end)` and the text its capture group caught. */
  datatype Match = Match(start: nat, end: nat, captured: string)

  /** The matches of a global regular expression: non-empty, in bounds, in order, disjoint. */
  ghost predicate Ordered(text: string, ms: seq<Match>) {
    && (forall k :: 0 <= k < |ms| ==> ms[k].start < ms[k].end <= |text|)
    && (forall j, k :: 0 <= j < k < |ms| ==> ms[j].end <= ms[k].start)
  }

  /**
   * The text from `pos` on, with matches `ms[i..]` replaced by `prefix` followed by their
   * capture and everything else copied.
   */
  function ReplaceFrom(text: string, ms: seq<Match>, prefix: string, i: nat, pos: nat): string
    requires Ordered(text, ms) && i <= |ms| && pos <= |text|
    requires i < |ms| ==> pos <= ms[i].start
    decreases |ms| - i
  {
    if i == |ms| then text[pos..]
    else text[pos..ms[i].start] + prefix + ms[i].captured + ReplaceFrom(text, ms, prefix, i + 1, ms[i].end)
  }

  function ReplaceAll(text: string, ms: seq<Match>, prefix: string): string
    requires Ordered(text, ms)
  {
    ReplaceFrom(text, ms, prefix, 0, 0)
  }

  /** The edits that `replace` records for a list of matches. */
  function EditsOf(ms: seq<Match>, prefix: string): (es: seq<Edit>)
    ensures |es| == |ms|
    ensures forall k :: 0 <= k < |ms| ==> es[k] == Edit(ms[k].start, ms[k].end, prefix + ms[k].captured)
  {
    seq(|ms|, k requires 0 <= k < |ms| => Edit(ms[k].start, ms[k].end, prefix + ms[k].captured))
  }

  /**
   * The edits `replace` records for an ordered match list are well-formed: each is a
   * non-empty span inside the text and no two overlap, so none of the overwrites throws.
   */
  lemma EditsOfWellFormed(text: string, ms: seq<Match>, prefix: string)
    requires Ordered(text, ms)
    ensures WellFormed(EditsOf(ms, prefix), |text|)
  {
    var es := EditsOf(ms, prefix);
    forall j, k | 0 <= j < k < |es| ensures !Overlaps(es[j], es[k].start, es[k].end) {
      assert ms[j].end <= ms[k].start;
    }
  }

  /** Between the end of match `i - 1` and the start of match `i` no edit of `EditsOf(ms)` starts. */
  lemma NoEditStartsBetween(text: string, ms: seq<Match>, prefix: string, i: nat, pos: nat, q: nat)
    requires Ordered(text, ms) && i <= |ms|
    requires i > 0 ==> ms[i - 1].end <= pos
    requires i < |ms| ==> q <= ms[i].start
    ensures forall k :: 0 <= k < |ms| ==> !(pos <= EditsOf(ms, prefix)[k].start < q)
  {
    var es := EditsOf(ms, prefix);
    forall k | 0 <= k < |ms| ensures !(pos <= es[k].start < q) {
      if k < i {
        assert ms[k].end <= ms[i - 1].end by {
          if k < i - 1 { assert ms[k].end <= ms[i - 1].start; }
        }
      } else if k > i {
        assert ms[i].end <= ms[k].start;
      }
    }
  }

  /** The only edit of `EditsOf(ms)` that starts where match `i` starts is match `i`'s. */
  lemma EditAtMatch(text: string, ms: seq<Match>, prefix: string, i: nat)
    requires Ordered(text, ms) && i < |ms|
    ensures EditAt(EditsOf(ms, prefix), ms[i].start) == Some(EditsOf(ms, prefix)[i])
  {
    var es := EditsOf(ms, prefix);
    var e := EditAt(es, ms[i].start);
    assert es[i].start == ms[i].start;
    var k :| 0 <= k < |es| && es[k] == e.value;
    assert k == i;
  }

  /** At the start of an edit, the edit's content replaces its span. */
  lemma RenderAtEdit(text: string, edits: seq<Edit>, e: Edit)
    requires EditAt(edits, e.start) == Some(e) && e.start < e.end <= |text|
    ensures RenderFrom(text, edits, e.start) == e.content + RenderFrom(text, edits, e.end)
  {
  }

  lemma {:induction false} RenderMatchesFrom(text: string, ms: seq<Match>, prefix: string, i: nat, pos: nat)
    requires Ordered(text, ms) && i <= |ms| && pos <= |text|
    requires i > 0 ==> ms[i - 1].end <= pos
    requires i < |ms| ==> pos <= ms[i].start
    ensures RenderFrom(text, EditsOf(ms, prefix), pos) == ReplaceFrom(text, ms, prefix, i, pos)
    decreases |ms| - i
  {
    var es := EditsOf(ms, prefix);
    if i == |ms| {
      NoEditStartsBetween(text, ms, prefix, i, pos, |text|);
      RenderSkip(text, es, pos, |text|);
    } else {
      var q := ms[i].start;
      NoEditStartsBetween(text, ms, prefix, i, pos, q);
      RenderSkip(text, es, pos, q);
      EditAtMatch(text, ms, prefix, i);
      RenderAtEdit(text, es, es[i]);
      RenderMatchesFrom(text, ms, prefix, i + 1, ms[i].end);
      var rest := RenderFrom(text, es, ms[i].end);
      assert es[i].content == prefix + ms[i].captured;
      calc {
        RenderFrom(text, es, pos);
        text[pos..q] + RenderFrom(text, es, q);
        text[pos..q] + (es[i].content + rest);
        text[pos..q] + prefix + ms[i].captured + rest;
        ReplaceFrom(text, ms, prefix, i, pos);
      }
    }
  }

  /** Splicing the edits of an ordered match list is replacing every match. */
  lemma ApplyMatches(text: string, ms: seq<Match>, prefix: string)
    requires Ordered(text, ms)
    ensures Apply(text, EditsOf(ms, prefix)) == ReplaceAll(text, ms, prefix)
  {
    RenderMatchesFrom(text, ms, prefix, 0, 0);
  }

  /** With no match, replacing changes nothing. */
  lemma ReplaceNothing(text: string, prefix: string)
    ensures ReplaceAll(text, [], prefix) == text
  {
  }

  class MagicString {
    const original: string
    var intro: string
    var edits: seq<Edit>

    ghost predicate Valid()
      reads this
    {
      WellFormed(edits, |original|)
    }

    /** `toString()`. */
    function ToString(): string
      reads this
    {
      intro + Apply(original, edits)
    }

    /** `hasChanged()`: the generated text differs from the original. */
    function HasChanged(): bool
      reads this
    {
      ToString() != original
    }

    constructor (code: string)
      ensures original == code && intro == "" && edits == [] && Valid()
    {
      original := code;
      intro := "";
      edits := [];
    }

    /** `prepend(content)`. */
    method Prepend(content: string)
      modifies this
      ensures intro == content + old(intro) && edits == old(edits)
    {
      intro := content + intro;
    }

    /** `remove(start, end)`; `ok` is false where magic-string throws. */
    method Remove(start: nat, end: nat) returns (ok: bool)
      requires Valid()
      modifies this
      ensures Valid() && intro == old(intro)
      ensures ok == RemoveResult(old(edits), |original|, start, end).Some?
      ensures ok ==> edits == RemoveResult(old(edits), |original|, start, end).value
      ensures !ok ==> edits == old(edits)
    {
      var r := RemoveResult(edits, |original|, start, end);
      ok := r.Some?;
      if ok {
        edits := r.value;
      }
    }

    /** `overwrite(start, end, content)`; `ok` is false where magic-string throws. */
    method Overwrite(start: nat, end: nat, content: string) returns (ok: bool)
      requires Valid()
      modifies this
      ensures Valid() && intro == old(intro)
      ensures ok == OverwriteResult(old(edits), |original|, start, end, content).Some?
      ensures ok ==> edits == OverwriteResult(old(edits), |original|, start, end, content).value
      ensures !ok ==> edits == old(edits)
    {
      var r := OverwriteResult(edits, |original|, start, end, content);
      ok := r.Some?;
      if ok {
        edits := r.value;
      }
    }

    /**
     * `replace(globalRegex, fn)` on an otherwise unedited string: every match is
     * overwritten with `prefix` followed by its capture.
     */
    method ReplaceMatches(ms: seq<Match>, prefix: string)
      requires Valid() && edits == [] && Ordered(original, ms)
      modifies this
      ensures Valid() && intro == old(intro)
      ensures edits == EditsOf(ms, prefix)
      ensures ToString() == intro + ReplaceAll(original, ms, prefix)
    {
      var i := 0;
      while i < |ms|
        invariant 0 <= i <= |ms|
        invariant Valid() && intro == old(intro)
        invariant edits == EditsOf(ms[..i], prefix)
      {
        assert Clear(edits, ms[i].start, ms[i].end) by {
          forall k | 0 <= k < |edits| ensures !Overlaps(edits[k], ms[i].start, ms[i].end) {
            assert ms[k].end <= ms[i].start;
          }
        }
        var ok := Overwrite(ms[i].start, ms[i].end, prefix + ms[i].captured);
        assert EditsOf(ms[..i + 1], prefix) == EditsOf(ms[..i], prefix) + [Edit(ms[i].start, ms[i].end, prefix + ms[i].captured)];
        i := i + 1;
      }
      assert ms[..i] == ms;
      ApplyMatches(original, ms, prefix);
    }
  }
}
