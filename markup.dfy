/**
 * What the plugins see of a single-file component: the template region found by
 * `/<template>([\s\S]*)<\/template>/`, and the element nodes that ultrahtml's `walk`
 * visits in that region.
 */
module Markup {
  import opened Wrappers
  import opened Text

  /** ultrahtml's `ELEMENT_NODE` node type. */
  const ELEMENT_NODE: nat := 1

  /**
   * A node as the walk callback receives it: its type, tag name, attributes and its
   * span in the template, `[loc[0].start, loc.at(-1).end)`.
   */
  datatype Node = Node(kind: nat, name: string, attributes: map<string, string>, start: nat, end: nat)

  /** `node.attributes[key]`, with a missing attribute read as the (equally falsy) empty string. */
  function Attr(n: Node, key: string): string {
    if key in n.attributes then n.attributes[key] else ""
  }

  const OPEN_TAG := "<template>"
  const CLOSE_TAG := "</template>"

  /**
   * The match of the template pattern as `(index, end)`: the regular expression is greedy,
   * so the match runs from the first `<template>` to the last `</template>` after it.
   */
  function TemplateMatch(code: string): (r: Option<(nat, nat)>)
    ensures r.Some? ==> OccursAt(code, OPEN_TAG, r.value.0) && r.value.0 + 21 <= r.value.1 <= |code|
    ensures r.Some? ==> OccursAt(code, CLOSE_TAG, r.value.1 - 11)
    ensures r.Some? ==> forall j: nat :: j < r.value.0 ==> !OccursAt(code, OPEN_TAG, j)
    ensures r.Some? ==> forall j :: r.value.1 - 11 < j ==> !OccursAt(code, CLOSE_TAG, j)
    ensures r.None? ==> forall i, j :: OccursAt(code, OPEN_TAG, i) && i + 10 <= j ==> !OccursAt(code, CLOSE_TAG, j)
  {
    match IndexOfFrom(code, OPEN_TAG, 0)
    case None => None
    case Some(i) =>
      match LastIndexOfFrom(code, CLOSE_TAG, i + 10)
      case None => None
      case Some(j) => Some((i, j + 11))
  }

  /** A text wrapped in `<template>` and `</template>` passes the template pattern. */
  lemma WrappedHasTemplate(body: string)
    ensures TemplateMatch(OPEN_TAG + body + CLOSE_TAG).Some?
  {
    var code := OPEN_TAG + body + CLOSE_TAG;
    assert code[..10] == OPEN_TAG;
    assert code[|code| - 11..] == CLOSE_TAG;
    assert OccursAt(code, CLOSE_TAG, |code| - 11);
  }
}
