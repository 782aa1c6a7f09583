/**
 * Which module ids the plugins transform: Nuxt's `isVue` classifier, copied verbatim
 * into both plugin files, and the `transformInclude` filter built on it.
 */
module VueIds {
  import opened Wrappers

  /** A value of `parseQuery`: a single string, or an array for a repeated key. */
  datatype QueryValue = Single(text: string) | Many(items: seq<string>)

  /**
   * The parts of a module id that `isVue` reads: `search` is the query string of
   * `parseURL(decodeURIComponent(pathToFileURL(id).href))` ("" when there is none) and
   * `query` is `parseQuery(search)`.
   */
  datatype ParsedId = ParsedId(search: string, query: map<string, QueryValue>)

  /** JavaScript truthiness of `query[key]`. */
  predicate Truthy(query: map<string, QueryValue>, key: string) {
    key in query && (query[key].Many? || query[key].text != "")
  }

  function EndsWithVue(id: string): bool {
    |id| >= 4 && id[|id| - 4..] == ".vue"
  }

  /** `opts.type.includes(type)`, where `type` is `'script'` for `setup` queries and `query.type` otherwise. */
  predicate IncludesBlockType(kinds: seq<string>, query: map<string, QueryValue>) {
    if "setup" in query then "script" in kinds
    else "type" in query && query["type"].Single? && query["type"].text in kinds
  }

  /** A `macro` query that `isVue` accepts. */
  predicate MacroAccepted(p: ParsedId, kinds: Option<seq<string>>) {
    Truthy(p.query, "macro") && (p.search == "?macro=true" || kinds.None? || "script" in kinds.value)
  }

  /** A `vue` query whose block type, if filtered, is wanted. */
  predicate VueBlockAccepted(p: ParsedId, kinds: Option<seq<string>>) {
    "vue" in p.query && (kinds.None? || IncludesBlockType(kinds.value, p.query))
  }

  /** `isVue(id, { type: kinds })`. */
  function IsVue(id: string, p: ParsedId, kinds: Option<seq<string>>): (r: bool)
    ensures r <==> (EndsWithVue(id) && p.search == "")
                   || (p.search != "" && !Truthy(p.query, "nuxt_component")
                       && (MacroAccepted(p, kinds) || VueBlockAccepted(p, kinds)))
  {
    if EndsWithVue(id) && p.search == "" then true
    else if p.search == "" then false
    else if Truthy(p.query, "nuxt_component") then false
    else if Truthy(p.query, "macro") && (p.search == "?macro=true" || kinds.None? || "script" in kinds.value) then true
    else
      if !("vue" in p.query) || (kinds.Some? && !IncludesBlockType(kinds.value, p.query)) then false
      else true
  }

  /** Whether some pattern of `patterns` matches `id` (`patterns.some(p => p.test(id))`). */
  function AnyMatches(patterns: seq<string -> bool>, id: string): (r: bool)
    ensures r <==> exists k :: 0 <= k < |patterns| && patterns[k](id)
  {
    if patterns == [] then false
    else patterns[0](id) || AnyMatches(patterns[1..], id)
  }

  /** `transformInclude(id)`: exclusion wins over inclusion, and `isVue` decides the rest. */
  function TransformInclude(exclude: seq<string -> bool>, includes: seq<string -> bool>, id: string, p: ParsedId): (r: bool)
    ensures (exists k :: 0 <= k < |exclude| && exclude[k](id)) ==> !r
    ensures (forall k :: 0 <= k < |exclude| ==> !exclude[k](id)) && (exists k :: 0 <= k < |includes| && includes[k](id)) ==> r
    ensures (forall k :: 0 <= k < |exclude| ==> !exclude[k](id)) && (forall k :: 0 <= k < |includes| ==> !includes[k](id))
            ==> r == IsVue(id, p, None)
  {
    if AnyMatches(exclude, id) then false
    else if AnyMatches(includes, id) then true
    else IsVue(id, p, None)
  }

  /** A bare `.vue` file with no query is a Vue module. */
  lemma BareVueFile(id: string, query: map<string, QueryValue>)
    requires EndsWithVue(id)
    ensures IsVue(id, ParsedId("", query), None)
  {
  }

  /** An id with no query that is not a `.vue` file is rejected, whatever the filter. */
  lemma NoQueryNotVue(id: string, query: map<string, QueryValue>, kinds: Option<seq<string>>)
    requires !EndsWithVue(id)
    ensures !IsVue(id, ParsedId("", query), kinds)
  {
  }

  /** A component async/lazy wrapper (`nuxt_component` query) is never a Vue module. */
  lemma NuxtComponentRejected(id: string, p: ParsedId, kinds: Option<seq<string>>)
    requires p.search != "" && Truthy(p.query, "nuxt_component")
    ensures !IsVue(id, p, kinds)
  {
  }

  /** `?macro=true` is accepted whatever block types are asked for. */
  lemma MacroQueryAccepted(id: string, query: map<string, QueryValue>, kinds: Option<seq<string>>)
    requires Truthy(query, "macro") && !Truthy(query, "nuxt_component")
    ensures IsVue(id, ParsedId("?macro=true", query), kinds)
  {
  }

  /** Without a `vue` key, and short of an accepted macro, a query is rejected. */
  lemma NonVueQueryRejected(id: string, p: ParsedId, kinds: Option<seq<string>>)
    requires p.search != "" && "vue" !in p.query && !MacroAccepted(p, kinds)
    ensures !IsVue(id, p, kinds)
  {
  }
}
