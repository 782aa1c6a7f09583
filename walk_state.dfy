/** The state both plugins' phase A carries through the template walk, and what it leaves behind. */
module TemplateWalk {
  import opened Wrappers
  import opened Text
  import opened MagicStrings

  /** Edits and imports so far; `stopped` once magic-string has thrown and the walk is abandoned. */
  datatype WalkState = WalkState(edits: seq<Edit>, imports: seq<string>, stopped: bool)

  /** The state before the first node: no edit, no import. */
  const Init := WalkState([], [], false)

  /** The bucket after phase A: the joined imports under the file's id, only when there are some. */
  function Stored(bucket: map<string, string>, id: string, imports: seq<string>): map<string, string> {
    if imports != [] then bucket[id := Join(imports, "\n")] else bucket
  }

  /** What phase A returns: the edited code when `hasChanged()`, else nothing. */
  function Output(code: string, edits: seq<Edit>): Option<string> {
    if Apply(code, edits) != code then Some(Apply(code, edits)) else None
  }
}
