/**
 * The `SvgoIconTransform` unplugin: two transform passes that share a per-file `bucket`.
 * Phase A rewrites every `<SvgoIcon>`/`<svgo-icon>` element of a component's template
 * into a synthesized component (or removes it) and records the imports it needs;
 * phase B prepends those imports and redirects `resolveComponent('SvgoIcon…')` calls.
 */
module SvgoIconTransform {
  import opened Wrappers
  import opened Text
  import opened Casing
  import opened MagicStrings
  import opened Markup
  import opened VueIds
  import opened TemplateWalk

  const DEFAULT_STRATEGY := "component"
  const ALLOW_STRATEGIES: set<string> := {"component", "skipsvgo"}

  // ---------------------------------------------------------------------------
  // The fast reject: /\b(?:svgo-icon|SvgoIcon)\b/g
  // ---------------------------------------------------------------------------

  /** A character of `\w`. */
  predicate IsWordChar(c: char) {
    'a' <= c <= 'z' || 'A' <= c <= 'Z' || '0' <= c <= '9' || c == '_'
  }

  /** `\b` right after a word that ends at `e`. */
  predicate WordEndsAt(code: string, e: nat) {
    e == |code| || (e < |code| && !IsWordChar(code[e]))
  }

  /** Where the icon-word pattern, tried at position `p`, ends; None if it does not match there. */
  function IconWordEnd(code: string, p: nat): (r: Option<nat>)
    ensures r.Some? ==> p < r.value <= |code|
    ensures r.Some? ==> OccursAt(code, "svgo-icon", p) || OccursAt(code, "SvgoIcon", p)
  {
    if 0 < p <= |code| && IsWordChar(code[p - 1]) then None
    else if OccursAt(code, "svgo-icon", p) && WordEndsAt(code, p + 9) then Some(p + 9)
    else if OccursAt(code, "SvgoIcon", p) && WordEndsAt(code, p + 8) then Some(p + 8)
    else None
  }

  /** The leftmost match at or after `from`, as (index, end). */
  function FirstIconWord(code: string, from: nat): (r: Option<(nat, nat)>)
    ensures r.Some? ==> from <= r.value.0 && IconWordEnd(code, r.value.0) == Some(r.value.1)
    ensures r.Some? ==> forall p: nat :: from <= p < r.value.0 ==> IconWordEnd(code, p).None?
    ensures r.None? ==> forall p: nat :: from <= p ==> IconWordEnd(code, p).None?
    decreases |code| - from
  {
    if from > |code| then None
    else
      match IconWordEnd(code, from)
      case Some(e) => Some((from, e))
      case None => FirstIconWord(code, from + 1)
  }

  /** Whether the text holds the word `svgo-icon` or `SvgoIcon` anywhere: the intended fast reject. */
  function HasIconWord(code: string): (r: bool)
    ensures r <==> exists p: nat :: IconWordEnd(code, p).Some?
  {
    FirstIconWord(code, 0).Some?
  }

  /**
   * `SVGO_ICON_RE.test(code)` as ECMAScript's RegExpBuiltinExec runs it for a global
   * regular expression: the search starts at `lastIndex`, a match leaves `lastIndex` at
   * its end, and a failure resets it to 0. Returns (found, new lastIndex).
   */
  function ExecTest(lastIndex: nat, code: string): (r: (bool, nat))
    ensures r.0 <==> lastIndex <= |code| && exists p: nat :: lastIndex <= p && IconWordEnd(code, p).Some?
    ensures !r.0 ==> r.1 == 0
    ensures r.0 ==> lastIndex < r.1 <= |code|
  {
    if lastIndex > |code| then (false, 0)
    else
      match FirstIconWord(code, lastIndex)
      case None => (false, 0)
      case Some((_, e)) => (true, e)
  }

  /** The module-level regular expression object, whose `lastIndex` outlives each call. */
  class IconWordRegex {
    var lastIndex: nat

    constructor ()
      ensures lastIndex == 0
    {
      lastIndex := 0;
    }

    /** `SVGO_ICON_RE.test(code)`. */
    method Test(code: string) returns (found: bool)
      modifies this
      ensures (found, lastIndex) == ExecTest(old(lastIndex), code)
      ensures found ==> HasIconWord(code)
    {
      var r := ExecTest(lastIndex, code);
      found, lastIndex := r.0, r.1;
    }
  }

  /** From a fresh `lastIndex` the test is the intended whole-file check. */
  lemma ExecTestFromStart(code: string)
    ensures ExecTest(0, code).0 == HasIconWord(code)
  {
  }

  /** The text holds neither `s` nor `S`, so the icon word cannot start anywhere in it. */
  predicate Plain(a: string) {
    forall k :: 0 <= k < |a| ==> a[k] != 's' && a[k] != 'S'
  }

  lemma PlainConcat(x: string, y: string)
    requires Plain(x) && Plain(y)
    ensures Plain(x + y)
  {
  }

  /** Positions holding neither `s` nor `S` cannot start the icon word. */
  lemma {:induction false} SkipPlain(code: string, lo: nat, hi: nat)
    requires lo <= hi <= |code|
    requires Plain(code[lo..hi])
    ensures FirstIconWord(code, lo) == FirstIconWord(code, hi)
    decreases hi - lo
  {
    if lo < hi {
      assert code[lo] == code[lo..hi][0];
      if lo + 9 <= |code| { assert code[lo..lo + 9][0] == code[lo]; }
      if lo + 8 <= |code| { assert code[lo..lo + 8][0] == code[lo]; }
      assert code[lo + 1..hi] == code[lo..hi][1..];
      SkipPlain(code, lo + 1, hi);
    }
  }

  /**
   * After text without `s` or `S` that ends in a non-word character, a `SvgoIcon` word
   * is the first match: a fresh test succeeds and leaves `lastIndex` at the word's end.
   */
  lemma IconAfterPlain(a: string, b: string)
    requires Plain(a) && a != [] && !IsWordChar(a[|a| - 1])
    requires b != [] && !IsWordChar(b[0])
    ensures ExecTest(0, a + "SvgoIcon" + b) == (true, |a| + 8)
  {
    var code := a + "SvgoIcon" + b;
    assert code[..|a|] == a;
    SkipPlain(code, 0, |a|);
    assert code[|a|..|a| + 8] == "SvgoIcon";
    assert code[|a| - 1] == a[|a| - 1] && code[|a| + 8] == b[0];
    assert !OccursAt(code, "svgo-icon", |a|) by {
      assert code[|a|] == 'S';
      if |a| + 9 <= |code| { assert code[|a|..|a| + 9][0] == code[|a|]; }
    }
    assert IconWordEnd(code, |a|) == Some(|a| + 8);
  }

  /** The three ways the examples below group a file's five pieces. */
  lemma Regroup(o: string, x: string, w: string, y: string, c: string)
    ensures o + x + w + y + c == (o + x) + w + (y + c) == o + (x + w + y) + c
  {
  }

  /** The first file of the example below: it passes the template filter and leaves `lastIndex` at 45. */
  lemma LongFileLeavesLastIndex()
    ensures var first := OPEN_TAG + "<p>a long line of text</p><" + "SvgoIcon" + " name=\"a\"/>" + CLOSE_TAG;
            TemplateMatch(first).Some? && ExecTest(0, first) == (true, 45)
  {
    var x, y := "<p>a long line of text</p><", " name=\"a\"/>";
    assert Plain(OPEN_TAG) && Plain(x);
    PlainConcat(OPEN_TAG, x);
    IconAfterPlain(OPEN_TAG + x, y + CLOSE_TAG);
    Regroup(OPEN_TAG, x, "SvgoIcon", y, CLOSE_TAG);
    WrappedHasTemplate(x + "SvgoIcon" + y);
  }

  /** The second file of the example below: it passes the template filter and holds the word in 32 characters. */
  lemma ShortFileHoldsWord()
    ensures var second := OPEN_TAG + "<" + "SvgoIcon" + "/>" + CLOSE_TAG;
            TemplateMatch(second).Some? && HasIconWord(second) && |second| == 32
  {
    var x, y := "<", "/>";
    assert Plain(OPEN_TAG) && Plain(x);
    PlainConcat(OPEN_TAG, x);
    IconAfterPlain(OPEN_TAG + x, y + CLOSE_TAG);
    Regroup(OPEN_TAG, x, "SvgoIcon", y, CLOSE_TAG);
    ExecTestFromStart(OPEN_TAG + x + "SvgoIcon" + y + CLOSE_TAG);
    WrappedHasTemplate(x + "SvgoIcon" + y);
  }

  /**
   * The test as written skips a file that does contain the word. Both files pass the
   * hook's template filter. The first leaves `lastIndex` at 45, the end of its `SvgoIcon`;
   * the second is only 32 characters long, so its search starts past its end, the test
   * fails and the handler returns before rewriting its icon.
   */
  lemma StaleLastIndexSkipsFile()
    ensures var first := OPEN_TAG + "<p>a long line of text</p><" + "SvgoIcon" + " name=\"a\"/>" + CLOSE_TAG;
            var second := OPEN_TAG + "<" + "SvgoIcon" + "/>" + CLOSE_TAG;
            && TemplateMatch(first).Some? && TemplateMatch(second).Some?
            && ExecTest(0, first) == (true, 45)
            && HasIconWord(second)
            && !ExecTest(ExecTest(0, first).1, second).0
  {
    LongFileLeavesLastIndex();
    ShortFileHoldsWord();
  }

  // ---------------------------------------------------------------------------
  // Strategy, binding names and imports
  // ---------------------------------------------------------------------------

  /** The two strategies `ALLOW_STRATEGIES` admits. */
  datatype StrategyKind = ComponentStrategy | SkipSvgo

  /** The strategy's attribute value, which also becomes the import's query. */
  function StrategyName(k: StrategyKind): string {
    match k
    case ComponentStrategy => "component"
    case SkipSvgo => "skipsvgo"
  }

  /**
   * The normalised `strategy` attribute: an allowed value is kept; an absent, empty or
   * unknown one becomes the default.
   */
  function Strategy(attributes: map<string, string>): StrategyKind {
    var requested := if "strategy" in attributes && attributes["strategy"] != "" then attributes["strategy"] else DEFAULT_STRATEGY;
    var strategy := if requested in ALLOW_STRATEGIES then requested else DEFAULT_STRATEGY;
    if strategy == StrategyName(SkipSvgo) then SkipSvgo else ComponentStrategy
  }

  /**
   * The strategy is always an allowed one: the requested one when it is allowed, else the
   * default (an absent or empty attribute included).
   */
  lemma StrategyAllowed(attributes: map<string, string>)
    ensures StrategyName(Strategy(attributes)) in ALLOW_STRATEGIES
    ensures "strategy" in attributes && attributes["strategy"] in ALLOW_STRATEGIES ==>
              StrategyName(Strategy(attributes)) == attributes["strategy"]
    ensures !("strategy" in attributes && attributes["strategy"] in ALLOW_STRATEGIES) ==>
              StrategyName(Strategy(attributes)) == DEFAULT_STRATEGY
  {
  }

  /** A lower-case ASCII word is a single piece. */
  lemma SinglePieceName(s: string)
    requires forall i :: 0 <= i < |s| ==> 'a' <= s[i] <= 'z'
    ensures NoSeparators(s)
  {
  }

  /** The synthesized component name `SvgoIcon<Pascal(strategy)><Pascal(name)>`. */
  function Binding(strategy: StrategyKind, name: string): string {
    "SvgoIcon" + PascalName(strategy) + PascalCase(name)
  }

  /** `pascalCase(strategy)` for the two strategies, written out. */
  function PascalName(k: StrategyKind): string {
    match k
    case ComponentStrategy => "Component"
    case SkipSvgo => "Skipsvgo"
  }

  /** The written-out forms are what scule's `pascalCase` makes of the strategy names. */
  lemma PascalNameIsPascalCase(k: StrategyKind)
    ensures PascalName(k) == PascalCase(StrategyName(k))
  {
    match k
    case ComponentStrategy => PascalOfLowerWord("c", "omponent");
    case SkipSvgo => PascalOfLowerWord("s", "kipsvgo");
  }

  /** A lower-case word is Pascal-cased by upper-casing its first letter. */
  lemma PascalOfLowerWord(head: string, tail: string)
    requires |head| == 1 && 'a' <= head[0] <= 'z'
    requires forall i :: 0 <= i < |tail| ==> 'a' <= tail[i] <= 'z'
    ensures PascalCase(head + tail) == [Upper(head[0])] + tail
  {
    var s := head + tail;
    SinglePieceName(s);
    PascalOfSinglePiece(s, true);
    assert s[1..] == tail;
  }

  /** knitwork `genImport(specifier, name)`: a default import. */
  function GenImport(specifier: string, name: string): string {
    "import " + name + " from \"" + specifier + "\";"
  }

  /** An entry of `options.getComponents()`. */
  datatype Component = Component(path: string, filePath: string, name: string)

  /** `new Map(components.map(c => [c.name, c]))`. */
  function LookupOf(components: seq<Component>): map<string, Component> {
    if components == [] then map[]
    else LookupOf(components[..|components| - 1])[components[|components| - 1].name := components[|components| - 1]]
  }

  /** No later component carries the name of the `k`-th. */
  predicate LastOfName(components: seq<Component>, k: nat)
    requires k < |components|
  {
    forall j :: k < j < |components| ==> components[j].name != components[k].name
  }

  /** The lookup holds exactly the components' names. */
  lemma {:induction false} LookupKeys(components: seq<Component>)
    ensures forall key :: key in LookupOf(components) <==> exists k :: 0 <= k < |components| && components[k].name == key
    decreases |components|
  {
    if components != [] {
      var n := |components| - 1;
      var init := components[..n];
      LookupKeys(init);
      forall key ensures key in LookupOf(components) <==> exists k :: 0 <= k < |components| && components[k].name == key {
        if key != components[n].name && key in LookupOf(init) {
          var k :| 0 <= k < |init| && init[k].name == key;
          assert components[k].name == key;
        }
        if exists k :: 0 <= k < |components| && components[k].name == key {
          var k :| 0 <= k < |components| && components[k].name == key;
          if k < n {
            assert init[k].name == key;
          }
        }
      }
    }
  }

  /** Under each name the lookup holds the last component that carries it: a later one replaces an earlier one. */
  lemma {:induction false} LookupKeepsLast(components: seq<Component>)
    ensures forall k :: 0 <= k < |components| && LastOfName(components, k) ==>
              components[k].name in LookupOf(components) && LookupOf(components)[components[k].name] == components[k]
    decreases |components|
  {
    if components != [] {
      var n := |components| - 1;
      var init := components[..n];
      LookupKeepsLast(init);
      forall k | 0 <= k < |components| && LastOfName(components, k)
        ensures components[k].name in LookupOf(components) && LookupOf(components)[components[k].name] == components[k]
      {
        if k < n {
          assert components[n].name != components[k].name;
          assert init[k] == components[k];
          assert LastOfName(init, k);
        }
      }
    }
  }

  /** The import a resolved icon adds: the asset's file with the strategy as query, bound to `__<binding>`. */
  function ImportFor(file: Component, strategy: StrategyKind, name: string): string {
    GenImport(file.filePath + "?" + StrategyName(strategy), "__" + Binding(strategy, name))
  }

  /** After the `SvgoIcon` prefix a binding spells the strategy's Pascal form. */
  lemma BindingHead(strategy: StrategyKind, name: string)
    ensures Binding(strategy, name)[8] == PascalName(strategy)[0]
  {
    var b := Binding(strategy, name);
    assert b == "SvgoIcon" + (PascalName(strategy) + PascalCase(name));
  }

  /** In an import line, the binding starts at index 9, after `import __`. */
  lemma ImportHead(file: Component, strategy: StrategyKind, name: string)
    ensures ImportFor(file, strategy, name)[17] == PascalName(strategy)[0]
  {
    BindingHead(strategy, name);
    var b := Binding(strategy, name);
    var n := "__" + b;
    var head := "import " + n;
    assert ImportFor(file, strategy, name) == head + (" from \"" + (file.filePath + "?" + StrategyName(strategy)) + "\";");
    assert head[17] == n[10] == b[8];
  }

  /** Different strategies never share a binding or an import, even for one asset and name. */
  lemma StrategiesKeepApart(file: Component, name: string, j: StrategyKind, k: StrategyKind)
    requires j != k
    ensures Binding(j, name) != Binding(k, name)
    ensures ImportFor(file, j, name) != ImportFor(file, k, name)
  {
    BindingHead(j, name);
    BindingHead(k, name);
    ImportHead(file, j, name);
    ImportHead(file, k, name);
  }

  /** For one strategy and one name, the import determines the asset's file. */
  lemma ImportNamesItsFile(a: Component, b: Component, strategy: StrategyKind, name: string)
    requires a.filePath != b.filePath
    ensures ImportFor(a, strategy, name) != ImportFor(b, strategy, name)
  {
    ImportNamesItsSpecifier(a.filePath, b.filePath, StrategyName(strategy), "__" + Binding(strategy, name));
  }

  /** Two imports of one binding with different files in the specifier differ. */
  lemma ImportNamesItsSpecifier(x: string, y: string, query: string, binding: string)
    requires x != y
    ensures GenImport(x + "?" + query, binding) != GenImport(y + "?" + query, binding)
  {
    var head := "import " + binding + " from \"";
    var tail := "?" + query + "\";";
    assert GenImport(x + "?" + query, binding) == head + x + tail;
    assert GenImport(y + "?" + query, binding) == head + y + tail;
    if GenImport(x + "?" + query, binding) == GenImport(y + "?" + query, binding) {
      InfixCancel(head, x, y, tail);
    }
  }

  /**
   * The binding scheme is not injective in the asset name: `foo-bar.svg` and `fooBar.svg`
   * both bind `__SvgoIconComponentFooBar`, so a file using both gets two different imports
   * of one name.
   */
  lemma BindingCollision(a: Component, b: Component, strategy: StrategyKind, x: string, y: string)
    requires a.filePath != b.filePath
    requires x != [] && NoSeparators(x) && y != [] && NoSeparators(y) && 'a' <= y[0] <= 'z'
    ensures x + "-" + y != x + [Upper(y[0])] + y[1..]
    ensures Binding(strategy, x + "-" + y) == Binding(strategy, x + [Upper(y[0])] + y[1..])
    ensures ImportFor(a, strategy, x + "-" + y) != ImportFor(b, strategy, x + [Upper(y[0])] + y[1..])
  {
    var dashed, joined := x + "-" + y, x + [Upper(y[0])] + y[1..];
    PascalCaseCollides(x, y);
    assert ImportFor(b, strategy, joined) == ImportFor(b, strategy, dashed);
    ImportNamesItsFile(a, b, strategy, dashed);
  }

  // ---------------------------------------------------------------------------
  // Phase A as a specification: the walk over the template's nodes
  // ---------------------------------------------------------------------------

  /** What the walk callback reads besides the node. */
  datatype Context = Context(
    len: nat,                         // length of the whole file
    offset: nat,                      // index of the template match
    declared: set<string>,            // names the script scope tracker declares
    lookup: map<string, Component>,   // asset file name to component
    render: Node -> string)           // ultrahtml `render`

  predicate IsIconTag(name: string) {
    name == "SvgoIcon" || name == "svgo-icon"
  }

  /** A node the callback acts on: an element with an icon tag that the script does not declare. */
  predicate IsTarget(n: Node, declared: set<string>) {
    n.kind == ELEMENT_NODE && IsIconTag(n.name) && n.name !in declared
  }

  /** A node with a non-empty `name` whose `<name>.svg` is a known component. */
  predicate Resolves(n: Node, lookup: map<string, Component>) {
    Attr(n, "name") != "" && Attr(n, "name") + ".svg" in lookup
  }

  /** The clone that is rendered: renamed to the binding, without `name` and `strategy`. */
  function Renamed(n: Node): Node {
    n.(name := Binding(Strategy(n.attributes), Attr(n, "name")),
       attributes := n.attributes - {"name", "strategy"})
  }

  function ImportOf(n: Node, lookup: map<string, Component>): string
    requires Resolves(n, lookup)
  {
    ImportFor(lookup[Attr(n, "name") + ".svg"], Strategy(n.attributes), Attr(n, "name"))
  }

  /** What a target node's span becomes: the rendered clone, or nothing. */
  function Replacement(n: Node, ctx: Context): string {
    if Resolves(n, ctx.lookup) then ctx.render(Renamed(n)) else ""
  }

  /** `imports.add(imp)` on an insertion-ordered set. */
  function AddImport(imports: seq<string>, imp: string): (r: seq<string>)
    ensures imp in r
    ensures forall x :: x in r <==> x in imports || x == imp
  {
    if imp in imports then imports else imports + [imp]
  }

  /** One call of the walk callback. */
  function Step(st: WalkState, n: Node, ctx: Context): WalkState {
    if st.stopped || !IsTarget(n, ctx.declared) then st
    else
      var start := n.start + ctx.offset;
      var end := n.end + ctx.offset;
      if !Resolves(n, ctx.lookup) then
        Removed(st, RemoveResult(st.edits, ctx.len, start, end))
      else
        Overwritten(st, AddImport(st.imports, ImportOf(n, ctx.lookup)),
                    OverwriteResult(st.edits, ctx.len, start, end, ctx.render(Renamed(n))))
  }

  /** After `s.remove`: the new edits, or the walk stopped by a throw. */
  function Removed(st: WalkState, r: Option<seq<Edit>>): WalkState {
    match r
    case None => st.(stopped := true)
    case Some(es) => st.(edits := es)
  }

  /** After `imports.add` and `s.overwrite`: the import is kept even when the overwrite throws. */
  function Overwritten(st: WalkState, imports: seq<string>, r: Option<seq<Edit>>): WalkState {
    match r
    case None => WalkState(st.edits, imports, true)
    case Some(es) => WalkState(es, imports, false)
  }

  /** The walk over `nodes`, one whole callback at a time, in the order the callbacks start. */
  function Walk(st: WalkState, nodes: seq<Node>, ctx: Context): WalkState
    decreases |nodes|
  {
    if nodes == [] then st else Walk(Step(st, nodes[0], ctx), nodes[1..], ctx)
  }

  /**
   * Everything phase A decides for one file: nothing when the fast reject or the template
   * match fails or the template does not parse, else the walk over the parsed nodes.
   */
  function Rewrite(code: string, declared: set<string>, components: seq<Component>,
                   ast: Option<seq<Node>>, render: Node -> string): WalkState
  {
    if !HasIconWord(code) then Init
    else
      match TemplateMatch(code)
      case None => Init
      case Some((offset, _)) =>
        match ast
        case None => Init
        case Some(nodes) => Walk(Init, nodes, Context(|code|, offset, declared, LookupOf(components), render))
  }

  // ---------------------------------------------------------------------------
  // What the walk guarantees
  // ---------------------------------------------------------------------------

  /** The edit a target node's span receives. */
  ghost predicate EditOfTarget(e: Edit, nodes: seq<Node>, ctx: Context) {
    exists n :: n in nodes && IsTarget(n, ctx.declared)
      && e == Edit(n.start + ctx.offset, n.end + ctx.offset, Replacement(n, ctx))
  }

  /** The import a resolved target node adds. */
  ghost predicate ImportOfTarget(imp: string, nodes: seq<Node>, ctx: Context) {
    exists n :: n in nodes && IsTarget(n, ctx.declared) && Resolves(n, ctx.lookup) && imp == ImportOf(n, ctx.lookup)
  }

  predicate Distinct(xs: seq<string>) {
    forall j, k :: 0 <= j < k < |xs| ==> xs[j] != xs[k]
  }

  /** Once stopped, the walk stays as it is. */
  lemma {:induction false} WalkStopped(st: WalkState, nodes: seq<Node>, ctx: Context)
    requires st.stopped
    ensures Walk(st, nodes, ctx) == st
    decreases |nodes|
  {
    if nodes != [] {
      WalkStopped(Step(st, nodes[0], ctx), nodes[1..], ctx);
    }
  }

  /**
   * Only target nodes are edited: the walk only appends edits, and each edit it appends
   * covers a target's span with the rendered clone or with nothing.
   */
  lemma {:induction false} WalkEditsOnlyTargets(st: WalkState, nodes: seq<Node>, ctx: Context)
    ensures |st.edits| <= |Walk(st, nodes, ctx).edits|
    ensures Walk(st, nodes, ctx).edits[..|st.edits|] == st.edits
    ensures forall k :: |st.edits| <= k < |Walk(st, nodes, ctx).edits| ==> EditOfTarget(Walk(st, nodes, ctx).edits[k], nodes, ctx)
    decreases |nodes|
  {
    if nodes != [] {
      var n := nodes[0];
      var st' := Step(st, n, ctx);
      StepEdits(st, n, ctx);
      WalkEditsOnlyTargets(st', nodes[1..], ctx);
      var w := Walk(st', nodes[1..], ctx);
      assert w == Walk(st, nodes, ctx);
      assert w.edits[..|st.edits|] == w.edits[..|st'.edits|][..|st.edits|];
      forall k | |st.edits| <= k < |w.edits| ensures EditOfTarget(w.edits[k], nodes, ctx) {
        if k < |st'.edits| {
          assert w.edits[k] == st'.edits[k];
          assert IsTarget(n, ctx.declared);
        } else {
          assert EditOfTarget(w.edits[k], nodes[1..], ctx);
          var m :| m in nodes[1..] && IsTarget(m, ctx.declared)
            && w.edits[k] == Edit(m.start + ctx.offset, m.end + ctx.offset, Replacement(m, ctx));
          assert m in nodes;
        }
      }
    }
  }

  /** One step only appends edits, each covering the node's span with its replacement. */
  lemma StepEdits(st: WalkState, n: Node, ctx: Context)
    ensures |st.edits| <= |Step(st, n, ctx).edits| && Step(st, n, ctx).edits[..|st.edits|] == st.edits
    ensures |st.edits| < |Step(st, n, ctx).edits| ==> IsTarget(n, ctx.declared)
    ensures forall k :: |st.edits| <= k < |Step(st, n, ctx).edits| ==>
              Step(st, n, ctx).edits[k] == Edit(n.start + ctx.offset, n.end + ctx.offset, Replacement(n, ctx))
  {
  }

  /** Every import comes from a resolved target node, and none is recorded twice. */
  lemma {:induction false} WalkImportsOnlyResolved(st: WalkState, nodes: seq<Node>, ctx: Context)
    requires Distinct(st.imports)
    ensures Distinct(Walk(st, nodes, ctx).imports)
    ensures forall x :: x in st.imports ==> x in Walk(st, nodes, ctx).imports
    ensures forall x :: x in Walk(st, nodes, ctx).imports && x !in st.imports ==> ImportOfTarget(x, nodes, ctx)
    decreases |nodes|
  {
    if nodes != [] {
      var n := nodes[0];
      var st' := Step(st, n, ctx);
      assert Distinct(st'.imports);
      assert forall x :: x in st'.imports && x !in st.imports ==> IsTarget(n, ctx.declared) && Resolves(n, ctx.lookup) && x == ImportOf(n, ctx.lookup);
      WalkImportsOnlyResolved(st', nodes[1..], ctx);
      var w := Walk(st', nodes[1..], ctx);
      forall x | x in w.imports && x !in st.imports ensures ImportOfTarget(x, nodes, ctx) {
        if x in st'.imports {
          assert n in nodes;
        } else {
          assert ImportOfTarget(x, nodes[1..], ctx);
          var m :| m in nodes[1..] && IsTarget(m, ctx.declared) && Resolves(m, ctx.lookup) && x == ImportOf(m, ctx.lookup);
          assert m in nodes;
        }
      }
    }
  }

  /**
   * A walk that magic-string never interrupts handles every target: each non-empty span is
   * edited with its replacement and each resolved node's import is recorded.
   */
  lemma {:induction false} WalkCoversTargets(st: WalkState, nodes: seq<Node>, ctx: Context)
    requires !Walk(st, nodes, ctx).stopped
    ensures forall n :: n in nodes && IsTarget(n, ctx.declared) && n.start < n.end ==>
              Edit(n.start + ctx.offset, n.end + ctx.offset, Replacement(n, ctx)) in Walk(st, nodes, ctx).edits
    ensures forall n :: n in nodes && IsTarget(n, ctx.declared) && Resolves(n, ctx.lookup) ==>
              ImportOf(n, ctx.lookup) in Walk(st, nodes, ctx).imports
    decreases |nodes|
  {
    if nodes != [] {
      var n := nodes[0];
      var st' := Step(st, n, ctx);
      if st'.stopped {
        WalkStopped(st', nodes[1..], ctx);
        assert false;
      }
      WalkCoversTargets(st', nodes[1..], ctx);
      WalkEditsOnlyTargets(st', nodes[1..], ctx);
      WalkImportsMonotone(st', nodes[1..], ctx);
      var w := Walk(st', nodes[1..], ctx);
      if IsTarget(n, ctx.declared) && n.start < n.end {
        var e := Edit(n.start + ctx.offset, n.end + ctx.offset, Replacement(n, ctx));
        assert st'.edits[|st'.edits| - 1] == e;
        assert w.edits[..|st'.edits|] == st'.edits;
        assert w.edits[|st'.edits| - 1] == e;
      }
      forall m | m in nodes && IsTarget(m, ctx.declared) && m.start < m.end
        ensures Edit(m.start + ctx.offset, m.end + ctx.offset, Replacement(m, ctx)) in w.edits
      {
        if m != n { assert m in nodes[1..]; }
      }
      forall m | m in nodes && IsTarget(m, ctx.declared) && Resolves(m, ctx.lookup)
        ensures ImportOf(m, ctx.lookup) in w.imports
      {
        if m != n { assert m in nodes[1..]; }
      }
    }
  }

  /** Every recorded import is a non-empty line. */
  lemma WalkImportsNonEmpty(nodes: seq<Node>, ctx: Context)
    ensures forall x :: x in Walk(Init, nodes, ctx).imports ==> x != ""
  {
    WalkImportsOnlyResolved(Init, nodes, ctx);
    forall x | x in Walk(Init, nodes, ctx).imports ensures x != "" {
      var m :| m in nodes && IsTarget(m, ctx.declared) && Resolves(m, ctx.lookup) && x == ImportOf(m, ctx.lookup);
      assert x[0] == 'i';
    }
  }

  /** Imports are never dropped. */
  lemma {:induction false} WalkImportsMonotone(st: WalkState, nodes: seq<Node>, ctx: Context)
    ensures forall x :: x in st.imports ==> x in Walk(st, nodes, ctx).imports
    decreases |nodes|
  {
    if nodes != [] {
      WalkImportsMonotone(Step(st, nodes[0], ctx), nodes[1..], ctx);
    }
  }

  /** A template without target nodes leaves phase A with no edit and no import. */
  lemma UntargetedTemplateUnchanged(nodes: seq<Node>, ctx: Context)
    requires forall n :: n in nodes ==> !IsTarget(n, ctx.declared)
    ensures Walk(Init, nodes, ctx).edits == [] && Walk(Init, nodes, ctx).imports == []
  {
    WalkEditsOnlyTargets(Init, nodes, ctx);
    WalkImportsOnlyResolved(Init, nodes, ctx);
  }

  /**
   * Two resolved uses of one asset with one strategy share their import: after the walk,
   * the file holds it once.
   */
  lemma RepeatedUseImportedOnce(nodes: seq<Node>, ctx: Context, a: Node, b: Node)
    requires a in nodes && b in nodes && IsTarget(a, ctx.declared) && IsTarget(b, ctx.declared)
    requires Resolves(a, ctx.lookup) && Attr(a, "name") == Attr(b, "name") && Strategy(a.attributes) == Strategy(b.attributes)
    requires !Walk(Init, nodes, ctx).stopped
    ensures ImportOf(a, ctx.lookup) == ImportOf(b, ctx.lookup)
    ensures exists k :: 0 <= k < |Walk(Init, nodes, ctx).imports| && Walk(Init, nodes, ctx).imports[k] == ImportOf(a, ctx.lookup)
    ensures forall j, k :: 0 <= j < k < |Walk(Init, nodes, ctx).imports| ==> Walk(Init, nodes, ctx).imports[j] != Walk(Init, nodes, ctx).imports[k]
  {
    WalkCoversTargets(Init, nodes, ctx);
    WalkImportsOnlyResolved(Init, nodes, ctx);
    var imports := Walk(Init, nodes, ctx).imports;
    assert ImportOf(a, ctx.lookup) in imports;
  }

  // ---------------------------------------------------------------------------
  // The plugin
  // ---------------------------------------------------------------------------

  /**
   * The walk callback on one node: skip it, remove its span, or record its import and
   * overwrite its span with the rendered clone. `stopped` is true where magic-string throws.
   */
  method VisitNode(s: MagicString, imports: seq<string>, n: Node, ctx: Context)
    returns (imports': seq<string>, stopped: bool)
    requires s.Valid() && ctx.len == |s.original|
    modifies s
    ensures s.Valid() && s.intro == old(s.intro)
    ensures WalkState(s.edits, imports', stopped) == Step(WalkState(old(s.edits), imports, false), n, ctx)
  {
    imports', stopped := imports, false;
    ghost var st := WalkState(s.edits, imports, false);
    if n.kind != ELEMENT_NODE || !IsIconTag(n.name) || n.name in ctx.declared {
      return;
    }
    var start := n.start + ctx.offset;
    var end := n.end + ctx.offset;
    var strategy := Strategy(n.attributes);
    var name := Attr(n, "name");
    if name == "" || name + ".svg" !in ctx.lookup {
      var ok := s.Remove(start, end);
      stopped := !ok;
      return;
    }
    var component := Binding(strategy, name);
    var file := ctx.lookup[name + ".svg"];
    var imp := GenImport(file.filePath + "?" + StrategyName(strategy), "__" + component);
    assert imp == ImportOf(n, ctx.lookup);
    imports' := AddImport(imports, imp);
    var cloned := n.(name := component, attributes := n.attributes - {"name", "strategy"});
    assert cloned == Renamed(n);
    var ok := s.Overwrite(start, end, ctx.render(cloned));
    stopped := !ok;
  }

  /**
   * `walk(ast, callback)` inside the handler's try block: the nodes are visited in order
   * until a callback throws. Returns the imports collected.
   */
  method WalkTemplate(s: MagicString, nodes: seq<Node>, ctx: Context) returns (imports: seq<string>)
    requires s.Valid() && s.edits == [] && ctx.len == |s.original|
    modifies s
    ensures s.Valid() && s.intro == old(s.intro)
    ensures WalkState(s.edits, imports, Walk(Init, nodes, ctx).stopped) == Walk(Init, nodes, ctx)
  {
    imports := [];
    var stopped := false;
    var i := 0;
    while i < |nodes| && !stopped
      invariant 0 <= i <= |nodes|
      invariant s.Valid() && s.intro == old(s.intro)
      invariant Walk(Init, nodes, ctx) == Walk(WalkState(s.edits, imports, stopped), nodes[i..], ctx)
    {
      assert nodes[i..] == [nodes[i]] + nodes[i + 1..];
      imports, stopped := VisitNode(s, imports, nodes[i], ctx);
      i := i + 1;
    }
    if stopped {
      WalkStopped(WalkState(s.edits, imports, stopped), nodes[i..], ctx);
    }
  }

  class TransformPlugin {
    const exclude: seq<string -> bool>
    const includes: seq<string -> bool>
    /** Per file id, the imports phase A collected, joined by newlines. */
    var bucket: map<string, string>

    /** Every stored entry holds at least one import line. */
    ghost predicate Valid()
      reads this
    {
      forall id :: id in bucket ==> bucket[id] != ""
    }

    constructor (exclude: seq<string -> bool>, includes: seq<string -> bool>)
      ensures this.exclude == exclude && this.includes == includes && bucket == map[]
      ensures Valid()
    {
      this.exclude := exclude;
      this.includes := includes;
      bucket := map[];
    }

    /** `transformInclude(id)`, the same for both passes. */
    function Include(id: string, p: ParsedId): (r: bool)
    {
      TransformInclude(exclude, includes, id, p)
    }

    /**
     * Phase A `handler(code, id)`. `declared` is what the scope tracker learned from the
     * script blocks, `components` is `options.getComponents()`, `ast` lists the nodes of
     * `parse(template)` in the order the walk starts their callbacks (None when parsing
     * throws) and `render` is ultrahtml's `render`.
     * Code without a template match never reaches the handler, because of the hook's
     * `filter`; the handler's own template check gives that code the same outcome: no
     * output and no bucket entry.
     */
    method PhaseA(code: string, id: string, declared: set<string>, components: seq<Component>,
                  ast: Option<seq<Node>>, render: Node -> string) returns (r: Option<string>)
      requires Valid()
      modifies this
      ensures Valid()
      ensures var out := Rewrite(code, declared, components, ast, render);
        bucket == Stored(old(bucket), id, out.imports) && r == Output(code, out.edits)
      ensures !HasIconWord(code) ==> r == None && bucket == old(bucket)
      ensures TemplateMatch(code).None? ==> r == None && bucket == old(bucket)
      ensures Rewrite(code, declared, components, ast, render).imports != [] ==> id in bucket && bucket[id] != ""
    {
      if !HasIconWord(code) {
        ApplyNoEdits(code);
        return None;
      }
      var tm := TemplateMatch(code);
      if tm.None? {
        ApplyNoEdits(code);
        return None;
      }
      var s := new MagicString(code);
      var imports: seq<string> := [];
      ghost var out := Init;
      if ast.Some? {
        var ctx := Context(|code|, tm.value.0, declared, LookupOf(components), render);
        imports := WalkTemplate(s, ast.value, ctx);
        WalkImportsNonEmpty(ast.value, ctx);
        out := Walk(Init, ast.value, ctx);
        assert forall x :: x in imports ==> x != "";
      } else {
        ApplyNoEdits(code);
      }
      assert out == Rewrite(code, declared, components, ast, render);
      assert s.edits == out.edits && imports == out.imports && s.intro == "";
      if imports != [] {
        assert imports[0] in out.imports;
        JoinNonEmpty(imports, "\n");
        bucket := bucket[id := Join(imports, "\n")];
      }
      assert s.ToString() == Apply(code, out.edits);
      if s.HasChanged() {
        r := Some(s.ToString());
      } else {
        r := None;
      }
    }

    /**
     * Phase B `handler(code, id)`. `matches` are the matches of the `resolveComponent`
     * pattern in `code`, each capturing the `SvgoIcon…` name.
     */
    method PhaseB(code: string, id: string, matches: seq<Match>) returns (r: Option<string>)
      requires Valid() && Ordered(code, matches)
      ensures id !in bucket ==> r == None
      ensures id in bucket ==> r == Some(bucket[id] + "\n" + ReplaceAll(code, matches, "__"))
    {
      if id !in bucket || bucket[id] == "" {
        return None;
      }
      var imports := bucket[id];
      var s := new MagicString(code);
      s.Prepend(imports + "\n");
      assert s.intro == imports + "\n";
      s.ReplaceMatches(matches, "__");
      assert s.intro == imports + "\n";
      assert s.ToString() == imports + "\n" + ReplaceAll(code, matches, "__");
      r := Some(s.ToString());
    }
  }
}
