/**
 * The older `SvgoIconResolver` unplugin. Like the transform plugin it runs two passes that
 * share a per-file `bucket`, but it consults no asset registry and knows no strategy:
 * every named `<SvgoIcon>` becomes `SvgoIcon<Pascal(camel(name))>` imported straight from
 * `~/assets/svg/<name>.svg?component`, the import list keeps duplicates, only the
 * `SvgoIcon` spelling is accepted, and phase B rewrites `resolveComponent('SvgoIcon…')`
 * to the bare captured name.
 */
module SvgoIconResolver {
  import opened Wrappers
  import opened Text
  import opened Casing
  import opened MagicStrings
  import opened Markup
  import opened VueIds
  import opened TemplateWalk

  /** What the walk callback reads besides the node. */
  datatype Scope = Scope(
    len: nat,                         // length of the whole file
    offset: nat,                      // index of the template match
    declared: set<string>,            // names the script scope tracker declares
    render: Node -> string)           // ultrahtml `render`

  /** A node the callback acts on: an `SvgoIcon` element that the script does not declare. */
  predicate IsTarget(n: Node, declared: set<string>) {
    n.kind == ELEMENT_NODE && n.name == "SvgoIcon" && n.name !in declared
  }

  /** `SvgoIcon${pascalCase(camelCase(name))}`. */
  function ComponentName(name: string): string {
    "SvgoIcon" + PascalCase(CamelCase(name))
  }

  /** The camel-casing step changes nothing: the binding is `SvgoIcon` + Pascal(name). */
  lemma ComponentNameIsPascal(name: string)
    ensures ComponentName(name) == "SvgoIcon" + PascalCase(name)
  {
    PascalOfCamel(name);
  }

  /** The import a named icon pushes, without any check that the asset exists. */
  function ImportLine(name: string): string {
    "import " + ComponentName(name) + " from '~/assets/svg/" + name + ".svg?component'"
  }

  /** The clone that is rendered: renamed to the component, without `name` only. */
  function Renamed(n: Node): Node {
    n.(name := ComponentName(Attr(n, "name")), attributes := n.attributes - {"name"})
  }

  /** The clone keeps the node's kind, span and every attribute except `name`, `strategy` included. */
  lemma RenamedKeepsAttributes(n: Node)
    ensures Renamed(n).name == ComponentName(Attr(n, "name"))
    ensures Renamed(n).kind == n.kind && Renamed(n).start == n.start && Renamed(n).end == n.end
    ensures forall key :: key in Renamed(n).attributes <==> key in n.attributes && key != "name"
    ensures forall key :: key in Renamed(n).attributes ==> Renamed(n).attributes[key] == n.attributes[key]
  {
  }

  /** What a target node's span becomes: nothing without a name, else the rendered clone. */
  function Replacement(n: Node, sc: Scope): string {
    if Attr(n, "name") == "" then "" else sc.render(Renamed(n))
  }

  /** One call of the walk callback. */
  function Step(st: WalkState, n: Node, sc: Scope): WalkState {
    if st.stopped || !IsTarget(n, sc.declared) then st
    else
      var start := n.start + sc.offset;
      var end := n.end + sc.offset;
      var name := Attr(n, "name");
      if name == "" then
        match RemoveResult(st.edits, sc.len, start, end)
        case None => st.(stopped := true)
        case Some(es) => st.(edits := es)
      else
        var imports := st.imports + [ImportLine(name)];
        match OverwriteResult(st.edits, sc.len, start, end, sc.render(Renamed(n)))
        case None => WalkState(st.edits, imports, true)
        case Some(es) => WalkState(es, imports, false)
  }

  /** The walk over `nodes`, one whole callback at a time, in the order the callbacks start. */
  function Walk(st: WalkState, nodes: seq<Node>, sc: Scope): WalkState
    decreases |nodes|
  {
    if nodes == [] then st else Walk(Step(st, nodes[0], sc), nodes[1..], sc)
  }

  /**
   * Everything phase A decides for one file: nothing when the text lacks `SvgoIcon`, has
   * no template match or the template does not parse, else the walk over the parsed nodes.
   */
  function Rewrite(code: string, declared: set<string>, ast: Option<seq<Node>>, render: Node -> string): WalkState {
    if !Includes(code, "SvgoIcon") then Init
    else
      match TemplateMatch(code)
      case None => Init
      case Some((offset, _)) =>
        match ast
        case None => Init
        case Some(nodes) => Walk(Init, nodes, Scope(|code|, offset, declared, render))
  }

  // ---------------------------------------------------------------------------
  // What the walk guarantees
  // ---------------------------------------------------------------------------

  /** The import lines of the named target nodes, in the order their callbacks start, with repetitions. */
  function NamedImports(nodes: seq<Node>, declared: set<string>): seq<string>
    decreases |nodes|
  {
    if nodes == [] then []
    else NodeImports(nodes[0], declared) + NamedImports(nodes[1..], declared)
  }

  lemma {:induction false} NamedImportsAppend(a: seq<Node>, b: seq<Node>, declared: set<string>)
    ensures NamedImports(a + b, declared) == NamedImports(a, declared) + NamedImports(b, declared)
    decreases |a|
  {
    if a != [] {
      assert (a + b)[1..] == a[1..] + b;
      NamedImportsAppend(a[1..], b, declared);
    } else {
      assert a + b == b;
    }
  }

  lemma {:induction false} WalkStopped(st: WalkState, nodes: seq<Node>, sc: Scope)
    requires st.stopped
    ensures Walk(st, nodes, sc) == st
    decreases |nodes|
  {
    if nodes != [] {
      WalkStopped(Step(st, nodes[0], sc), nodes[1..], sc);
    }
  }

  /** The import lines one node contributes: its own line if it is a named target. */
  function NodeImports(n: Node, declared: set<string>): seq<string> {
    if IsTarget(n, declared) && Attr(n, "name") != "" then [ImportLine(Attr(n, "name"))] else []
  }

  /** A running walk pushes exactly the node's own lines. */
  lemma StepImports(st: WalkState, n: Node, sc: Scope)
    requires !st.stopped
    ensures Step(st, n, sc).imports == st.imports + NodeImports(n, sc.declared)
  {
  }

  /** A stopped walk stays stopped. */
  lemma StepStaysStopped(st: WalkState, n: Node, sc: Scope)
    ensures st.stopped ==> Step(st, n, sc) == st
  {
  }

  /**
   * A walk that magic-string never interrupts pushes exactly one import line per named
   * target node, in the order their callbacks start.
   */
  lemma {:induction false} WalkImportsInOrder(st: WalkState, nodes: seq<Node>, sc: Scope)
    requires !Walk(st, nodes, sc).stopped
    ensures Walk(st, nodes, sc).imports == st.imports + NamedImports(nodes, sc.declared)
    decreases |nodes|
  {
    if nodes == [] {
      assert st.imports + [] == st.imports;
    } else {
      var st' := Step(st, nodes[0], sc);
      assert Walk(st, nodes, sc) == Walk(st', nodes[1..], sc);
      StepStaysStopped(st, nodes[0], sc);
      if st'.stopped {
        WalkStopped(st', nodes[1..], sc);
        assert false;
      }
      StepImports(st, nodes[0], sc);
      WalkImportsInOrder(st', nodes[1..], sc);
      var d := sc.declared;
      var a, b, c := st.imports, NodeImports(nodes[0], d), NamedImports(nodes[1..], d);
      assert NamedImports(nodes, d) == b + c;
      assert (a + b) + c == a + (b + c);
    }
  }

  /**
   * Two uses of one icon name push its import line twice: the list is not deduplicated, so
   * the prepended block declares the same binding twice.
   */
  lemma RepeatedUseImportedTwice(nodes: seq<Node>, sc: Scope, j: nat, k: nat)
    requires j < k < |nodes|
    requires IsTarget(nodes[j], sc.declared) && IsTarget(nodes[k], sc.declared)
    requires Attr(nodes[j], "name") != "" && Attr(nodes[j], "name") == Attr(nodes[k], "name")
    requires !Walk(Init, nodes, sc).stopped
    ensures multiset(Walk(Init, nodes, sc).imports)[ImportLine(Attr(nodes[j], "name"))] >= 2
  {
    WalkImportsInOrder(Init, nodes, sc);
    NamedImportsTwice(nodes, sc.declared, j, k);
    assert [] + NamedImports(nodes, sc.declared) == NamedImports(nodes, sc.declared);
  }

  /** Two named targets with one name contribute its line twice. */
  lemma NamedImportsTwice(nodes: seq<Node>, d: set<string>, j: nat, k: nat)
    requires j < k < |nodes|
    requires IsTarget(nodes[j], d) && IsTarget(nodes[k], d)
    requires Attr(nodes[j], "name") != "" && Attr(nodes[j], "name") == Attr(nodes[k], "name")
    ensures multiset(NamedImports(nodes, d))[ImportLine(Attr(nodes[j], "name"))] >= 2
  {
    var rest, name := nodes[j + 1..], Attr(nodes[j], "name");
    NamedImportsSplit(nodes, d, j);
    assert rest[k - j - 1] == nodes[k];
    NamedImportsHas(rest, k - j - 1, d, name);
    CountedTwice(NamedImports(nodes[..j], d), ImportLine(name), NamedImports(rest, d));
  }

  /** The named imports around a named target: those before it, its line, those after it. */
  lemma NamedImportsSplit(nodes: seq<Node>, d: set<string>, j: nat)
    requires j < |nodes| && IsTarget(nodes[j], d) && Attr(nodes[j], "name") != ""
    ensures NamedImports(nodes, d)
         == NamedImports(nodes[..j], d) + ([ImportLine(Attr(nodes[j], "name"))] + NamedImports(nodes[j + 1..], d))
  {
    var x, rest := nodes[..j], nodes[j + 1..];
    assert nodes == x + ([nodes[j]] + rest);
    NamedImportsAppend(x, [nodes[j]] + rest, d);
    assert ([nodes[j]] + rest)[1..] == rest;
  }

  /** A line in front of a list that holds it again occurs twice in any extension. */
  lemma CountedTwice(a: seq<string>, line: string, b: seq<string>)
    requires line in b
    ensures multiset(a + ([line] + b))[line] >= 2
  {
    assert multiset(a + ([line] + b)) == multiset(a) + multiset{line} + multiset(b);
    assert line in multiset(b);
  }

  /** A named target node's line is among the named imports. */
  lemma {:induction false} NamedImportsHas(nodes: seq<Node>, i: nat, declared: set<string>, name: string)
    requires i < |nodes| && IsTarget(nodes[i], declared) && name != "" && Attr(nodes[i], "name") == name
    ensures ImportLine(name) in NamedImports(nodes, declared)
    decreases i
  {
    if i > 0 {
      NamedImportsHas(nodes[1..], i - 1, declared, name);
    }
  }

  /** The edit a target node's span receives. */
  ghost predicate EditOfTarget(e: Edit, nodes: seq<Node>, sc: Scope) {
    exists n :: n in nodes && IsTarget(n, sc.declared)
      && e == Edit(n.start + sc.offset, n.end + sc.offset, Replacement(n, sc))
  }

  /**
   * Only target nodes are edited: the walk only appends edits, and each edit it appends
   * covers a target's span with the rendered clone or with nothing.
   */
  lemma {:induction false} WalkEditsOnlyTargets(st: WalkState, nodes: seq<Node>, sc: Scope)
    ensures |st.edits| <= |Walk(st, nodes, sc).edits|
    ensures Walk(st, nodes, sc).edits[..|st.edits|] == st.edits
    ensures forall k :: |st.edits| <= k < |Walk(st, nodes, sc).edits| ==> EditOfTarget(Walk(st, nodes, sc).edits[k], nodes, sc)
    decreases |nodes|
  {
    if nodes != [] {
      var n := nodes[0];
      var st' := Step(st, n, sc);
      StepEdits(st, n, sc);
      WalkEditsOnlyTargets(st', nodes[1..], sc);
      var w := Walk(st', nodes[1..], sc);
      assert w == Walk(st, nodes, sc);
      assert w.edits[..|st.edits|] == w.edits[..|st'.edits|][..|st.edits|];
      forall k | |st.edits| <= k < |w.edits| ensures EditOfTarget(w.edits[k], nodes, sc) {
        if k < |st'.edits| {
          assert w.edits[k] == st'.edits[k];
          assert IsTarget(n, sc.declared);
        } else {
          assert EditOfTarget(w.edits[k], nodes[1..], sc);
          var m :| m in nodes[1..] && IsTarget(m, sc.declared)
            && w.edits[k] == Edit(m.start + sc.offset, m.end + sc.offset, Replacement(m, sc));
          assert m in nodes;
        }
      }
    }
  }

  /** One step only appends edits, each covering the node's span with its replacement. */
  lemma StepEdits(st: WalkState, n: Node, sc: Scope)
    ensures |st.edits| <= |Step(st, n, sc).edits| && Step(st, n, sc).edits[..|st.edits|] == st.edits
    ensures |st.edits| < |Step(st, n, sc).edits| ==> IsTarget(n, sc.declared)
    ensures forall k :: |st.edits| <= k < |Step(st, n, sc).edits| ==>
              Step(st, n, sc).edits[k] == Edit(n.start + sc.offset, n.end + sc.offset, Replacement(n, sc))
  {
  }

  /** A walk that magic-string never interrupts edits every target's non-empty span with its replacement. */
  lemma {:induction false} WalkCoversTargets(st: WalkState, nodes: seq<Node>, sc: Scope)
    requires !Walk(st, nodes, sc).stopped
    ensures forall n :: n in nodes && IsTarget(n, sc.declared) && n.start < n.end ==>
              Edit(n.start + sc.offset, n.end + sc.offset, Replacement(n, sc)) in Walk(st, nodes, sc).edits
    decreases |nodes|
  {
    if nodes != [] {
      var n := nodes[0];
      var st' := Step(st, n, sc);
      if st'.stopped {
        WalkStopped(st', nodes[1..], sc);
        assert false;
      }
      WalkCoversTargets(st', nodes[1..], sc);
      WalkEditsOnlyTargets(st', nodes[1..], sc);
      var w := Walk(st', nodes[1..], sc);
      if IsTarget(n, sc.declared) && n.start < n.end {
        var e := Edit(n.start + sc.offset, n.end + sc.offset, Replacement(n, sc));
        assert st'.edits[|st'.edits| - 1] == e;
        assert w.edits[..|st'.edits|] == st'.edits;
        assert w.edits[|st'.edits| - 1] == e;
      }
      forall m | m in nodes && IsTarget(m, sc.declared) && m.start < m.end
        ensures Edit(m.start + sc.offset, m.end + sc.offset, Replacement(m, sc)) in w.edits
      {
        if m != n { assert m in nodes[1..]; }
      }
    }
  }

  /** Every line a walk records is non-empty. */
  lemma {:induction false} WalkImportsNonEmpty(st: WalkState, nodes: seq<Node>, sc: Scope)
    requires forall x :: x in st.imports ==> x != ""
    ensures forall x :: x in Walk(st, nodes, sc).imports ==> x != ""
    decreases |nodes|
  {
    if nodes != [] {
      var st' := Step(st, nodes[0], sc);
      if !st.stopped {
        StepImports(st, nodes[0], sc);
        assert forall name :: ImportLine(name)[0] == 'i';
      }
      WalkImportsNonEmpty(st', nodes[1..], sc);
    }
  }

  // ---------------------------------------------------------------------------
  // The plugin
  // ---------------------------------------------------------------------------

  /**
   * The walk callback on one node: skip it, remove its span, or push its import line and
   * overwrite its span with the rendered clone. `stopped` is true where magic-string throws.
   */
  method VisitNode(s: MagicString, imports: seq<string>, n: Node, sc: Scope)
    returns (imports': seq<string>, stopped: bool)
    requires s.Valid() && sc.len == |s.original|
    modifies s
    ensures s.Valid() && s.intro == old(s.intro)
    ensures WalkState(s.edits, imports', stopped) == Step(WalkState(old(s.edits), imports, false), n, sc)
  {
    imports', stopped := imports, false;
    ghost var st := WalkState(s.edits, imports, false);
    if n.kind != ELEMENT_NODE || n.name != "SvgoIcon" || n.name in sc.declared {
      return;
    }
    var name := Attr(n, "name");
    var start := n.start + sc.offset;
    var end := n.end + sc.offset;
    if name == "" {
      ghost var rr := RemoveResult(s.edits, sc.len, start, end);
      assert Step(st, n, sc) == if rr.None? then st.(stopped := true) else st.(edits := rr.value);
      var ok := s.Remove(start, end);
      stopped := !ok;
      return;
    }
    var component := ComponentName(name);
    imports' := imports' + ["import " + component + " from '~/assets/svg/" + name + ".svg?component'"];
    var cloned := n.(name := component, attributes := n.attributes - {"name"});
    assert cloned == Renamed(n);
    ghost var ow := OverwriteResult(s.edits, sc.len, start, end, sc.render(cloned));
    assert Step(st, n, sc) == if ow.None? then WalkState(st.edits, imports', true) else WalkState(ow.value, imports', false);
    var ok := s.Overwrite(start, end, sc.render(cloned));
    stopped := !ok;
  }

  /**
   * `walk(ast, callback)` inside the handler's try block: the nodes are visited in order
   * until a callback throws. Returns the import lines pushed.
   */
  method WalkTemplate(s: MagicString, nodes: seq<Node>, sc: Scope) returns (imports: seq<string>)
    requires s.Valid() && s.edits == [] && sc.len == |s.original|
    modifies s
    ensures s.Valid() && s.intro == old(s.intro)
    ensures WalkState(s.edits, imports, Walk(Init, nodes, sc).stopped) == Walk(Init, nodes, sc)
  {
    imports := [];
    var stopped := false;
    var i := 0;
    while i < |nodes| && !stopped
      invariant 0 <= i <= |nodes|
      invariant s.Valid() && s.intro == old(s.intro)
      invariant Walk(Init, nodes, sc) == Walk(WalkState(s.edits, imports, stopped), nodes[i..], sc)
    {
      assert nodes[i..] == [nodes[i]] + nodes[i + 1..];
      imports, stopped := VisitNode(s, imports, nodes[i], sc);
      i := i + 1;
    }
    if stopped {
      WalkStopped(WalkState(s.edits, imports, stopped), nodes[i..], sc);
    }
  }

  class ResolverPlugin {
    const exclude: seq<string -> bool>
    const includes: seq<string -> bool>
    /** Per file id, the import lines phase A pushed, joined by newlines. */
    var bucket: map<string, string>

    /** Every stored entry holds at least one import line. */
    ghost predicate Valid()
      reads this
    {
      forall id :: id in bucket ==> bucket[id] != ""
    }

    constructor (exclude: seq<string -> bool>, includes: seq<string -> bool>)
      ensures this.exclude == exclude && this.includes == includes && bucket == map[]
      ensures Valid()
    {
      this.exclude := exclude;
      this.includes := includes;
      bucket := map[];
    }

    /** `transformInclude(id)`, the same for both passes and the same as the transform plugin's. */
    function Include(id: string, p: ParsedId): (r: bool)
    {
      TransformInclude(exclude, includes, id, p)
    }

    /**
     * Phase A `handler(code, id)`. `declared` is what the scope tracker learned from the
     * script blocks, `ast` lists the nodes of `parse(template)` in the order the walk
     * starts their callbacks (None when parsing throws) and `render` is ultrahtml's
     * `render`. Code without a template match never reaches the handler, because of the
     * hook's `filter`; the handler's own template check gives that code the same outcome:
     * no output and no bucket entry.
     */
    method PhaseA(code: string, id: string, declared: set<string>, ast: Option<seq<Node>>,
                  render: Node -> string) returns (r: Option<string>)
      requires Valid()
      modifies this
      ensures Valid()
      ensures var out := Rewrite(code, declared, ast, render);
        bucket == Stored(old(bucket), id, out.imports) && r == Output(code, out.edits)
      ensures !Includes(code, "SvgoIcon") ==> r == None && bucket == old(bucket)
      ensures TemplateMatch(code).None? ==> r == None && bucket == old(bucket)
    {
      if !Includes(code, "SvgoIcon") {
        ApplyNoEdits(code);
        return None;
      }
      var tm := TemplateMatch(code);
      if tm.None? {
        ApplyNoEdits(code);
        return None;
      }
      var s := new MagicString(code);
      var imports: seq<string> := [];
      ghost var out := Init;
      if ast.Some? {
        var sc := Scope(|code|, tm.value.0, declared, render);
        imports := WalkTemplate(s, ast.value, sc);
        WalkImportsNonEmpty(Init, ast.value, sc);
        out := Walk(Init, ast.value, sc);
        assert forall x :: x in imports ==> x != "";
      } else {
        ApplyNoEdits(code);
      }
      assert out == Rewrite(code, declared, ast, render);
      assert s.edits == out.edits && imports == out.imports && s.intro == "";
      if imports != [] {
        assert imports[0] in out.imports;
        JoinNonEmpty(imports, "\n");
        bucket := bucket[id := Join(imports, "\n")];
      }
      assert s.ToString() == Apply(code, out.edits);
      if s.HasChanged() {
        r := Some(s.ToString());
      } else {
        r := None;
      }
    }

    /**
     * Phase B `handler(code, id)`. `matches` are the matches of the `resolveComponent`
     * pattern in `code`, each capturing the `SvgoIcon…` name, which replaces the call.
     */
    method PhaseB(code: string, id: string, matches: seq<Match>) returns (r: Option<string>)
      requires Ordered(code, matches)
      ensures id !in bucket ==> r == None
      ensures id in bucket && bucket[id] != "" ==> r == Some(bucket[id] + "\n" + ReplaceAll(code, matches, ""))
      ensures id in bucket && bucket[id] == "" ==> r == Some(code)
    {
      if id !in bucket {
        return None;
      }
      var s := new MagicString(code);
      var imports := bucket[id];
      if imports != "" {
        s.Prepend(imports + "\n");
        assert s.intro == imports + "\n";
        s.ReplaceMatches(matches, "");
        assert s.ToString() == imports + "\n" + ReplaceAll(code, matches, "");
      } else {
        ApplyNoEdits(code);
        assert s.ToString() == code;
      }
      r := Some(s.ToString());
    }
  }
}
