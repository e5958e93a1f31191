// The tree-sitter syntax tree of a Nix file, as far as the two package-list
// walks look at it, and the keyword filter both walks apply afterwards.

module PackageTree {
  import opened Text

  /** The node types the walks tell apart; every other type is `OtherKind`.
      A node's kind is `KindOf` its type name, so an `OtherKind` never
      carries one of the six names in `NamedTypes`. */
  datatype Kind =
    | ListExpression
    | ParenthesizedExpression
    | VariableExpression
    | Identifier
    | ApplyExpression
    | SelectExpression
    | OtherKind(name: string)

  /** The type names the walks compare `node.type` with. */
  const NamedTypes: set<string> :=
    {"list_expression", "parenthesized_expression", "variable_expression",
     "identifier", "apply_expression", "select_expression"}

  /** The tree-sitter type name of a kind. */
  function TypeName(k: Kind): string {
    match k
    case ListExpression => "list_expression"
    case ParenthesizedExpression => "parenthesized_expression"
    case VariableExpression => "variable_expression"
    case Identifier => "identifier"
    case ApplyExpression => "apply_expression"
    case SelectExpression => "select_expression"
    case OtherKind(name) => name
  }

  /** A kind as `KindOf` builds it: `OtherKind` only for the other names. */
  predicate Canonical(k: Kind) {
    k.OtherKind? ==> k.name !in NamedTypes
  }

  /** The kind of a node whose `node.type` is `name`. */
  function KindOf(name: string): (k: Kind)
    ensures TypeName(k) == name && Canonical(k)
  {
    if name == "list_expression" then ListExpression
    else if name == "parenthesized_expression" then ParenthesizedExpression
    else if name == "variable_expression" then VariableExpression
    else if name == "identifier" then Identifier
    else if name == "apply_expression" then ApplyExpression
    else if name == "select_expression" then SelectExpression
    else OtherKind(name)
  }

  /** Each canonical kind is the kind of its own type name, so a test
      `node.type == "list_expression"` is the test `kind == ListExpression`. */
  lemma KindOfTypeName(k: Kind)
    requires Canonical(k)
    ensures KindOf(TypeName(k)) == k
  {
  }

  /** A node with its children and the source text it spans. */
  datatype Node = Node(kind: Kind, children: seq<Node>, text: string)

  /** Pre-order texts of all identifier nodes: the reference for what a walk may report. */
  function AllIdentifiers(n: Node): seq<string>
    decreases n
  {
    (if n.kind == Identifier then [n.text] else []) + AllIdentifiersOf(n.children)
  }

  function AllIdentifiersOf(cs: seq<Node>): seq<string>
    decreases cs
  {
    if cs == [] then [] else AllIdentifiers(cs[0]) + AllIdentifiersOf(cs[1..])
  }

  /** Whether a list expression occurs anywhere in the tree. */
  predicate HasList(n: Node)
    decreases n
  {
    n.kind == ListExpression || HasListIn(n.children)
  }

  predicate HasListIn(cs: seq<Node>)
    decreases cs
  {
    cs != [] && (HasList(cs[0]) || HasListIn(cs[1..]))
  }

  lemma {:induction false} HasListInIff(cs: seq<Node>)
    ensures HasListIn(cs) <==> exists k :: 0 <= k < |cs| && HasList(cs[k])
  {
    if cs != [] {
      HasListInIff(cs[1..]);
      if HasListIn(cs[1..]) {
        var k :| 0 <= k < |cs[1..]| && HasList(cs[1..][k]);
        assert cs[k + 1] == cs[1..][k];
      }
      forall k | 1 <= k < |cs| && HasList(cs[k]) ensures HasListIn(cs[1..]) {
        assert cs[1..][k - 1] == cs[k];
      }
    }
  }

  /**
   * A tree without calls whose identifiers are leaves: there the older walk
   * reports every identifier below a list.
   */
  predicate Plain(n: Node)
    decreases n
  {
    n.kind != ApplyExpression
    && (n.kind == Identifier ==> n.children == [])
    && forall k :: 0 <= k < |n.children| ==> Plain(n.children[k])
  }

  /** A variable reference `name` as it appears in a package list. */
  function Var(name: string): Node {
    Node(VariableExpression, [Node(Identifier, [], name)], name)
  }

  function Vars(names: seq<string>): (r: seq<Node>)
    ensures |r| == |names|
  {
    if names == [] then [] else [Var(names[0])] + Vars(names[1..])
  }

  /** The list expression `[ a b c ]` of plain variable references. */
  function PlainList(names: seq<string>, text: string): Node {
    Node(ListExpression, Vars(names), text)
  }

  lemma {:induction false} AllIdentifiersOfAppend(a: seq<Node>, b: seq<Node>)
    ensures AllIdentifiersOf(a + b) == AllIdentifiersOf(a) + AllIdentifiersOf(b)
  {
    if a != [] {
      assert (a + b)[1..] == a[1..] + b;
      assert (a + b)[0] == a[0];
      AllIdentifiersOfAppend(a[1..], b);
    } else {
      assert a + b == b;
    }
  }

  /** The identifiers below a child are among those below its parent's children. */
  lemma {:induction false} ChildIdentifiers(cs: seq<Node>, k: nat, x: string)
    requires k < |cs| && x in AllIdentifiers(cs[k])
    ensures x in AllIdentifiersOf(cs)
  {
    assert cs == cs[..k] + [cs[k]] + cs[k + 1..];
    AllIdentifiersOfAppend(cs[..k] + [cs[k]], cs[k + 1..]);
    AllIdentifiersOfAppend(cs[..k], [cs[k]]);
    assert AllIdentifiersOf([cs[k]]) == AllIdentifiers(cs[k]) + AllIdentifiersOf([]);
  }

  /**
   * `extract_base_pkg`: the text of the identifier at the end of an
   * apply -> select -> variable -> identifier chain of first children, as in
   * `python3.withPackages (ps: ...)`.
   */
  function ExtractBasePkg(n: Node): (r: Option<string>)
    ensures r.Some? ==> n.kind == ApplyExpression && r.value in AllIdentifiers(n)
  {
    if n.kind == ApplyExpression && |n.children| > 0 then
      var sel := n.children[0];
      if sel.kind == SelectExpression && |sel.children| > 0 then
        var v := sel.children[0];
        if v.kind == VariableExpression && |v.children| > 0 then
          var ident := v.children[0];
          if ident.kind == Identifier then
            BaseIsIdentifier(n);
            Some(ident.text)
          else None
        else None
      else None
    else None
  }

  lemma BaseIsIdentifier(n: Node)
    requires |n.children| > 0 && |n.children[0].children| > 0
    requires |n.children[0].children[0].children| > 0
    requires n.children[0].children[0].children[0].kind == Identifier
    ensures n.children[0].children[0].children[0].text in AllIdentifiers(n)
  {
    var sel := n.children[0];
    var v := sel.children[0];
    var ident := v.children[0];
    assert ident.text in AllIdentifiers(ident);
    ChildIdentifiers(v.children, 0, ident.text);
    ChildIdentifiers(sel.children, 0, ident.text);
    ChildIdentifiers(n.children, 0, ident.text);
  }

  /** `base.attr args`, the call shape whose base names a package. */
  function SelectCall(base: string, attrs: seq<Node>, args: seq<Node>): Node {
    var ident := Node(Identifier, [], base);
    var v := Node(VariableExpression, [ident], base);
    Node(ApplyExpression, [Node(SelectExpression, [v] + attrs, base)] + args, base)
  }

  /** A call on a selected attribute reports its base name, whatever the arguments. */
  lemma BaseOfSelectCall(base: string, attrs: seq<Node>, args: seq<Node>)
    ensures ExtractBasePkg(SelectCall(base, attrs, args)) == Some(base)
  {
  }

  // ---------------------------------------------------------------------------
  // Keyword filter
  // ---------------------------------------------------------------------------

  /** Nix keywords and non-package identifiers dropped from the walk's output. */
  const SkipWords: set<string> := {"with", "pkgs", "let", "in", "ps", "rec"}

  /** `[p for p in names if p not in skip]`. */
  function RemoveSkipped(names: seq<string>): (r: seq<string>)
    ensures |r| <= |names|
    ensures forall i :: 0 <= i < |r| ==> r[i] !in SkipWords
  {
    if names == [] then []
    else (if names[0] in SkipWords then [] else [names[0]]) + RemoveSkipped(names[1..])
  }

  /** The filter keeps every other name with all its duplicates. */
  lemma {:induction false} RemoveSkippedCounts(names: seq<string>, x: string)
    ensures multiset(RemoveSkipped(names))[x] == if x in SkipWords then 0 else multiset(names)[x]
  {
    if names != [] {
      RemoveSkippedCounts(names[1..], x);
      assert names == [names[0]] + names[1..];
    }
  }

  /** The filter works piece by piece, so the walk's order is kept. */
  lemma {:induction false} RemoveSkippedAppend(a: seq<string>, b: seq<string>)
    ensures RemoveSkipped(a + b) == RemoveSkipped(a) + RemoveSkipped(b)
  {
    if a != [] {
      assert (a + b)[0] == a[0] && (a + b)[1..] == a[1..] + b;
      RemoveSkippedAppend(a[1..], b);
    } else {
      assert a + b == b;
    }
  }
}
