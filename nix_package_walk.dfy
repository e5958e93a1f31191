// The package-list walk of the tree-sitter based marginal-cost report
// (`collect`): names come only from list elements that are plain variables,
// parenthesised elements, or calls on a selected attribute of a variable.

module NixPackageWalk {
  import opened Text
  import opened PackageTree

  /** `collect(node, in_list)`: the names the generator yields, in order. */
  function Collect(n: Node, inList: bool): seq<string>
    decreases n
  {
    if n.kind == ListExpression then CollectAll(n.children, true)
    else if inList then
      if n.kind == VariableExpression && |n.children| > 0 then
        if n.children[0].kind == Identifier then [n.children[0].text] else []
      else if n.kind == ParenthesizedExpression then CollectAll(n.children, true)
      else if n.kind == ApplyExpression then
        match ExtractBasePkg(n)
        case Some(p) => if p != "" then [p] else []
        case None => []
      else []
    else CollectAll(n.children, false)
  }

  /** `for child in children: yield from collect(child, in_list)`. */
  function CollectAll(cs: seq<Node>, inList: bool): seq<string>
    decreases cs
  {
    if cs == [] then [] else Collect(cs[0], inList) + CollectAll(cs[1..], inList)
  }

  /** `parse_packages_from_nix`: the walk from the root, keywords removed. */
  function ParsePackages(root: Node): (r: seq<string>)
    ensures forall i :: 0 <= i < |r| ==> r[i] !in SkipWords
  {
    RemoveSkipped(Collect(root, false))
  }

  /** Outside every list the walk only descends: a tree without lists yields nothing. */
  lemma {:induction false} NoListNoNames(n: Node)
    requires !HasList(n)
    ensures Collect(n, false) == []
    decreases n
  {
    NoListNoNamesIn(n.children);
  }

  lemma {:induction false} NoListNoNamesIn(cs: seq<Node>)
    requires !HasListIn(cs)
    ensures CollectAll(cs, false) == []
    decreases cs
  {
    if cs != [] {
      NoListNoNames(cs[0]);
      NoListNoNamesIn(cs[1..]);
    }
  }

  /** Every name the walk yields is the text of an identifier in the tree. */
  lemma {:induction false} CollectedAreIdentifiers(n: Node, inList: bool, x: string)
    requires x in Collect(n, inList)
    ensures x in AllIdentifiers(n)
    decreases n
  {
    if n.kind == ListExpression || n.kind == ParenthesizedExpression || !inList {
      CollectedAreIdentifiersIn(n.children, n.kind == ListExpression || inList, x);
    } else if n.kind == VariableExpression {
      var ident := n.children[0];
      assert x == ident.text && x in AllIdentifiers(ident);
      ChildIdentifiers(n.children, 0, x);
    }
  }

  lemma {:induction false} CollectedAreIdentifiersIn(cs: seq<Node>, inList: bool, x: string)
    requires x in CollectAll(cs, inList)
    ensures x in AllIdentifiersOf(cs)
    decreases cs
  {
    assert cs != [];
    if x in Collect(cs[0], inList) {
      CollectedAreIdentifiers(cs[0], inList, x);
    } else {
      CollectedAreIdentifiersIn(cs[1..], inList, x);
    }
  }

  lemma {:induction false} VarsCollected(names: seq<string>)
    ensures CollectAll(Vars(names), true) == names
  {
    if names != [] {
      VarsCollected(names[1..]);
    }
  }

  /** A list of plain package references is reported as written, duplicates included. */
  lemma PlainListAsWritten(names: seq<string>, text: string)
    ensures Collect(PlainList(names, text), false) == names
  {
    VarsCollected(names);
  }
}
