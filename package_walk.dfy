// The package-list walk of the older marginal-cost report
// (`extract_identifiers`): a recursive procedure that appends every
// identifier it meets while inside a list to the enclosing `packages` list.

module PackageWalk {
  import opened Text
  import opened PackageTree
  import NixPackageWalk

  /** The names `extract_identifiers(node, in_list)` appends, in append order. */
  function Identifiers(n: Node, inList: bool): seq<string>
    decreases n
  {
    if n.kind == ListExpression then IdentifiersOf(n.children, true)
    else if n.kind == ParenthesizedExpression && inList then IdentifiersOf(n.children, true)
    else if n.kind == Identifier && inList then [n.text]
    else if n.kind == ApplyExpression && inList then
      match ExtractBasePkg(n)
      case Some(p) => [p]
      case None => []
    else IdentifiersOf(n.children, inList)
  }

  /** The names appended by visiting the children `cs`, first to last. */
  function IdentifiersOf(cs: seq<Node>, inList: bool): seq<string>
    decreases cs
  {
    if cs == [] then [] else IdentifiersOf(cs[..|cs| - 1], inList) + Identifiers(cs[|cs| - 1], inList)
  }

  /** The `packages` list the nested walk appends to. */
  class PackageCollector {
    var packages: seq<string>

    constructor ()
      ensures packages == []
    {
      packages := [];
    }

    /** `extract_identifiers(node, in_list)`. */
    method Extract(n: Node, inList: bool)
      modifies this
      ensures packages == old(packages) + Identifiers(n, inList)
      decreases n
    {
      if n.kind == ListExpression {
        ExtractAll(n.children, true);
      } else if n.kind == ParenthesizedExpression && inList {
        ExtractAll(n.children, true);
      } else if n.kind == Identifier && inList {
        packages := packages + [n.text];
      } else if n.kind == ApplyExpression && inList {
        var base := ExtractBasePkg(n);
        if base.Some? {
          packages := packages + [base.value];
        }
      } else {
        ExtractAll(n.children, inList);
      }
    }

    /** `for child in node.children: extract_identifiers(child, in_list)`. */
    method ExtractAll(cs: seq<Node>, inList: bool)
      modifies this
      ensures packages == old(packages) + IdentifiersOf(cs, inList)
      decreases cs, 0
    {
      var k := 0;
      while k < |cs|
        invariant 0 <= k <= |cs|
        invariant packages == old(packages) + IdentifiersOf(cs[..k], inList)
      {
        assert cs[..k + 1][..k] == cs[..k];
        Extract(cs[k], inList);
        k := k + 1;
      }
      assert cs[..k] == cs;
    }
  }

  /** `parse_packages_from_nix`: walk from the root, then drop the keywords. */
  method ParsePackages(root: Node) returns (packages: seq<string>)
    ensures packages == RemoveSkipped(Identifiers(root, false))
    ensures forall i :: 0 <= i < |packages| ==> packages[i] !in SkipWords
  {
    var collector := new PackageCollector();
    collector.Extract(root, false);
    assert collector.packages == [] + Identifiers(root, false) == Identifiers(root, false);
    packages := RemoveSkipped(collector.packages);
  }

  lemma {:induction false} IdentifiersOfAppend(a: seq<Node>, b: seq<Node>, inList: bool)
    ensures IdentifiersOf(a + b, inList) == IdentifiersOf(a, inList) + IdentifiersOf(b, inList)
    decreases |b|
  {
    if b == [] {
      assert a + b == a;
    } else {
      var init := b[..|b| - 1];
      assert (a + b)[..|a + b| - 1] == a + init;
      assert (a + b)[|a + b| - 1] == b[|b| - 1];
      IdentifiersOfAppend(a, init, inList);
    }
  }

  /** The children's names, first child first. */
  lemma IdentifiersOfFront(cs: seq<Node>, inList: bool)
    requires cs != []
    ensures IdentifiersOf(cs, inList) == Identifiers(cs[0], inList) + IdentifiersOf(cs[1..], inList)
  {
    assert cs == [cs[0]] + cs[1..];
    IdentifiersOfAppend([cs[0]], cs[1..], inList);
    assert IdentifiersOf([cs[0]], inList) == IdentifiersOf([], inList) + Identifiers(cs[0], inList);
  }

  /** Outside every list the walk only descends: a tree without lists yields nothing. */
  lemma {:induction false} NoListNoNames(n: Node)
    requires !HasList(n)
    ensures Identifiers(n, false) == []
    decreases n
  {
    HasListInIff(n.children);
    NoListNoNamesIn(n.children);
  }

  lemma {:induction false} NoListNoNamesIn(cs: seq<Node>)
    requires forall k :: 0 <= k < |cs| ==> !HasList(cs[k])
    ensures IdentifiersOf(cs, false) == []
    decreases cs
  {
    if cs != [] {
      NoListNoNames(cs[|cs| - 1]);
      NoListNoNamesIn(cs[..|cs| - 1]);
    }
  }

  /**
   * Once inside a list the flag is passed down through every other node, so
   * in a tree without calls every identifier is reported, in pre-order.
   */
  lemma {:induction false} InListCollectsAll(n: Node)
    requires Plain(n)
    ensures Identifiers(n, true) == AllIdentifiers(n)
    decreases n
  {
    if n.kind != Identifier {
      InListCollectsAllIn(n.children);
    }
  }

  lemma {:induction false} InListCollectsAllIn(cs: seq<Node>)
    requires forall k :: 0 <= k < |cs| ==> Plain(cs[k])
    ensures IdentifiersOf(cs, true) == AllIdentifiersOf(cs)
    decreases cs
  {
    if cs != [] {
      var init, last := cs[..|cs| - 1], cs[|cs| - 1];
      InListCollectsAll(last);
      InListCollectsAllIn(init);
      assert cs == init + [last];
      AllIdentifiersOfAppend(init, [last]);
      assert AllIdentifiersOf([last]) == AllIdentifiers(last) + AllIdentifiersOf([]);
    }
  }

  /** A call inside a list reports its base name only; its arguments are not visited. */
  lemma CallArgumentsSkipped(base: string, attrs: seq<Node>, args: seq<Node>)
    ensures Identifiers(SelectCall(base, attrs, args), true) == [base]
  {
    BaseOfSelectCall(base, attrs, args);
  }

  /** Every name the newer walk reports, the older one reports as often or more. */
  lemma {:induction false} NewerWithinOlder(n: Node, inList: bool)
    ensures multiset(NixPackageWalk.Collect(n, inList)) <= multiset(Identifiers(n, inList))
    decreases n
  {
    if n.kind == ListExpression {
      NewerWithinOlderIn(n.children, true);
    } else if inList && n.kind == VariableExpression && |n.children| > 0 {
      IdentifiersOfFront(n.children, true);
    } else if inList && n.kind == ParenthesizedExpression {
      NewerWithinOlderIn(n.children, true);
    } else if !inList {
      NewerWithinOlderIn(n.children, false);
    }
  }

  lemma {:induction false} NewerWithinOlderIn(cs: seq<Node>, inList: bool)
    ensures multiset(NixPackageWalk.CollectAll(cs, inList)) <= multiset(IdentifiersOf(cs, inList))
    decreases cs
  {
    if cs != [] {
      NewerWithinOlder(cs[0], inList);
      NewerWithinOlderIn(cs[1..], inList);
      IdentifiersOfFront(cs, inList);
    }
  }

  /** `pkgs.hello`: the variable `pkgs` with the attribute path `hello`. */
  function PkgsHello(): Node {
    Node(SelectExpression, [Var("pkgs"), Node(OtherKind("attrpath"), [Node(Identifier, [], "hello")], "hello")], "pkgs.hello")
  }

  /** The package list `[ git pkgs.hello ]`. */
  function GitAndHello(): Node {
    Node(ListExpression, [Var("git"), PkgsHello()], "[ git pkgs.hello ]")
  }

  /** The newer walk ignores selected attributes in a list: `[ git pkgs.hello ]` gives `git`. */
  lemma NewerIgnoresSelected()
    ensures NixPackageWalk.ParsePackages(GitAndHello()) == ["git"]
  {
    assert NixPackageWalk.Collect(PkgsHello(), true) == [];
    assert NixPackageWalk.CollectAll([PkgsHello()], true) == [];
    assert NixPackageWalk.CollectAll([Var("git"), PkgsHello()], true) == ["git"];
    assert "git" !in SkipWords;
    assert RemoveSkipped(["git"]) == ["git"];
  }

  lemma OlderWalksSelected()
    ensures Identifiers(GitAndHello(), false) == ["git", "pkgs", "hello"]
  {
    var attr := Node(OtherKind("attrpath"), [Node(Identifier, [], "hello")], "hello");
    IdentifiersOfFront([Var("pkgs"), attr], true);
    IdentifiersOfFront([Node(Identifier, [], "hello")], true);
    assert Identifiers(PkgsHello(), true) == ["pkgs", "hello"];
    IdentifiersOfFront([Var("git")], true);
    IdentifiersOfFront([Var("git"), PkgsHello()], true);
  }

  /**
   * The older walk reports `hello` from `[ git pkgs.hello ]` as well (dropping
   * `pkgs` as a keyword).
   */
  lemma OlderReportsSelected()
    ensures RemoveSkipped(Identifiers(GitAndHello(), false)) == ["git", "hello"]
  {
    OlderWalksSelected();
    var names: seq<string> := ["git", "pkgs", "hello"];
    assert names[1..][1..] == ["hello"] && names[1..] == ["pkgs", "hello"];
    assert "hello" !in SkipWords && "git" !in SkipWords && "pkgs" in SkipWords;
    assert RemoveSkipped(["hello"]) == ["hello"];
    assert RemoveSkipped(["pkgs", "hello"]) == ["hello"];
  }
}
