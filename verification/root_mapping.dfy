/**
 Root mapping and root distance of exp/make_exp.py: which node of the true
 tree an inferred tree's root bipartition corresponds to
 (`get_mapped_node`), and how far the inferred root is from the true one
 in hops (`get_root_distance_toplogical`).
 */
module RootMapping {
  import opened Results
  import opened Trees
  import opened Sorting

  /** The exceptions the code lets escape. */
  datatype TreeError =
    | IndexError                 // the root has fewer than two children
    | NodeNotFound(name: string) // a name of a clade is absent from the true tree
    | NotConnected               // an empty clade has no common ancestor
    | AmbiguousName(name: string) // two nodes of the true tree carry a name of the clade

  /** The non-empty names of a list, in order. */
  function NonEmpty(names: seq<string>): (r: seq<string>)
    ensures forall x :: multiset(r)[x] == if x == "" then 0 else multiset(names)[x]
  {
    if |names| == 0 then []
    else
      assert names == [names[0]] + names[1..];
      (if names[0] == "" then [] else [names[0]]) + NonEmpty(names[1..])
  }

  /**
   `get_left_clade` (`i == 0`) and `get_right_clade` (`i == 1`): the sorted
   non-empty names of every node under child `i` of the root.
   */
  function Clade(t: Tree, i: nat): (r: Result<seq<string>, TreeError>)
    ensures r.Ok? <==> i < |t.children|
    ensures r.Ok? ==> Sorted(r.value)
    ensures r.Ok? ==> multiset(r.value) == multiset(NonEmpty(Names(t.children[i])))
    ensures r.Ok? ==> forall x :: x in r.value <==> x != "" && exists p :: NamedAt(t.children[i], p, x)
  {
    if i < |t.children| then
      var names := Names(t.children[i]);
      var c := Sort(NonEmpty(names));
      assert forall x :: x in c <==> x != "" && x in names by {
        forall x ensures x in c <==> x != "" && x in names {
          assert x in c <==> x in multiset(c);
          NamesExact(t.children[i], x);
        }
      }
      forall x ensures x in names <==> exists p :: NamedAt(t.children[i], p, x) {
        NamesExact(t.children[i], x);
      }
      Ok(c)
    else Err(IndexError)
  }

  /** `get_root_clades`: both clades, or the `IndexError` of a root with fewer than two children. */
  function RootClades(t: Tree): (r: Result<(seq<string>, seq<string>), TreeError>)
    ensures r.Ok? <==> |t.children| >= 2
    ensures r.Ok? ==> r.value == (Clade(t, 0).value, Clade(t, 1).value)
  {
    match Clade(t, 0)
    case Err(e) => Err(e)
    case Ok(left) =>
      match Clade(t, 1)
      case Err(e) => Err(e)
      case Ok(right) => Ok((left, right))
  }

  /** Look every name up in `t`, failing on the first one it does not carry. */
  function FindAll(t: Tree, names: seq<string>): (r: Result<seq<Path>, TreeError>)
    ensures r.Ok? <==> forall x :: x in names ==> Find(t, x).Some?
    ensures r.Ok? ==> |r.value| == |names| && forall k :: 0 <= k < |names| ==> Find(t, names[k]) == Some(r.value[k])
  {
    if |names| == 0 then Ok([])
    else match Find(t, names[0])
      case None =>
        assert names[0] in names;
        Err(NodeNotFound(names[0]))
      case Some(p) =>
        match FindAll(t, names[1..])
        case Err(e) =>
          assert forall x :: x in names[1..] ==> x in names;
          Err(e)
        case Ok(ps) =>
          assert forall x :: x in names ==> x == names[0] || x in names[1..];
          Ok([p] + ps)
  }

  /** The first name of `names` that two nodes of `t` carry, if any. */
  function FirstAmbiguous(t: Tree, names: seq<string>): (r: Option<string>)
    ensures r.Some? <==> exists x :: x in names && Ambiguous(t, x)
    ensures r.Some? ==> r.value in names && Ambiguous(t, r.value)
  {
    if |names| == 0 then None
    else if Ambiguous(t, names[0]) then Some(names[0])
    else
      assert forall x :: x in names ==> x == names[0] || x in names[1..];
      FirstAmbiguous(t, names[1..])
  }

  /** Every entry of the clade is one and the same name. */
  predicate OneName(clade: seq<string>) {
    |clade| > 0 && forall k :: 0 <= k < |clade| ==> clade[k] == clade[0]
  }

  /**
   `extract_node_with_clade`: a one-name clade is looked up by name; any other
   clade goes to ete3's `get_common_ancestor`. That first turns the names
   into nodes, keeping each distinct name once: it refuses a name two nodes
   carry before it looks for missing names. Several distinct nodes resolve
   to their lowest common ancestor; a single node left over (a clade that
   repeats one name) is paired with the tree's own root, so the clade
   resolves to the root.
   */
  function ExtractNodeWithClade(t: Tree, clade: seq<string>): (r: Result<Path, TreeError>)
    ensures r.Ok? ==> IsNode(t, r.value)
    ensures |clade| == 1 ==> (r.Ok? <==> exists p :: NamedAt(t, p, clade[0]))
    ensures |clade| == 1 && r.Ok? ==> NamedAt(t, r.value, clade[0])
    ensures |clade| != 1 ==>
              (r.Ok? <==> |clade| > 0 && forall x :: x in clade ==> (exists p :: NamedAt(t, p, x)) && !Ambiguous(t, x))
    ensures |clade| != 1 && (exists x :: x in clade && Ambiguous(t, x)) ==> r.Err? && r.error.AmbiguousName?
    ensures |clade| != 1 && r.Ok? ==> forall x :: x in clade ==> Find(t, x).Some? && r.value <= Find(t, x).value
    ensures |clade| != 1 && OneName(clade) && r.Ok? ==> r.value == []
  {
    if |clade| == 1 then
      FindCorrect(t, clade[0]);
      match Find(t, clade[0])
      case Some(p) => Ok(p)
      case None => Err(NodeNotFound(clade[0]))
    else if FirstAmbiguous(t, clade).Some? then Err(AmbiguousName(FirstAmbiguous(t, clade).value))
    else
      forall x ensures Find(t, x).Some? <==> exists p :: NamedAt(t, p, x) {
        FindCorrect(t, x);
      }
      match FindAll(t, clade)
      case Err(e) => Err(e)
      case Ok(ps) =>
        if |ps| == 0 then Err(NotConnected)
        else if OneName(clade) then
          assert Subtree(t, []) == Some(t);
          Ok([])
        else
          var c := CommonAncestor(ps);
          FindCorrect(t, clade[0]);
          SubtreePrefix(t, ps[0], c);
          assert forall x :: x in clade ==> exists k :: 0 <= k < |clade| && clade[k] == x;
          Ok(c)
  }

  /**
   A clade of at least two distinct names, none of them ambiguous and all
   found, resolves to the common ancestor of what was found.
   */
  lemma ResolvesToCommonAncestor(t: Tree, clade: seq<string>, ps: seq<Path>)
    requires |clade| > 1 && !OneName(clade) && FirstAmbiguous(t, clade) == None && FindAll(t, clade) == Ok(ps)
    ensures |ps| > 0 && ExtractNodeWithClade(t, clade) == Ok(CommonAncestor(ps))
  {
  }

  /**
   A clade that repeats one name, carried by exactly one node, resolves to
   the root however deep that node lies.
   */
  lemma RepeatedNameResolvesToRoot(t: Tree, clade: seq<string>)
    requires |clade| > 1 && OneName(clade)
    requires (exists p :: NamedAt(t, p, clade[0])) && !Ambiguous(t, clade[0])
    ensures ExtractNodeWithClade(t, clade) == Ok([])
  {
    assert forall x :: x in clade ==> x == clade[0];
  }

  /** For a clade of at least two distinct names the resolved node is the lowest node above all of them. */
  lemma ExtractNodeIsLowest(t: Tree, clade: seq<string>, q: Path)
    requires |clade| != 1 && !OneName(clade) && ExtractNodeWithClade(t, clade).Ok?
    requires forall x :: x in clade ==> Find(t, x).Some? && q <= Find(t, x).value
    ensures q <= ExtractNodeWithClade(t, clade).value
  {
    var ps := FindAll(t, clade).value;
    forall k | 0 <= k < |ps| ensures q <= ps[k] {
      assert clade[k] in clade;
    }
    CommonAncestorLowest(ps, q);
  }

  /**
   The precedence of `get_mapped_node` once the clades are resolved to nodes
   `l` and `r` of `t`: equal or nested nodes give the deeper one; otherwise a
   leaf wins, left first; otherwise the root of `t`.
   */
  function MapPair(t: Tree, l: Path, r: Path): (m: Path)
    ensures m == l || m == r || m == []
    ensures (l <= r || r <= l) ==> m == (if |r| <= |l| then l else r)
    ensures !(l <= r || r <= l) && IsLeafAt(t, l) ==> m == l
    ensures !(l <= r || r <= l) && !IsLeafAt(t, l) && IsLeafAt(t, r) ==> m == r
    ensures !(l <= r || r <= l) && !IsLeafAt(t, l) && !IsLeafAt(t, r) ==> m == []
  {
    if l == r then l
    else if r < l then l
    else if l < r then r
    else if IsLeafAt(t, l) then l
    else if IsLeafAt(t, r) then r
    else []
  }

  /** The precedence is symmetric except when both nodes are unrelated leaves, where the left one wins. */
  lemma MapPairSymmetric(t: Tree, l: Path, r: Path)
    requires !(IsLeafAt(t, l) && IsLeafAt(t, r) && !(l <= r || r <= l))
    ensures MapPair(t, l, r) == MapPair(t, r, l)
  {
  }

  /** The left clade's node in the true tree. */
  function LeftNode(trueTree: Tree, inferred: Tree): Result<Path, TreeError> {
    match Clade(inferred, 0)
    case Err(e) => Err(e)
    case Ok(c) => ExtractNodeWithClade(trueTree, c)
  }

  /** The right clade's node in the true tree. */
  function RightNode(trueTree: Tree, inferred: Tree): Result<Path, TreeError> {
    match Clade(inferred, 1)
    case Err(e) => Err(e)
    case Ok(c) => ExtractNodeWithClade(trueTree, c)
  }

  /** `get_mapped_node`: the node of the true tree that the inferred root corresponds to. */
  function MappedNode(trueTree: Tree, inferred: Tree): (r: Result<Path, TreeError>)
    ensures r.Ok? <==> |inferred.children| >= 2 && LeftNode(trueTree, inferred).Ok? && RightNode(trueTree, inferred).Ok?
    ensures r.Ok? ==> IsNode(trueTree, r.value)
    ensures r.Ok? ==> r.value == MapPair(trueTree, LeftNode(trueTree, inferred).value, RightNode(trueTree, inferred).value)
  {
    match RootClades(inferred)
    case Err(e) => Err(e)
    case Ok(clades) =>
      match ExtractNodeWithClade(trueTree, clades.0)
      case Err(e) => Err(e)
      case Ok(l) =>
        match ExtractNodeWithClade(trueTree, clades.1)
        case Err(e) => Err(e)
        case Ok(r) => Ok(MapPair(trueTree, l, r))
  }

  /** The left node is what the left clade resolves to. */
  lemma LeftNodeOf(trueTree: Tree, inferred: Tree, left: seq<string>, l: Path)
    requires Clade(inferred, 0) == Ok(left) && ExtractNodeWithClade(trueTree, left) == Ok(l)
    ensures LeftNode(trueTree, inferred) == Ok(l)
  {
  }

  /** The right node is what the right clade resolves to. */
  lemma RightNodeOf(trueTree: Tree, inferred: Tree, right: seq<string>, r: Path)
    requires Clade(inferred, 1) == Ok(right) && ExtractNodeWithClade(trueTree, right) == Ok(r)
    ensures RightNode(trueTree, inferred) == Ok(r)
  {
  }

  /** Some node of `t` carries a non-empty name. */
  ghost predicate HasNamedNode(t: Tree) {
    exists p, x :: x != "" && NamedAt(t, p, x)
  }

  /** Root child `c` of `t` is internal, and names occur under both of its first two children. */
  ghost predicate NamedBelowBoth(t: Tree, c: nat) {
    && c < |t.children|
    && |t.children[c].children| >= 2
    && HasNamedNode(t.children[c].children[0])
    && HasNamedNode(t.children[c].children[1])
  }

  /** Every name of a clade is carried below the root child it was read from, and is found there. */
  lemma CladeFoundBelowChild(t: Tree, c: nat)
    requires UniqueNames(t) && c < |t.children|
    ensures forall x :: x in Clade(t, c).value ==>
              (exists p :: NamedAt(t, p, x)) && !Ambiguous(t, x) && Find(t, x).Some? && [c] <= Find(t, x).value
  {
    forall x | x in Clade(t, c).value
      ensures exists p :: NamedAt(t, p, x)
      ensures !Ambiguous(t, x)
      ensures Find(t, x).Some? && [c] <= Find(t, x).value
    {
      UniqueNotAmbiguous(t, x);
      var p :| NamedAt(t.children[c], p, x);
      SubtreeChild(t, c, p);
      assert NamedAt(t, [c] + p, x);
      FindUnique(t, [c] + p);
    }
  }

  /** A named node under grandchild `[c, g]` of `t` gives a clade name found below `[c, g]`. */
  lemma NamedGrandchild(t: Tree, c: nat, g: nat) returns (x: string, q: Path)
    requires UniqueNames(t) && c < |t.children| && g < |t.children[c].children|
    requires HasNamedNode(t.children[c].children[g])
    ensures x in Clade(t, c).value
    ensures Find(t, x) == Some(q) && |q| >= 2 && q[1] == g
  {
    var child := t.children[c];
    var p, y :| y != "" && NamedAt(child.children[g], p, y);
    x := y;
    SubtreeChild(child, g, p);
    SubtreeChild(t, c, [g] + p);
    assert NamedAt(child, [g] + p, x);
    q := [c] + ([g] + p);
    FindUnique(t, q);
  }

  /** A clade of a tree resolves, in that same tree, to the root child it was read from. */
  lemma SelfCladeResolvesToChild(t: Tree, c: nat)
    requires UniqueNames(t) && NamedBelowBoth(t, c)
    ensures Clade(t, c).Ok? && ExtractNodeWithClade(t, Clade(t, c).value) == Ok([c])
  {
    CladeFoundBelowChild(t, c);
    var x0, q0 := NamedGrandchild(t, c, 0);
    var x1, q1 := NamedGrandchild(t, c, 1);
    CladeResolvesBetween(t, c, Clade(t, c).value, x0, q0, x1, q1);
  }

  /**
   A clade whose names are all found below `[c]`, two of them below
   different children of `[c]`, resolves to `[c]`.
   */
  lemma CladeResolvesBetween(t: Tree, c: nat, clade: seq<string>, x0: string, q0: Path, x1: string, q1: Path)
    requires forall x :: x in clade ==>
               (exists p :: NamedAt(t, p, x)) && !Ambiguous(t, x) && Find(t, x).Some? && [c] <= Find(t, x).value
    requires x0 in clade && Find(t, x0) == Some(q0) && |q0| >= 2 && q0[1] == 0
    requires x1 in clade && Find(t, x1) == Some(q1) && |q1| >= 2 && q1[1] == 1
    ensures ExtractNodeWithClade(t, clade) == Ok([c])
  {
    assert q0 != q1;
    assert x0 != x1;
    assert !OneName(clade) by {
      var k0 :| 0 <= k0 < |clade| && clade[k0] == x0;
      var k1 :| 0 <= k1 < |clade| && clade[k1] == x1;
    }
    var r := ExtractNodeWithClade(t, clade);
    assert |clade| > 0;
    assert r.Ok?;
    ExtractNodeIsLowest(t, clade, [c]);
    assert r.value <= q0 && r.value <= q1;
    assert r.value == [c];
  }

  /**
   A tree compared with itself maps to its own root, provided both root
   children are internal nodes with names under their first two children.
   */
  lemma MappedNodeSelf(t: Tree)
    requires UniqueNames(t) && NamedBelowBoth(t, 0) && NamedBelowBoth(t, 1)
    ensures MappedNode(t, t) == Ok([])
  {
    SelfCladeResolvesToChild(t, 0);
    SelfCladeResolvesToChild(t, 1);
    assert Subtree(t, [0]) == Some(t.children[0]);
    assert Subtree(t, [1]) == Some(t.children[1]);
  }

  /**
   ete3's `get_distance(node, root, topology_only=True)`: the number of nodes
   strictly between the node and the root, one less than its depth.
   */
  function TopologicalDistanceToRoot(p: Path): nat {
    if |p| == 0 then 0 else |p| - 1
  }

  function AbsDiff(a: nat, b: nat): nat {
    if a < b then b - a else a - b
  }

  /**
   `get_root_distance_toplogical`, with the anchor leaf of the true tree (ete3's
   `get_closest_leaf`) as a parameter: look the anchor's name up in the inferred
   tree and compare the two hop counts to the roots.
   */
  function TopologicalRootDistance(trueTree: Tree, inferred: Tree, anchor: Path): (r: Result<nat, TreeError>)
    requires IsLeafAt(trueTree, anchor)
    ensures r.Ok? ==> exists p :: NamedAt(inferred, p, Subtree(trueTree, anchor).value.name)
    ensures (exists p :: NamedAt(inferred, p, Subtree(trueTree, anchor).value.name)) ==> r.Ok?
    ensures r.Ok? ==>
      var found := Find(inferred, Subtree(trueTree, anchor).value.name);
      found.Some? && (|anchor| > 0 && |found.value| > 0 ==> r.value == AbsDiff(|anchor|, |found.value|))
  {
    var name := Subtree(trueTree, anchor).value.name;
    var found := Find(inferred, name);
    FindCorrect(inferred, name);
    if found.None? then Err(NodeNotFound(name))
    else Ok(AbsDiff(TopologicalDistanceToRoot(anchor), TopologicalDistanceToRoot(found.value)))
  }

  /** Comparing a tree with itself: the anchor is found where it is, and the distance is zero. */
  lemma RootDistanceSelf(t: Tree, anchor: Path)
    requires UniqueNames(t) && IsLeafAt(t, anchor) && Subtree(t, anchor).value.name != ""
    ensures TopologicalRootDistance(t, t, anchor) == Ok(0)
  {
    FindUnique(t, anchor);
  }
}

module RootMappingExamples {
  import opened Results
  import opened Trees
  import opened RootMapping

  function Leaf(x: string): Tree {
    Node(x, [])
  }

  function Pair(l: Tree, r: Tree): Tree {
    Node("", [l, r])
  }

  /** The true tree `((A,B),(C,D))`. */
  function Balanced(): Tree {
    Pair(Pair(Leaf("A"), Leaf("B")), Pair(Leaf("C"), Leaf("D")))
  }

  lemma NamesPair(l: Tree, r: Tree)
    ensures Names(Leaf("")) == [""]
    ensures Names(Pair(l, r)) == [""] + Names(l) + Names(r)
  {
    assert ChildNames(Pair(l, r), 1) == Names(r);
  }

  lemma FindPair(l: Tree, r: Tree, x: string)
    requires x != ""
    ensures Find(Pair(l, r), x) ==
      match Find(l, x)
      case Some(p) => Some([0] + p)
      case None =>
        match Find(r, x)
        case Some(p) => Some([1] + p)
        case None => None
  {
    var t := Pair(l, r);
    assert FindFrom(t, x, 2) == None;
    assert FindFrom(t, x, 1) == match Find(r, x) case Some(p) => Some([1] + p) case None => None;
  }

  lemma FindLeaf(y: string, x: string)
    ensures Find(Leaf(y), x) == if x == y then Some([]) else None
  {
  }

  /** Where each leaf of `((A,B),(C,D))` is found. */
  lemma FindBalanced()
    ensures Find(Balanced(), "A") == Some([0, 0])
    ensures Find(Balanced(), "B") == Some([0, 1])
    ensures Find(Balanced(), "C") == Some([1, 0])
    ensures Find(Balanced(), "D") == Some([1, 1])
  {
    FindFour("A", "B", "C", "D");
  }

  /** The inferred tree `(A,(B,(C,D)))`, rooted between `A` and the rest. */
  function LeafSplit(): Tree {
    Pair(Leaf("A"), Pair(Leaf("B"), Pair(Leaf("C"), Leaf("D"))))
  }

  /** The inferred tree `((A,C),(B,D))`, whose clades cross those of `Balanced`. */
  function CrossingSplit(): Tree {
    Pair(Pair(Leaf("A"), Leaf("C")), Pair(Leaf("B"), Leaf("D")))
  }

  lemma CladeUnfold(t: Tree, i: nat)
    requires i < |t.children|
    ensures Clade(t, i) == Ok(Sorting.Sort(NonEmpty(Names(t.children[i]))))
  {
  }

  lemma LeafNames()
    ensures Names(Leaf("A")) == ["A"] && Names(Leaf("B")) == ["B"]
    ensures Names(Leaf("C")) == ["C"] && Names(Leaf("D")) == ["D"]
  {
  }

  lemma LeafSplitNames()
    ensures Names(LeafSplit().children[0]) == ["A"]
    ensures Names(LeafSplit().children[1]) == ["", "B", "", "C", "D"]
  {
    LeafNames();
    NamesPair(Leaf("C"), Leaf("D"));
    NamesPair(Leaf("B"), Pair(Leaf("C"), Leaf("D")));
  }

  lemma LeafSplitNonEmpty()
    ensures NonEmpty(["A"]) == ["A"]
    ensures NonEmpty(["", "B", "", "C", "D"]) == ["B", "C", "D"]
  {
    assert NonEmpty(["D"]) == ["D"];
    assert NonEmpty(["C", "D"]) == ["C", "D"];
    assert NonEmpty(["", "C", "D"]) == ["C", "D"];
    assert NonEmpty(["B", "", "C", "D"]) == ["B", "C", "D"];
  }

  lemma LeafSplitClades()
    ensures Clade(LeafSplit(), 0) == Ok(["A"])
    ensures Clade(LeafSplit(), 1) == Ok(["B", "C", "D"])
  {
    LeafSplitLeftClade();
    LeafSplitRightClade();
  }

  lemma LeafSplitLeftClade()
    ensures Clade(LeafSplit(), 0) == Ok(["A"])
  {
    CladeUnfold(LeafSplit(), 0);
    LeafSplitNames();
    LeafSplitNonEmpty();
    assert Sorting.Sort(["A"]) == ["A"];
  }

  lemma LeafSplitRightClade()
    ensures Clade(LeafSplit(), 1) == Ok(["B", "C", "D"])
  {
    CladeUnfold(LeafSplit(), 1);
    LeafSplitNames();
    LeafSplitNonEmpty();
    SortThree("B", "C", "D");
  }

  lemma CrossingSplitNames()
    ensures Names(CrossingSplit().children[0]) == ["", "A", "C"]
    ensures Names(CrossingSplit().children[1]) == ["", "B", "D"]
  {
    LeafNames();
    NamesPair(Leaf("A"), Leaf("C"));
    NamesPair(Leaf("B"), Leaf("D"));
  }

  lemma CrossingSplitNonEmpty()
    ensures NonEmpty(["", "A", "C"]) == ["A", "C"]
    ensures NonEmpty(["", "B", "D"]) == ["B", "D"]
  {
    assert NonEmpty(["C"]) == ["C"];
    assert NonEmpty(["A", "C"]) == ["A", "C"];
    assert NonEmpty(["D"]) == ["D"];
    assert NonEmpty(["B", "D"]) == ["B", "D"];
  }

  lemma CrossingSplitClades()
    ensures Clade(CrossingSplit(), 0) == Ok(["A", "C"])
    ensures Clade(CrossingSplit(), 1) == Ok(["B", "D"])
  {
    CladeUnfold(CrossingSplit(), 0);
    CladeUnfold(CrossingSplit(), 1);
    CrossingSplitNames();
    CrossingSplitNonEmpty();
    SortTwo("A", "C");
    SortTwo("B", "D");
  }

  /** Each leaf of `((A,B),(C,D))` is the only node with its name. */
  lemma BalancedCounts()
    ensures Count(Balanced(), "A") == 1 && Count(Balanced(), "B") == 1
    ensures Count(Balanced(), "C") == 1 && Count(Balanced(), "D") == 1
  {
    CountFour("A", "B", "C", "D");
  }

  /** In `((a,b),(c,d))` with four different non-empty names, each name is carried once. */
  lemma CountFour(a: string, b: string, c: string, d: string)
    requires a != "" && b != "" && c != "" && d != ""
    requires a != b && a != c && a != d && b != c && b != d && c != d
    ensures var t := Pair(Pair(Leaf(a), Leaf(b)), Pair(Leaf(c), Leaf(d)));
            Count(t, a) == 1 && Count(t, b) == 1 && Count(t, c) == 1 && Count(t, d) == 1
  {
    CountLeaf(a); CountLeaf(b); CountLeaf(c); CountLeaf(d);
    CountPair(Leaf(a), Leaf(b));
    CountPair(Leaf(c), Leaf(d));
    CountPair(Pair(Leaf(a), Leaf(b)), Pair(Leaf(c), Leaf(d)));
  }

  lemma CountLeaf(y: string)
    ensures forall x :: Count(Leaf(y), x) == if x == y then 1 else 0
  {
  }

  /** A pair's unnamed root adds one to the count of `""` only. */
  lemma CountPair(l: Tree, r: Tree)
    ensures forall x :: Count(Pair(l, r), x) == Count(l, x) + Count(r, x) + if x == "" then 1 else 0
  {
    forall x ensures Count(Pair(l, r), x) == Count(l, x) + Count(r, x) + if x == "" then 1 else 0 {
      assert ChildCount(Pair(l, r), x, 1) == Count(r, x);
    }
  }

  /** The clade `{A}` resolves to the leaf `A` of `((A,B),(C,D))`. */
  lemma BalancedResolvesA()
    ensures ExtractNodeWithClade(Balanced(), ["A"]) == Ok([0, 0])
  {
    FindBalanced();
  }

  /** The clade `{B,C,D}` resolves to the root of `((A,B),(C,D))`. */
  lemma BalancedResolvesBCD()
    ensures ExtractNodeWithClade(Balanced(), ["B", "C", "D"]) == Ok([])
  {
    var t := Balanced();
    BalancedCounts();
    FindBalanced();
    FindAllThree(t, "B", "C", "D");
    ResolvesAcrossRoot(t, ["B", "C", "D"], [[0, 1], [1, 0], [1, 1]], 0, 1);
  }

  /** The clade `{A,C}` resolves to the root of `((A,B),(C,D))`. */
  lemma BalancedResolvesAC()
    ensures ExtractNodeWithClade(Balanced(), ["A", "C"]) == Ok([])
  {
    var t := Balanced();
    BalancedCounts();
    FindBalanced();
    FindAllTwo(t, "A", "C");
    ResolvesAcrossRoot(t, ["A", "C"], [[0, 0], [1, 0]], 0, 1);
  }

  /** The clade `{B,D}` resolves to the root of `((A,B),(C,D))`. */
  lemma BalancedResolvesBD()
    ensures ExtractNodeWithClade(Balanced(), ["B", "D"]) == Ok([])
  {
    var t := Balanced();
    BalancedCounts();
    FindBalanced();
    FindAllTwo(t, "B", "D");
    ResolvesAcrossRoot(t, ["B", "D"], [[0, 1], [1, 1]], 0, 1);
  }

  /** A clade whose names are found on both sides of the root resolves to the root. */
  lemma ResolvesAcrossRoot(t: Tree, clade: seq<string>, ps: seq<Path>, i: nat, j: nat)
    requires |clade| > 1 && FirstAmbiguous(t, clade) == None && FindAll(t, clade) == Ok(ps)
    requires i < |ps| && j < |ps| && |ps[i]| > 0 && |ps[j]| > 0 && ps[i][0] != ps[j][0]
    ensures ExtractNodeWithClade(t, clade) == Ok([])
  {
    assert clade[i] != clade[j];
    ResolvesToCommonAncestor(t, clade, ps);
    AncestorAcrossRoot(ps, i, j);
  }

  /** Nodes under different children of the root have only the root above them all. */
  lemma AncestorAcrossRoot(ps: seq<Path>, i: nat, j: nat)
    requires i < |ps| && j < |ps| && |ps[i]| > 0 && |ps[j]| > 0 && ps[i][0] != ps[j][0]
    ensures CommonAncestor(ps) == []
  {
    var c := CommonAncestor(ps);
    assert c <= ps[i] && c <= ps[j];
  }

  lemma FindAllTwo(t: Tree, x: string, y: string)
    requires Find(t, x).Some? && Find(t, y).Some?
    ensures FindAll(t, [x, y]) == Ok([Find(t, x).value, Find(t, y).value])
  {
    var p, q := Find(t, x).value, Find(t, y).value;
    assert [x, y][1..] == [y] && [y][1..] == [];
    assert FindAll(t, [y]) == Ok([q]) by {
      assert [q] + [] == [q];
    }
    assert [p] + [q] == [p, q];
  }

  lemma FindAllThree(t: Tree, x: string, y: string, z: string)
    requires Find(t, x).Some? && Find(t, y).Some? && Find(t, z).Some?
    ensures FindAll(t, [x, y, z]) == Ok([Find(t, x).value, Find(t, y).value, Find(t, z).value])
  {
    assert [x, y, z][1..] == [y, z];
    FindAllTwo(t, y, z);
    assert [Find(t, x).value] + [Find(t, y).value, Find(t, z).value] == [Find(t, x).value, Find(t, y).value, Find(t, z).value];
  }

  /** An inferred root splitting `{A}` from `{B,C,D}` maps to the leaf `A`. */
  lemma LeafSplitMapsToLeaf()
    ensures MappedNode(Balanced(), LeafSplit()) == Ok([0, 0])
  {
    LeafSplitClades();
    BalancedResolvesA();
    BalancedResolvesBCD();
    LeftNodeOf(Balanced(), LeafSplit(), ["A"], [0, 0]);
    RightNodeOf(Balanced(), LeafSplit(), ["B", "C", "D"], []);
    MapPairBelow(Balanced(), [0, 0], []);
  }

  /**
   The clade `[C, C]`, read from an inferred tree that carries `C` twice under
   one root child, resolves to the root of `((A,B),(C,D))`, while the
   one-entry clade `[C]` resolves to the leaf `C`.
   */
  lemma BalancedRepeatedName()
    ensures ExtractNodeWithClade(Balanced(), ["C"]) == Ok([1, 0])
    ensures ExtractNodeWithClade(Balanced(), ["C", "C"]) == Ok([])
  {
    FindBalanced();
    FourRepeatedName("A", "B", "C", "D");
  }

  /** The clade `{A,B}` resolves to the first root child of `((A,B),(C,D))`. */
  lemma BalancedResolvesAB()
    ensures ExtractNodeWithClade(Balanced(), ["A", "B"]) == Ok([0])
  {
    FourResolvesFirstChild("A", "B", "C", "D");
  }

  /** In `((a,b),(c,d))` the clade `[c, c]` resolves to the root. */
  lemma FourRepeatedName(a: string, b: string, c: string, d: string)
    requires a != "" && b != "" && c != "" && d != ""
    requires a != b && a != c && a != d && b != c && b != d && c != d
    ensures ExtractNodeWithClade(Pair(Pair(Leaf(a), Leaf(b)), Pair(Leaf(c), Leaf(d))), [c, c]) == Ok([])
  {
    var t := Pair(Pair(Leaf(a), Leaf(b)), Pair(Leaf(c), Leaf(d)));
    CountFour(a, b, c, d);
    FindFour(a, b, c, d);
    FindCorrect(t, c);
    assert [c, c][1] == [c, c][0];
    RepeatedNameResolvesToRoot(t, [c, c]);
  }

  /** In `((a,b),(c,d))` the clade `{a,b}` resolves to the first root child. */
  lemma FourResolvesFirstChild(a: string, b: string, c: string, d: string)
    requires a != "" && b != "" && c != "" && d != ""
    requires a != b && a != c && a != d && b != c && b != d && c != d
    ensures ExtractNodeWithClade(Pair(Pair(Leaf(a), Leaf(b)), Pair(Leaf(c), Leaf(d))), [a, b]) == Ok([0])
  {
    var t := Pair(Pair(Leaf(a), Leaf(b)), Pair(Leaf(c), Leaf(d)));
    var ps: seq<Path> := [[0, 0], [0, 1]];
    CountFour(a, b, c, d);
    FindFour(a, b, c, d);
    FindAllTwo(t, a, b);
    assert [a, b][1] != [a, b][0];
    ResolvesToCommonAncestor(t, [a, b], ps);
    CommonAncestorLowest(ps, [0]);
    var k := CommonAncestor(ps);
    assert k <= ps[0];
    assert k == [0];
  }

  /** Where each leaf of `((a,b),(c,d))` is found, for four different non-empty names. */
  lemma FindFour(a: string, b: string, c: string, d: string)
    requires a != "" && b != "" && c != "" && d != ""
    requires a != b && a != c && a != d && b != c && b != d && c != d
    ensures var t := Pair(Pair(Leaf(a), Leaf(b)), Pair(Leaf(c), Leaf(d)));
            Find(t, a) == Some([0, 0]) && Find(t, b) == Some([0, 1]) &&
            Find(t, c) == Some([1, 0]) && Find(t, d) == Some([1, 1])
  {
    var ab := Pair(Leaf(a), Leaf(b));
    var cd := Pair(Leaf(c), Leaf(d));
    FindLeaf(a, a); FindLeaf(b, a); FindLeaf(c, a); FindLeaf(d, a);
    FindLeaf(a, b); FindLeaf(b, b); FindLeaf(c, b); FindLeaf(d, b);
    FindLeaf(a, c); FindLeaf(b, c); FindLeaf(c, c); FindLeaf(d, c);
    FindLeaf(a, d); FindLeaf(b, d); FindLeaf(c, d); FindLeaf(d, d);
    FindPair(Leaf(a), Leaf(b), a);
    FindPair(Leaf(a), Leaf(b), b);
    FindPair(Leaf(a), Leaf(b), c);
    FindPair(Leaf(a), Leaf(b), d);
    FindPair(Leaf(c), Leaf(d), a);
    FindPair(Leaf(c), Leaf(d), b);
    FindPair(Leaf(c), Leaf(d), c);
    FindPair(Leaf(c), Leaf(d), d);
    assert [0] + [] == [0] && [1] + [] == [1];
    assert [0] + [0] == [0, 0] && [0] + [1] == [0, 1] && [1] + [0] == [1, 0] && [1] + [1] == [1, 1];
    FindPair(ab, cd, a);
    FindPair(ab, cd, b);
    FindPair(ab, cd, c);
    FindPair(ab, cd, d);
  }

  /** The inferred tree `((A,B),(C,C))`, which carries `C` twice. */
  function RepeatedSplit(): Tree {
    Pair(Pair(Leaf("A"), Leaf("B")), Pair(Leaf("C"), Leaf("C")))
  }

  lemma RepeatedSplitNames()
    ensures Names(RepeatedSplit().children[0]) == ["", "A", "B"]
    ensures Names(RepeatedSplit().children[1]) == ["", "C", "C"]
  {
    LeafNames();
    NamesPair(Leaf("A"), Leaf("B"));
    NamesPair(Leaf("C"), Leaf("C"));
  }

  lemma RepeatedSplitNonEmpty()
    ensures NonEmpty(["", "A", "B"]) == ["A", "B"]
    ensures NonEmpty(["", "C", "C"]) == ["C", "C"]
  {
    assert NonEmpty(["B"]) == ["B"];
    assert NonEmpty(["A", "B"]) == ["A", "B"];
    assert NonEmpty(["C"]) == ["C"];
    assert NonEmpty(["C", "C"]) == ["C", "C"];
  }

  lemma RepeatedSplitClades()
    ensures Clade(RepeatedSplit(), 0) == Ok(["A", "B"])
    ensures Clade(RepeatedSplit(), 1) == Ok(["C", "C"])
  {
    CladeUnfold(RepeatedSplit(), 0);
    CladeUnfold(RepeatedSplit(), 1);
    RepeatedSplitNames();
    RepeatedSplitNonEmpty();
    SortTwo("A", "B");
    SortTwo("C", "C");
  }

  /**
   With `C` twice under its second root child, `((A,B),(C,C))` maps onto the
   first root child of `((A,B),(C,D))`: the right clade resolves to the root,
   which lies above the left clade's node.
   */
  lemma RepeatedSplitMapsToChild()
    ensures MappedNode(Balanced(), RepeatedSplit()) == Ok([0])
  {
    RepeatedSplitClades();
    BalancedResolvesAB();
    BalancedRepeatedName();
    LeftNodeOf(Balanced(), RepeatedSplit(), ["A", "B"], [0]);
    RightNodeOf(Balanced(), RepeatedSplit(), ["C", "C"], []);
    MapPairBelow(Balanced(), [0], []);
  }

  /** Crossing clades `{A,C}` and `{B,D}` fall back to the true root. */
  lemma CrossingSplitMapsToRoot()
    ensures MappedNode(Balanced(), CrossingSplit()) == Ok([])
  {
    CrossingSplitClades();
    BalancedResolvesAC();
    BalancedResolvesBD();
  }

  /**
   Mapping a tree onto itself need not give its root: `(A,(B,(C,D)))` has a
   leaf as a root child, so its clade `{A}` resolves to that leaf, and
   `get_mapped_node` returns the leaf before it considers the root.
   */
  lemma LeafSplitOntoItself()
    ensures MappedNode(LeafSplit(), LeafSplit()) == Ok([0])
  {
    var t := LeafSplit();
    LeafSplitClades();
    LeafSplitResolvesA();
    LeafSplitResolvesBCD();
    LeftNodeOf(t, t, ["A"], [0]);
    RightNodeOf(t, t, ["B", "C", "D"], [1]);
    MapPairLeafChild(Leaf("A"), Pair(Leaf("B"), Pair(Leaf("C"), Leaf("D"))));
  }

  /** A left node equal to or below the right one wins the precedence. */
  lemma MapPairBelow(t: Tree, l: Path, r: Path)
    requires r <= l
    ensures MapPair(t, l, r) == l
  {
  }

  /** Of the two root children of a pair whose first child is a leaf, the leaf wins. */
  lemma MapPairLeafChild(l: Tree, r: Tree)
    requires |l.children| == 0
    ensures MapPair(Pair(l, r), [0], [1]) == [0]
  {
    assert Subtree(Pair(l, r), [0]) == Some(l);
  }

  /** The clade `{A}` resolves to the leaf `A` of `(A,(B,(C,D)))`. */
  lemma LeafSplitResolvesA()
    ensures ExtractNodeWithClade(LeafSplit(), ["A"]) == Ok([0])
  {
    FindNested("A", "B", "C", "D");
  }

  /** The clade `{B,C,D}` resolves to the root child above `B`, `C` and `D` in `(A,(B,(C,D)))`. */
  lemma LeafSplitResolvesBCD()
    ensures ExtractNodeWithClade(LeafSplit(), ["B", "C", "D"]) == Ok([1])
  {
    NestedResolvesInner("A", "B", "C", "D");
  }

  /** In `(a,(b,(c,d)))` the clade `{b,c,d}` resolves to the second root child. */
  lemma NestedResolvesInner(a: string, b: string, c: string, d: string)
    requires a != "" && b != "" && c != "" && d != ""
    requires a != b && a != c && a != d && b != c && b != d && c != d
    ensures ExtractNodeWithClade(Pair(Leaf(a), Pair(Leaf(b), Pair(Leaf(c), Leaf(d)))), [b, c, d]) == Ok([1])
  {
    var t := Pair(Leaf(a), Pair(Leaf(b), Pair(Leaf(c), Leaf(d))));
    var ps: seq<Path> := [[1, 0], [1, 1, 0], [1, 1, 1]];
    NestedFound(a, b, c, d);
    assert [b, c, d][1] != [b, c, d][0];
    ResolvesToCommonAncestor(t, [b, c, d], ps);
    CommonAncestorLowest(ps, [1]);
    var k := CommonAncestor(ps);
    assert k <= ps[0] && k <= ps[1];
    assert k == [1];
    assert ExtractNodeWithClade(t, [b, c, d]) == Ok(k);
  }

  /** In `(a,(b,(c,d)))` the names `b`, `c` and `d` are unambiguous and found where they stand. */
  lemma NestedFound(a: string, b: string, c: string, d: string)
    requires a != "" && b != "" && c != "" && d != ""
    requires a != b && a != c && a != d && b != c && b != d && c != d
    ensures var t := Pair(Leaf(a), Pair(Leaf(b), Pair(Leaf(c), Leaf(d))));
            FirstAmbiguous(t, [b, c, d]) == None && FindAll(t, [b, c, d]) == Ok([[1, 0], [1, 1, 0], [1, 1, 1]])
  {
    var t := Pair(Leaf(a), Pair(Leaf(b), Pair(Leaf(c), Leaf(d))));
    CountNested(a, b, c, d);
    FindNested(a, b, c, d);
    FindAllThree(t, b, c, d);
  }

  /** Where each leaf of `(a,(b,(c,d)))` is found, for four different non-empty names. */
  lemma FindNested(a: string, b: string, c: string, d: string)
    requires a != "" && b != "" && c != "" && d != ""
    requires a != b && a != c && a != d && b != c && b != d && c != d
    ensures var t := Pair(Leaf(a), Pair(Leaf(b), Pair(Leaf(c), Leaf(d))));
            Find(t, a) == Some([0]) && Find(t, b) == Some([1, 0]) &&
            Find(t, c) == Some([1, 1, 0]) && Find(t, d) == Some([1, 1, 1])
  {
    var cd := Pair(Leaf(c), Leaf(d));
    var bcd := Pair(Leaf(b), cd);
    FindLeaf(a, a); FindLeaf(b, a); FindLeaf(c, a); FindLeaf(d, a);
    FindLeaf(b, b); FindLeaf(c, b); FindLeaf(d, b);
    FindLeaf(b, c); FindLeaf(c, c); FindLeaf(d, c);
    FindLeaf(b, d); FindLeaf(c, d); FindLeaf(d, d);
    assert [0] + [] == [0] && [1] + [] == [1];
    FindPair(Leaf(c), Leaf(d), c);
    FindPair(Leaf(c), Leaf(d), d);
    FindPair(Leaf(c), Leaf(d), b);
    FindPair(Leaf(c), Leaf(d), a);
    assert Find(cd, c) == Some([0]) && Find(cd, d) == Some([1]) && Find(cd, b) == None && Find(cd, a) == None;
    FindPair(Leaf(b), cd, b);
    FindPair(Leaf(b), cd, c);
    FindPair(Leaf(b), cd, d);
    FindPair(Leaf(b), cd, a);
    assert [1] + [0] == [1, 0] && [1] + [1] == [1, 1];
    assert Find(bcd, b) == Some([0]) && Find(bcd, c) == Some([1, 0]) && Find(bcd, d) == Some([1, 1]) && Find(bcd, a) == None;
    FindPair(Leaf(a), bcd, a);
    FindPair(Leaf(a), bcd, b);
    FindPair(Leaf(a), bcd, c);
    FindPair(Leaf(a), bcd, d);
    assert [1] + [1, 0] == [1, 1, 0] && [1] + [1, 1] == [1, 1, 1];
  }

  /** In `(a,(b,(c,d)))` with four different non-empty names, each name is carried once. */
  lemma CountNested(a: string, b: string, c: string, d: string)
    requires a != "" && b != "" && c != "" && d != ""
    requires a != b && a != c && a != d && b != c && b != d && c != d
    ensures var t := Pair(Leaf(a), Pair(Leaf(b), Pair(Leaf(c), Leaf(d))));
            Count(t, a) == 1 && Count(t, b) == 1 && Count(t, c) == 1 && Count(t, d) == 1
  {
    CountLeaf(a); CountLeaf(b); CountLeaf(c); CountLeaf(d);
    CountPair(Leaf(c), Leaf(d));
    CountPair(Leaf(b), Pair(Leaf(c), Leaf(d)));
    CountPair(Leaf(a), Pair(Leaf(b), Pair(Leaf(c), Leaf(d))));
  }

  /** Sorting three names already in order leaves them in place. */
  lemma SortThree(a: string, b: string, c: string)
    requires Sorting.StrLe(a, b) && Sorting.StrLe(b, c)
    ensures Sorting.Sort([a, b, c]) == [a, b, c]
  {
    SortTwo(b, c);
    SortCons(a, [b, c]);
    InsertFront(a, [b, c]);
  }

  /** Sorting two names already in order leaves them in place. */
  lemma SortTwo(a: string, b: string)
    requires Sorting.StrLe(a, b)
    ensures Sorting.Sort([a, b]) == [a, b]
  {
    SortCons(b, []);
    SortCons(a, [b]);
    InsertFront(a, [b]);
  }

  lemma SortCons(x: string, s: seq<string>)
    ensures Sorting.Sort([x] + s) == Sorting.Insert(x, Sorting.Sort(s))
  {
    assert ([x] + s)[1..] == s;
  }

  lemma InsertFront(x: string, s: seq<string>)
    requires Sorting.Sorted(s) && |s| > 0 && Sorting.StrLe(x, s[0])
    ensures Sorting.Insert(x, s) == [x] + s
  {
  }
}
