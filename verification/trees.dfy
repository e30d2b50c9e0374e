/**
 The slice of the ete3 tree library that the root-mapping code of
 exp/make_exp.py relies on, over an immutable tree datatype.

 A node is identified by its path: the child indices leading to it from the
 root. "Ancestor-or-self" is the prefix order on paths (`a <= b`), "strict
 descendant" is the proper-prefix order (`a < b`), and the lowest common
 ancestor of a set of nodes is the longest common prefix of their paths.
 */
module Trees {
  import opened Results

  /** A node: its name (`""` when unnamed) and its children in order. */
  datatype Tree = Node(name: string, children: seq<Tree>)

  /** Child indices from the root. */
  type Path = seq<nat>

  /** The subtree rooted at `p`, if `p` addresses a node of `t`. */
  function Subtree(t: Tree, p: Path): Option<Tree>
    decreases p
  {
    if |p| == 0 then Some(t)
    else if p[0] < |t.children| then Subtree(t.children[p[0]], p[1..])
    else None
  }

  predicate IsNode(t: Tree, p: Path) {
    Subtree(t, p).Some?
  }

  /** The node at `p` exists and carries the name `x`. */
  predicate NamedAt(t: Tree, p: Path, x: string) {
    Subtree(t, p).Some? && Subtree(t, p).value.name == x
  }

  /** ete3's `is_leaf()` of the node at `p`. */
  predicate IsLeafAt(t: Tree, p: Path) {
    Subtree(t, p).Some? && |Subtree(t, p).value.children| == 0
  }

  /** No two nodes share a non-empty name (the usual convention for leaf labels). */
  ghost predicate UniqueNames(t: Tree) {
    forall p, q ::
      IsNode(t, p) && IsNode(t, q) && Subtree(t, p).value.name == Subtree(t, q).value.name && Subtree(t, p).value.name != ""
      ==> p == q
  }

  /** Addressing through a child: the node at `[i] + p` of `t` is the node at `p` of child `i`. */
  lemma SubtreeChild(t: Tree, i: nat, p: Path)
    requires i < |t.children|
    ensures Subtree(t, [i] + p) == Subtree(t.children[i], p)
  {
    assert ([i] + p)[1..] == p;
  }

  /** Every ancestor of a node is a node. */
  lemma {:induction false} SubtreePrefix(t: Tree, p: Path, q: Path)
    requires IsNode(t, p) && q <= p
    ensures IsNode(t, q)
    decreases p
  {
    if |q| > 0 {
      assert q[1..] <= p[1..];
      SubtreePrefix(t.children[p[0]], p[1..], q[1..]);
    }
  }

  /** The names of all nodes of `t` in pre-order, as ete3's `traverse()` visits them (the order aside). */
  function Names(t: Tree): seq<string>
    decreases t, 1
  {
    [t.name] + ChildNames(t, 0)
  }

  /** The names under children `i..` of `t`, in pre-order. */
  function ChildNames(t: Tree, i: nat): seq<string>
    requires i <= |t.children|
    decreases t, 0, |t.children| - i
  {
    if i == |t.children| then [] else Names(t.children[i]) + ChildNames(t, i + 1)
  }

  /** `Names` lists exactly the names carried by the nodes of `t`. */
  lemma {:induction false} NamesExact(t: Tree, x: string)
    ensures x in Names(t) <==> exists p :: NamedAt(t, p, x)
    decreases t, 1
  {
    if x in Names(t) {
      if x != t.name {
        ChildNamesExact(t, 0, x);
        var k, q :| 0 <= k < |t.children| && NamedAt(t.children[k], q, x);
        SubtreeChild(t, k, q);
        assert NamedAt(t, [k] + q, x);
      } else {
        assert NamedAt(t, [], x);
      }
    }
    if p :| NamedAt(t, p, x) {
      if |p| > 0 {
        var k := p[0];
        assert k < |t.children|;
        SubtreeChild(t, k, p[1..]);
        assert [k] + p[1..] == p;
        assert NamedAt(t.children[k], p[1..], x);
        ChildNamesExact(t, 0, x);
      }
    }
  }

  lemma {:induction false} ChildNamesExact(t: Tree, i: nat, x: string)
    requires i <= |t.children|
    ensures x in ChildNames(t, i) <==> exists k, q :: i <= k < |t.children| && NamedAt(t.children[k], q, x)
    decreases t, 0, |t.children| - i
  {
    if i < |t.children| {
      NamesExact(t.children[i], x);
      ChildNamesExact(t, i + 1, x);
      if k, q :| i <= k < |t.children| && NamedAt(t.children[k], q, x) {
        if k == i {
          assert x in Names(t.children[i]);
        } else {
          assert x in ChildNames(t, i + 1);
        }
      }
    }
  }

  /**
   Two nodes of `t` carry the name `x`: ete3's `get_common_ancestor` then
   refuses the name ("Ambiguous node name").
   */
  predicate Ambiguous(t: Tree, x: string) {
    Count(t, x) >= 2
  }

  /** The number of nodes of `t` named `x`. */
  function Count(t: Tree, x: string): nat
    decreases t, 1
  {
    (if t.name == x then 1 else 0) + ChildCount(t, x, 0)
  }

  /** The number of nodes named `x` under children `i..` of `t`. */
  function ChildCount(t: Tree, x: string, i: nat): nat
    requires i <= |t.children|
    decreases t, 0, |t.children| - i
  {
    if i == |t.children| then 0 else Count(t.children[i], x) + ChildCount(t, x, i + 1)
  }

  /** The count is the name's multiplicity in the pre-order listing. */
  lemma {:induction false} CountListed(t: Tree, x: string)
    ensures Count(t, x) == multiset(Names(t))[x]
    decreases t, 1
  {
    ChildCountListed(t, x, 0);
  }

  lemma {:induction false} ChildCountListed(t: Tree, x: string, i: nat)
    requires i <= |t.children|
    ensures ChildCount(t, x, i) == multiset(ChildNames(t, i))[x]
    decreases t, 0, |t.children| - i
  {
    if i < |t.children| {
      CountListed(t.children[i], x);
      ChildCountListed(t, x, i + 1);
    }
  }

  /** A name is ambiguous exactly when two different nodes carry it. */
  lemma AmbiguousIffTwoNodes(t: Tree, x: string)
    ensures Ambiguous(t, x) <==> exists p, q :: p != q && NamedAt(t, p, x) && NamedAt(t, q, x)
  {
    if Ambiguous(t, x) {
      AmbiguousHasTwoNodes(t, x);
    }
    if p, q :| p != q && NamedAt(t, p, x) && NamedAt(t, q, x) {
      TwoNodesAmbiguous(t, x, p, q);
    }
  }

  /** Under unique names no non-empty name is ambiguous. */
  lemma UniqueNotAmbiguous(t: Tree, x: string)
    requires UniqueNames(t) && x != ""
    ensures !Ambiguous(t, x)
  {
    AmbiguousIffTwoNodes(t, x);
  }

  /** Some node carries `x` exactly when the count is positive. */
  lemma CountPositive(t: Tree, x: string)
    ensures Count(t, x) >= 1 <==> exists p :: NamedAt(t, p, x)
  {
    CountListed(t, x);
    NamesExact(t, x);
  }

  lemma {:induction false} AmbiguousHasTwoNodes(t: Tree, x: string)
    requires Count(t, x) >= 2
    ensures exists p, q :: p != q && NamedAt(t, p, x) && NamedAt(t, q, x)
    decreases t, 1
  {
    if t.name == x {
      ChildCarries(t, 0, x);
      var k, q :| 0 <= k < |t.children| && NamedAt(t.children[k], q, x);
      SubtreeChild(t, k, q);
      assert NamedAt(t, [], x) && NamedAt(t, [k] + q, x);
    } else {
      ChildCarriesTwice(t, 0, x);
    }
  }

  /** A positive count under children `i..` comes from a node under one of them. */
  lemma {:induction false} ChildCarries(t: Tree, i: nat, x: string)
    requires i <= |t.children| && ChildCount(t, x, i) >= 1
    ensures exists k, q :: i <= k < |t.children| && NamedAt(t.children[k], q, x)
    decreases |t.children| - i
  {
    if Count(t.children[i], x) >= 1 {
      CountPositive(t.children[i], x);
      var q :| NamedAt(t.children[i], q, x);
    } else {
      ChildCarries(t, i + 1, x);
    }
  }

  lemma {:induction false} ChildCarriesTwice(t: Tree, i: nat, x: string)
    requires i <= |t.children| && ChildCount(t, x, i) >= 2
    ensures exists p, q :: p != q && NamedAt(t, p, x) && NamedAt(t, q, x)
    decreases t, 0, |t.children| - i
  {
    var here := Count(t.children[i], x);
    if here >= 2 {
      AmbiguousHasTwoNodes(t.children[i], x);
      var p, q :| p != q && NamedAt(t.children[i], p, x) && NamedAt(t.children[i], q, x);
      SubtreeChild(t, i, p);
      SubtreeChild(t, i, q);
      assert ([i] + p)[1..] == p && ([i] + q)[1..] == q;
      assert NamedAt(t, [i] + p, x) && NamedAt(t, [i] + q, x);
    } else if here == 1 {
      CountPositive(t.children[i], x);
      ChildCarries(t, i + 1, x);
      var p :| NamedAt(t.children[i], p, x);
      var k, q :| i + 1 <= k < |t.children| && NamedAt(t.children[k], q, x);
      SubtreeChild(t, i, p);
      SubtreeChild(t, k, q);
      assert ([i] + p)[0] != ([k] + q)[0];
      assert NamedAt(t, [i] + p, x) && NamedAt(t, [k] + q, x);
    } else {
      ChildCarriesTwice(t, i + 1, x);
    }
  }

  lemma {:induction false} TwoNodesAmbiguous(t: Tree, x: string, p: Path, q: Path)
    requires p != q && NamedAt(t, p, x) && NamedAt(t, q, x)
    ensures Count(t, x) >= 2
    decreases t
  {
    if |p| == 0 || |q| == 0 {
      var r := if |p| == 0 then q else p;
      assert |r| > 0 && NamedAt(t, r, x) && t.name == x;
      ChildNamed(t, r, x);
      ChildCountAtLeast(t, 0, r[0], x);
    } else if p[0] == q[0] {
      ChildNamed(t, p, x);
      ChildNamed(t, q, x);
      assert p == [p[0]] + p[1..] && q == [q[0]] + q[1..];
      TwoNodesAmbiguous(t.children[p[0]], x, p[1..], q[1..]);
      ChildCountAtLeast(t, 0, p[0], x);
    } else {
      ChildNamed(t, p, x);
      ChildNamed(t, q, x);
      if p[0] < q[0] {
        ChildCountAtLeastTwo(t, 0, p[0], q[0], x);
      } else {
        ChildCountAtLeastTwo(t, 0, q[0], p[0], x);
      }
    }
  }

  /** A name carried at a non-root path is counted under the child the path enters. */
  lemma ChildNamed(t: Tree, p: Path, x: string)
    requires |p| > 0 && NamedAt(t, p, x)
    ensures p[0] < |t.children| && NamedAt(t.children[p[0]], p[1..], x)
    ensures Count(t.children[p[0]], x) >= 1
  {
    assert p == [p[0]] + p[1..];
    SubtreeChild(t, p[0], p[1..]);
    assert NamedAt(t.children[p[0]], p[1..], x);
    CountPositive(t.children[p[0]], x);
  }

  /** The count under children `i..` includes that of child `k`. */
  lemma {:induction false} ChildCountAtLeast(t: Tree, i: nat, k: nat, x: string)
    requires i <= k < |t.children|
    ensures ChildCount(t, x, i) >= Count(t.children[k], x)
    decreases |t.children| - i
  {
    if i < k {
      ChildCountAtLeast(t, i + 1, k, x);
    }
  }

  /** ... and those of two different children `k1 < k2` together. */
  lemma {:induction false} ChildCountAtLeastTwo(t: Tree, i: nat, k1: nat, k2: nat, x: string)
    requires i <= k1 < k2 < |t.children|
    ensures ChildCount(t, x, i) >= Count(t.children[k1], x) + Count(t.children[k2], x)
    decreases |t.children| - i
  {
    if i < k1 {
      ChildCountAtLeastTwo(t, i + 1, k1, k2, x);
    } else {
      ChildCountAtLeast(t, i + 1, k2, x);
    }
  }

  /** ete3's `tree & name`: the first node in pre-order whose name is `x`. */
  function Find(t: Tree, x: string): Option<Path>
    decreases t, 1
  {
    if t.name == x then Some([]) else FindFrom(t, x, 0)
  }

  /** The first match under children `i..` of `t`. */
  function FindFrom(t: Tree, x: string, i: nat): Option<Path>
    requires i <= |t.children|
    decreases t, 0, |t.children| - i
  {
    if i == |t.children| then None
    else match Find(t.children[i], x)
      case Some(p) => Some([i] + p)
      case None => FindFrom(t, x, i + 1)
  }

  /** A lookup finds a node carrying the name, and finds one whenever some node carries it. */
  lemma {:induction false} FindCorrect(t: Tree, x: string)
    ensures Find(t, x).Some? ==> NamedAt(t, Find(t, x).value, x)
    ensures Find(t, x).Some? <==> exists p :: NamedAt(t, p, x)
    decreases t, 1
  {
    if t.name != x {
      FindFromCorrect(t, x, 0);
      if p :| NamedAt(t, p, x) {
        assert |p| > 0 && p[0] < |t.children|;
        SubtreeChild(t, p[0], p[1..]);
        assert [p[0]] + p[1..] == p;
        assert NamedAt(t.children[p[0]], p[1..], x);
      }
    } else {
      assert NamedAt(t, [], x);
    }
  }

  lemma {:induction false} FindFromCorrect(t: Tree, x: string, i: nat)
    requires i <= |t.children|
    ensures FindFrom(t, x, i).Some? ==> NamedAt(t, FindFrom(t, x, i).value, x)
    ensures FindFrom(t, x, i).Some? <==> exists k, q :: i <= k < |t.children| && NamedAt(t.children[k], q, x)
    decreases t, 0, |t.children| - i
  {
    if i < |t.children| {
      FindCorrect(t.children[i], x);
      FindFromCorrect(t, x, i + 1);
      match Find(t.children[i], x)
      case Some(p) =>
        SubtreeChild(t, i, p);
      case None =>
        if k, q :| i <= k < |t.children| && NamedAt(t.children[k], q, x) {
          assert k != i;
        }
    }
  }

  /** Under unique names, looking up the name of a node finds that very node. */
  lemma FindUnique(t: Tree, p: Path)
    requires UniqueNames(t) && IsNode(t, p) && Subtree(t, p).value.name != ""
    ensures Find(t, Subtree(t, p).value.name) == Some(p)
  {
    var x := Subtree(t, p).value.name;
    FindCorrect(t, x);
    assert NamedAt(t, p, x);
    var q := Find(t, x).value;
    assert IsNode(t, q) && Subtree(t, q).value.name == Subtree(t, p).value.name;
  }

  /** The longest common prefix of two paths: the paths' lowest common ancestor. */
  function CommonPrefix(a: Path, b: Path): (c: Path)
    ensures c <= a && c <= b
    ensures |c| == |a| || |c| == |b| || a[|c|] != b[|c|]
  {
    if |a| == 0 || |b| == 0 || a[0] != b[0] then []
    else [a[0]] + CommonPrefix(a[1..], b[1..])
  }

  /** Every common ancestor of two nodes is an ancestor of their common prefix. */
  lemma CommonPrefixGreatest(a: Path, b: Path, q: Path)
    requires q <= a && q <= b
    ensures q <= CommonPrefix(a, b)
  {
  }

  /** The lowest common ancestor of a non-empty list of nodes, as ete3's `get_common_ancestor`. */
  function CommonAncestor(ps: seq<Path>): (c: Path)
    requires |ps| > 0
    ensures forall i :: 0 <= i < |ps| ==> c <= ps[i]
  {
    if |ps| == 1 then ps[0]
    else
      var c := CommonPrefix(CommonAncestor(ps[..|ps| - 1]), ps[|ps| - 1]);
      assert forall i :: 0 <= i < |ps| - 1 ==> ps[..|ps| - 1][i] == ps[i];
      c
  }

  /** ... and it is the lowest: every node that is an ancestor of all of them is its ancestor. */
  lemma {:induction false} CommonAncestorLowest(ps: seq<Path>, q: Path)
    requires |ps| > 0
    requires forall i :: 0 <= i < |ps| ==> q <= ps[i]
    ensures q <= CommonAncestor(ps)
  {
    if |ps| > 1 {
      var init := ps[..|ps| - 1];
      assert forall i :: 0 <= i < |init| ==> init[i] == ps[i];
      CommonAncestorLowest(init, q);
      CommonPrefixGreatest(CommonAncestor(init), ps[|ps| - 1], q);
    }
  }
}
