/**
 * The reply-tree logic of the bot: reading a tweet's parent off its references,
 * inverting the child-to-parent dictionary into a tree, and walking that tree
 * depth first with children in ascending id order.
 */
module Utils {
  import opened Wrappers
  import opened Seqs
  import opened Dicts

  /** Tweet and user ids (64-bit snowflakes; only their order and equality matter here). */
  type Id = nat

  /** One entry of a tweet's `referenced_tweets`: its `type` and the referenced tweet's `id`. */
  datatype Reference = Reference(kind: string, id: Id)

  /** The fields of a tweet record the bot reads; `referencedTweets` is `None` when the field is absent. */
  datatype Tweet = Tweet(
    id: Id,
    authorId: Id,
    conversationId: Id,
    text: string,
    referencedTweets: Option<seq<Reference>>)

  const RepliedTo: string := "replied_to"

  // ---------------------------------------------------------------- get_parent

  /** `refs[i]` is the first reference of type `replied_to`. */
  predicate IsFirstReply(refs: seq<Reference>, i: int) {
    0 <= i < |refs| && refs[i].kind == RepliedTo
    && forall j :: 0 <= j < i ==> refs[j].kind != RepliedTo
  }

  /** The id of the first `replied_to` reference; other reference types are passed over. */
  function FirstReply(refs: seq<Reference>): (r: Option<Id>)
    ensures r.None? <==> forall i :: 0 <= i < |refs| ==> refs[i].kind != RepliedTo
    ensures r.Some? ==> exists i :: IsFirstReply(refs, i) && refs[i].id == r.value
    decreases |refs|
  {
    if refs == [] then None
    else if refs[0].kind == RepliedTo then
      assert IsFirstReply(refs, 0);
      Some(refs[0].id)
    else
      var r := FirstReply(refs[1..]);
      assert r.Some? ==> exists i :: IsFirstReply(refs, i) && refs[i].id == r.value by {
        if r.Some? {
          var i :| IsFirstReply(refs[1..], i) && refs[1..][i].id == r.value;
          assert IsFirstReply(refs, i + 1);
        }
      }
      r
  }

  /** `get_parent`: the tweet this one replies to, or `None` if it has no `replied_to` reference. */
  function GetParent(t: Tweet): (r: Option<Id>)
    ensures r.None? <==>
      (t.referencedTweets.None?
       || forall i :: 0 <= i < |t.referencedTweets.value| ==> t.referencedTweets.value[i].kind != RepliedTo)
    ensures r.Some? ==>
      t.referencedTweets.Some?
      && exists i :: IsFirstReply(t.referencedTweets.value, i) && t.referencedTweets.value[i].id == r.value
  {
    match t.referencedTweets
    case None => None
    case Some(refs) => FirstReply(refs)
  }

  // ---------------------------------------------------------------- build_tweet_tree

  /** Parent id to the list of its children's ids. */
  type Tree = map<Id, seq<Id>>

  /** Every key listed has a parent recorded. */
  predicate Covered(keys: seq<Id>, parentOf: map<Id, Id>) {
    forall k :: k in keys ==> k in parentOf
  }

  /** The keys of `keys` whose parent is `p`, in the order of `keys`. */
  function ChildrenIn(keys: seq<Id>, parentOf: map<Id, Id>, p: Id): seq<Id>
    requires Covered(keys, parentOf)
    decreases |keys|
  {
    if keys == [] then []
    else
      var last := keys[|keys| - 1];
      ChildrenIn(keys[..|keys| - 1], parentOf, p) + (if parentOf[last] == p then [last] else [])
  }

  /** The parents of the keys listed. */
  function ParentsIn(keys: seq<Id>, parentOf: map<Id, Id>): set<Id>
    requires Covered(keys, parentOf)
  {
    set k | k in keys :: parentOf[k]
  }

  /** The tree of the listed keys: each parent maps to its children in list order. */
  function TreeOver(keys: seq<Id>, parentOf: map<Id, Id>): Tree
    requires Covered(keys, parentOf)
  {
    map p | p in ParentsIn(keys, parentOf) :: ChildrenIn(keys, parentOf, p)
  }

  /** The tree `build_tweet_tree` is meant to return for the dictionary `parents`. */
  function TreeOf(parents: Dict<Id, Id>): (r: Tree)
    requires parents.Valid()
    ensures r.Keys == parents.values.Values
  {
    TreeOver(parents.keys, parents.values)
  }

  lemma {:induction false} ChildrenInMembers(keys: seq<Id>, parentOf: map<Id, Id>, p: Id, c: Id)
    requires Covered(keys, parentOf)
    ensures c in ChildrenIn(keys, parentOf, p) <==> c in keys && parentOf[c] == p
    decreases |keys|
  {
    if keys != [] {
      var init := keys[..|keys| - 1];
      assert keys == init + [keys[|keys| - 1]];
      ChildrenInMembers(init, parentOf, p, c);
    }
  }

  lemma {:induction false} ChildrenInDistinct(keys: seq<Id>, parentOf: map<Id, Id>, p: Id)
    requires Covered(keys, parentOf) && Distinct(keys)
    ensures Distinct(ChildrenIn(keys, parentOf, p))
    decreases |keys|
  {
    if keys != [] {
      var init, last := keys[..|keys| - 1], keys[|keys| - 1];
      assert keys == init + [last];
      ChildrenInDistinct(init, parentOf, p);
      forall c | c in ChildrenIn(init, parentOf, p)
        ensures c !in (if parentOf[last] == p then [last] else [])
      {
        ChildrenInMembers(init, parentOf, p, c);
      }
      DistinctConcat(ChildrenIn(init, parentOf, p), if parentOf[last] == p then [last] else []);
    }
  }

  /** Appending one key to the list appends it to its parent's children and leaves the rest alone. */
  lemma TreeOverSnoc(keys: seq<Id>, k: Id, parentOf: map<Id, Id>)
    requires Covered(keys + [k], parentOf)
    ensures Covered(keys, parentOf)
    ensures var t, p := TreeOver(keys, parentOf), parentOf[k];
            TreeOver(keys + [k], parentOf) == t[p := (if p in t then t[p] else []) + [k]]
  {
    var ks := keys + [k];
    assert Covered(keys, parentOf) by {
      forall x | x in keys ensures x in parentOf { assert x in ks; }
    }
    var t, p := TreeOver(keys, parentOf), parentOf[k];
    var t' := TreeOver(ks, parentOf);
    assert ks[..|ks| - 1] == keys;
    assert ParentsIn(ks, parentOf) == ParentsIn(keys, parentOf) + {p};
    if p !in t {
      if ChildrenIn(keys, parentOf, p) != [] {
        var c := ChildrenIn(keys, parentOf, p)[0];
        ChildrenInMembers(keys, parentOf, p, c);
      }
    }
    assert t'.Keys == t.Keys + {p};
    forall q | q in t'
      ensures t'[q] == t[p := (if p in t then t[p] else []) + [k]][q]
    {
    }
  }

  /** `build_tweet_tree`: append each child to its parent's list, in the dictionary's order. */
  method BuildTweetTree(parents: Dict<Id, Id>) returns (tree: Tree)
    requires parents.Valid()
    ensures tree == TreeOf(parents)
  {
    tree := map[];
    for i := 0 to |parents.keys|
      invariant tree == TreeOver(parents.keys[..i], parents.values)
    {
      var child := parents.keys[i];
      var parent := parents.values[child];
      var siblings := if parent in tree then tree[parent] else [];
      assert parents.keys[..i + 1] == parents.keys[..i] + [child];
      TreeOverSnoc(parents.keys[..i], child, parents.values);
      tree := tree[parent := siblings + [child]];
    }
    assert parents.keys[..|parents.keys|] == parents.keys;
  }

  /** `c` is in `tree[p]` exactly when `parents[c] == p`. */
  lemma TreeChildIff(parents: Dict<Id, Id>, p: Id, c: Id)
    requires parents.Valid()
    ensures (p in TreeOf(parents) && c in TreeOf(parents)[p]) <==> (c in parents.values && parents.values[c] == p)
  {
    ChildrenInMembers(parents.keys, parents.values, p, c);
  }

  /** The keys of the tree are exactly the parent values, and no list is empty. */
  lemma TreeKeys(parents: Dict<Id, Id>)
    requires parents.Valid()
    ensures TreeOf(parents).Keys == parents.values.Values
    ensures forall p :: p in TreeOf(parents) ==> TreeOf(parents)[p] != []
  {
    var t := TreeOf(parents);
    forall p | p in t
      ensures t[p] != []
    {
      var k :| k in parents.keys && parents.values[k] == p;
      ChildrenInMembers(parents.keys, parents.values, p, k);
    }
  }

  /** No child is listed under two parents. */
  ghost predicate UniqueParents(tree: Tree) {
    forall p, q, c :: p in tree && q in tree && c in tree[p] && c in tree[q] ==> p == q
  }

  /** No child is listed twice under one parent. */
  ghost predicate ChildListsDistinct(tree: Tree) {
    forall p :: p in tree ==> Distinct(tree[p])
  }

  /** Every child appears in exactly one list, and exactly once there. */
  lemma TreeWellFormed(parents: Dict<Id, Id>)
    requires parents.Valid()
    ensures UniqueParents(TreeOf(parents))
    ensures ChildListsDistinct(TreeOf(parents))
  {
    var t := TreeOf(parents);
    forall p, q, c | p in t && q in t && c in t[p] && c in t[q]
      ensures p == q
    {
      TreeChildIff(parents, p, c);
      TreeChildIff(parents, q, c);
    }
    forall p | p in t
      ensures Distinct(t[p])
    {
      ChildrenInDistinct(parents.keys, parents.values, p);
    }
  }

  /** Lists are not sorted: a newly inserted child goes to the end of its parent's list. */
  lemma TreeOfPutNew(parents: Dict<Id, Id>, k: Id, p: Id)
    requires parents.Valid() && k !in parents.values
    ensures var t := TreeOf(parents);
            TreeOf(parents.Put(k, p)) == t[p := (if p in t then t[p] else []) + [k]]
  {
    var d := parents.Put(k, p);
    assert d.keys == parents.keys + [k];
    assert forall x :: x in parents.keys ==> x != k;
    assert ChildrenIn(d.keys, d.values, p) == ChildrenIn(d.keys, parents.values[k := p], p);
    forall x | x in parents.keys + [k] ensures x in parents.values[k := p] { }
    TreeOverSnoc(parents.keys, k, d.values);
    TreeOverAgree(parents.keys, parents.values, d.values);
  }

  /** The tree of a key list depends only on those keys' parents. */
  lemma {:induction false} TreeOverAgree(keys: seq<Id>, m1: map<Id, Id>, m2: map<Id, Id>)
    requires Covered(keys, m1) && Covered(keys, m2)
    requires forall k :: k in keys ==> m1[k] == m2[k]
    ensures TreeOver(keys, m1) == TreeOver(keys, m2)
  {
    forall p
      ensures ChildrenIn(keys, m1, p) == ChildrenIn(keys, m2, p)
    {
      ChildrenInAgree(keys, m1, m2, p);
    }
  }

  lemma {:induction false} ChildrenInAgree(keys: seq<Id>, m1: map<Id, Id>, m2: map<Id, Id>, p: Id)
    requires Covered(keys, m1) && Covered(keys, m2)
    requires forall k :: k in keys ==> m1[k] == m2[k]
    ensures ChildrenIn(keys, m1, p) == ChildrenIn(keys, m2, p)
    decreases |keys|
  {
    if keys != [] {
      var init := keys[..|keys| - 1];
      assert forall k :: k in init ==> k in keys;
      ChildrenInAgree(init, m1, m2, p);
    }
  }

  // ---------------------------------------------------------------- tree size

  /** Length of `tree[p]` when `p` is a key, zero otherwise. */
  function ListLen(tree: Tree, p: Id): nat {
    if p in tree then |tree[p]| else 0
  }

  /** Sum of the list lengths of the parents in `ps`. */
  ghost function TotalChildren(tree: Tree, ps: seq<Id>): nat
    decreases |ps|
  {
    if ps == [] then 0 else ListLen(tree, ps[0]) + TotalChildren(tree, ps[1..])
  }

  lemma {:induction false} TotalChildrenAgree(t1: Tree, t2: Tree, ps: seq<Id>)
    requires forall q :: q in ps ==> ListLen(t1, q) == ListLen(t2, q)
    ensures TotalChildren(t1, ps) == TotalChildren(t2, ps)
    decreases |ps|
  {
    if ps != [] {
      TotalChildrenAgree(t1, t2, ps[1..]);
    }
  }

  lemma {:induction false} TotalChildrenBump(t1: Tree, t2: Tree, ps: seq<Id>, p: Id)
    requires Distinct(ps) && p in ps
    requires forall q :: q in ps && q != p ==> ListLen(t2, q) == ListLen(t1, q)
    requires ListLen(t2, p) == ListLen(t1, p) + 1
    ensures TotalChildren(t2, ps) == TotalChildren(t1, ps) + 1
    decreases |ps|
  {
    if ps[0] == p {
      assert p !in ps[1..];
      TotalChildrenAgree(t1, t2, ps[1..]);
    } else {
      TotalChildrenBump(t1, t2, ps[1..], p);
    }
  }

  lemma {:induction false} TotalChildrenOver(keys: seq<Id>, parentOf: map<Id, Id>, ps: seq<Id>)
    requires Covered(keys, parentOf) && Distinct(ps)
    requires forall p :: p in ParentsIn(keys, parentOf) ==> p in ps
    ensures TotalChildren(TreeOver(keys, parentOf), ps) == |keys|
    decreases |keys|
  {
    if keys == [] {
      TotalChildrenAgree(TreeOver(keys, parentOf), map[], ps);
      TotalChildrenEmpty(ps);
    } else {
      var init, last := keys[..|keys| - 1], keys[|keys| - 1];
      assert keys == init + [last];
      TreeOverSnoc(init, last, parentOf);
      assert ParentsIn(init, parentOf) <= ParentsIn(keys, parentOf);
      TotalChildrenOver(init, parentOf, ps);
      assert parentOf[last] in ParentsIn(keys, parentOf);
      TotalChildrenBump(TreeOver(init, parentOf), TreeOver(keys, parentOf), ps, parentOf[last]);
    }
  }

  lemma {:induction false} TotalChildrenEmpty(ps: seq<Id>)
    ensures TotalChildren(map[], ps) == 0
    decreases |ps|
  {
    if ps != [] {
      TotalChildrenEmpty(ps[1..]);
    }
  }

  /**
   * The lists together hold as many entries as `parents` has keys: summed over
   * any listing of the tree's keys, the list lengths give `len(parents)`, the
   * number of keys in the dictionary's order.
   */
  lemma TreeSize(parents: Dict<Id, Id>, ps: seq<Id>)
    requires parents.Valid()
    requires Distinct(ps) && forall p :: p in ps <==> p in TreeOf(parents)
    ensures TotalChildren(TreeOf(parents), ps) == |parents.keys|
  {
    TotalChildrenOver(parents.keys, parents.values, ps);
  }

  // ---------------------------------------------------------------- enumerate_tweet_tree

  /** `rank` strictly decreases from a parent to each of its children, so the tree has no cycle. */
  ghost predicate RankedBy(tree: Tree, rank: Id -> nat) {
    forall p, c :: p in tree && c in tree[p] ==> rank(c) < rank(p)
  }

  /**
   * `enumerate_tweet_tree`: the root, then the enumerations of its children in
   * ascending id order. `rank` only witnesses termination on an acyclic tree.
   */
  function Enumerate(tree: Tree, root: Id, ghost rank: Id -> nat): (r: seq<Id>)
    requires RankedBy(tree, rank)
    ensures |r| >= 1 && r[0] == root
    ensures root !in tree ==> r == [root]
    decreases rank(root), 1
  {
    if root !in tree then [root]
    else
      var kids := Sort(tree[root]);
      assert forall k :: k in kids ==> k in tree[root] by {
        forall k | k in kids ensures k in tree[root] { assert k in multiset(kids); }
      }
      [root] + EnumerateAll(tree, kids, rank, rank(root))
  }

  /** The concatenated enumerations of `kids`, each of rank below `bound`. */
  function EnumerateAll(tree: Tree, kids: seq<Id>, ghost rank: Id -> nat, ghost bound: nat): seq<Id>
    requires RankedBy(tree, rank)
    requires forall k :: k in kids ==> rank(k) < bound
    decreases bound, 0, |kids|
  {
    if kids == [] then []
    else Enumerate(tree, kids[0], rank) + EnumerateAll(tree, kids[1..], rank, bound)
  }

  /** `x` is `root` or reachable from `root` along parent-to-child edges. */
  ghost predicate InSubtree(tree: Tree, root: Id, x: Id, rank: Id -> nat)
    requires RankedBy(tree, rank)
    decreases rank(root)
  {
    x == root || (root in tree && exists c :: c in tree[root] && InSubtree(tree, c, x, rank))
  }

  lemma SortMembers(s: seq<nat>)
    ensures forall k :: k in Sort(s) <==> k in s
  {
    forall k ensures k in Sort(s) <==> k in s {
      assert k in Sort(s) <==> k in multiset(Sort(s));
    }
  }

  /**
   * Children are visited smallest id first: right after a root with children comes
   * its least child, whatever the order of its list.
   */
  lemma EnumerateSmallestChildFirst(tree: Tree, root: Id, rank: Id -> nat)
    requires RankedBy(tree, rank)
    requires root in tree && tree[root] != []
    ensures var r := Enumerate(tree, root, rank);
      |r| >= 2 && r[1] in tree[root] && forall c :: c in tree[root] ==> r[1] <= c
  {
    var kids := Sort(tree[root]);
    SortMembers(tree[root]);
    assert kids != [] by {
      assert tree[root][0] in kids;
    }
    forall c | c in tree[root] ensures kids[0] <= c {
      var j :| 0 <= j < |kids| && kids[j] == c;
    }
  }

  /** Exactly the ids reachable from the root are enumerated; disconnected tweets never appear. */
  lemma {:induction false} EnumerateMembers(tree: Tree, root: Id, rank: Id -> nat, x: Id)
    requires RankedBy(tree, rank)
    ensures x in Enumerate(tree, root, rank) <==> InSubtree(tree, root, x, rank)
    decreases rank(root), 1
  {
    if root in tree {
      var kids := Sort(tree[root]);
      SortMembers(tree[root]);
      EnumerateAllMembers(tree, kids, rank, rank(root), x);
    }
  }

  lemma {:induction false} EnumerateAllMembers(tree: Tree, kids: seq<Id>, rank: Id -> nat, bound: nat, x: Id)
    requires RankedBy(tree, rank)
    requires forall k :: k in kids ==> rank(k) < bound
    ensures x in EnumerateAll(tree, kids, rank, bound) <==> exists k :: k in kids && InSubtree(tree, k, x, rank)
    decreases bound, 0, |kids|
  {
    if kids != [] {
      EnumerateMembers(tree, kids[0], rank, x);
      EnumerateAllMembers(tree, kids[1..], rank, bound, x);
      assert kids == [kids[0]] + kids[1..];
    }
  }

  /** Everything below the root has smaller rank than the root. */
  lemma {:induction false} SubtreeRank(tree: Tree, root: Id, x: Id, rank: Id -> nat)
    requires RankedBy(tree, rank) && InSubtree(tree, root, x, rank)
    ensures x == root || rank(x) < rank(root)
    decreases rank(root)
  {
    if x != root {
      var c :| c in tree[root] && InSubtree(tree, c, x, rank);
      SubtreeRank(tree, c, x, rank);
    }
  }

  /** With unique parents, the parent of any proper descendant of `u` is itself in `u`'s subtree. */
  lemma {:induction false} ParentInSubtree(tree: Tree, u: Id, v: Id, w: Id, rank: Id -> nat)
    requires RankedBy(tree, rank) && UniqueParents(tree)
    requires InSubtree(tree, u, v, rank) && v != u
    requires w in tree && v in tree[w]
    ensures InSubtree(tree, u, w, rank)
    decreases rank(u)
  {
    var c :| c in tree[u] && InSubtree(tree, c, v, rank);
    if c != v {
      ParentInSubtree(tree, c, v, w, rank);
    }
  }

  /** Two subtrees that share an id are nested. */
  lemma {:induction false} SubtreesNested(tree: Tree, a: Id, b: Id, x: Id, rank: Id -> nat)
    requires RankedBy(tree, rank) && UniqueParents(tree)
    requires InSubtree(tree, a, x, rank) && InSubtree(tree, b, x, rank)
    ensures InSubtree(tree, a, b, rank) || InSubtree(tree, b, a, rank)
    decreases rank(a) + rank(b)
  {
    if x != a && x != b {
      var ca :| ca in tree[a] && InSubtree(tree, ca, x, rank);
      var cb :| cb in tree[b] && InSubtree(tree, cb, x, rank);
      SubtreesNested(tree, ca, cb, x, rank);
      if ca == cb {
        assert a == b;
      } else if InSubtree(tree, ca, cb, rank) {
        ParentInSubtree(tree, ca, cb, b, rank);
      } else {
        ParentInSubtree(tree, cb, ca, a, rank);
      }
    }
  }

  /** The subtrees of two different children of one parent are disjoint. */
  lemma SiblingsDisjoint(tree: Tree, p: Id, k1: Id, k2: Id, x: Id, rank: Id -> nat)
    requires RankedBy(tree, rank) && UniqueParents(tree)
    requires p in tree && k1 in tree[p] && k2 in tree[p] && k1 != k2
    ensures !(InSubtree(tree, k1, x, rank) && InSubtree(tree, k2, x, rank))
  {
    if InSubtree(tree, k1, x, rank) && InSubtree(tree, k2, x, rank) {
      SubtreesNested(tree, k1, k2, x, rank);
      if InSubtree(tree, k1, k2, rank) {
        ParentInSubtree(tree, k1, k2, p, rank);
        SubtreeRank(tree, k1, p, rank);
      } else {
        ParentInSubtree(tree, k2, k1, p, rank);
        SubtreeRank(tree, k2, p, rank);
      }
    }
  }

  /** On a tree with unique parents and repetition-free lists, no id is enumerated twice. */
  lemma {:induction false} EnumerateDistinct(tree: Tree, root: Id, rank: Id -> nat)
    requires RankedBy(tree, rank) && UniqueParents(tree) && ChildListsDistinct(tree)
    ensures Distinct(Enumerate(tree, root, rank))
    decreases rank(root), 1
  {
    if root in tree {
      var kids := Sort(tree[root]);
      SortMembers(tree[root]);
      DistinctPermutation(tree[root], kids);
      EnumerateAllDistinct(tree, root, kids, rank, rank(root));
      var rest := EnumerateAll(tree, kids, rank, rank(root));
      forall x | x in rest
        ensures x != root
      {
        EnumerateAllMembers(tree, kids, rank, rank(root), x);
        var k :| k in kids && InSubtree(tree, k, x, rank);
        SubtreeRank(tree, k, x, rank);
      }
      DistinctConcat([root], rest);
    }
  }

  lemma {:induction false} EnumerateAllDistinct(tree: Tree, p: Id, kids: seq<Id>, rank: Id -> nat, bound: nat)
    requires RankedBy(tree, rank) && UniqueParents(tree) && ChildListsDistinct(tree)
    requires p in tree && Distinct(kids) && forall k :: k in kids ==> k in tree[p]
    requires forall k :: k in kids ==> rank(k) < bound
    ensures Distinct(EnumerateAll(tree, kids, rank, bound))
    decreases bound, 0, |kids|
  {
    if kids != [] {
      EnumerateDistinct(tree, kids[0], rank);
      EnumerateAllDistinct(tree, p, kids[1..], rank, bound);
      var first, rest := Enumerate(tree, kids[0], rank), EnumerateAll(tree, kids[1..], rank, bound);
      forall x | x in first
        ensures x !in rest
      {
        EnumerateMembers(tree, kids[0], rank, x);
        EnumerateAllMembers(tree, kids[1..], rank, bound, x);
        if x in rest {
          var k :| k in kids[1..] && InSubtree(tree, k, x, rank);
          assert k != kids[0];
          SiblingsDisjoint(tree, p, kids[0], k, x, rank);
        }
      }
      DistinctConcat(first, rest);
    }
  }

  /** Each reachable id appears exactly once, and nothing else appears. */
  lemma EnumerateExactlyOnce(tree: Tree, root: Id, rank: Id -> nat, x: Id)
    requires RankedBy(tree, rank) && UniqueParents(tree) && ChildListsDistinct(tree)
    ensures multiset(Enumerate(tree, root, rank))[x] == if InSubtree(tree, root, x, rank) then 1 else 0
  {
    EnumerateDistinct(tree, root, rank);
    EnumerateMembers(tree, root, rank, x);
    DistinctCount(Enumerate(tree, root, rank), x);
  }

  /** The rank is a proof device only: any two ranks give the same enumeration. */
  lemma {:induction false} EnumerateRankIrrelevant(tree: Tree, root: Id, r1: Id -> nat, r2: Id -> nat)
    requires RankedBy(tree, r1) && RankedBy(tree, r2)
    ensures Enumerate(tree, root, r1) == Enumerate(tree, root, r2)
    decreases r1(root), 1
  {
    if root in tree {
      var kids := Sort(tree[root]);
      SortMembers(tree[root]);
      EnumerateAllRankIrrelevant(tree, kids, r1, r1(root), r2, r2(root));
    }
  }

  lemma {:induction false} EnumerateAllRankIrrelevant(tree: Tree, kids: seq<Id>, r1: Id -> nat, b1: nat, r2: Id -> nat, b2: nat)
    requires RankedBy(tree, r1) && RankedBy(tree, r2)
    requires forall k :: k in kids ==> r1(k) < b1 && r2(k) < b2
    ensures EnumerateAll(tree, kids, r1, b1) == EnumerateAll(tree, kids, r2, b2)
    decreases b1, 0, |kids|
  {
    if kids != [] {
      EnumerateRankIrrelevant(tree, kids[0], r1, r2);
      EnumerateAllRankIrrelevant(tree, kids[1..], r1, b1, r2, b2);
    }
  }

  /** Because children are sorted, only the multiset of each child list matters, not its order. */
  lemma {:induction false} EnumerateIgnoresListOrder(t1: Tree, t2: Tree, root: Id, rank: Id -> nat)
    requires RankedBy(t1, rank) && RankedBy(t2, rank)
    requires t1.Keys == t2.Keys
    requires forall p :: p in t1 ==> multiset(t1[p]) == multiset(t2[p])
    ensures Enumerate(t1, root, rank) == Enumerate(t2, root, rank)
    decreases rank(root), 1
  {
    if root in t1 {
      SortedUnique(Sort(t1[root]), Sort(t2[root]));
      var kids := Sort(t1[root]);
      SortMembers(t1[root]);
      EnumerateAllIgnoresListOrder(t1, t2, kids, rank, rank(root));
    }
  }

  lemma {:induction false} EnumerateAllIgnoresListOrder(t1: Tree, t2: Tree, kids: seq<Id>, rank: Id -> nat, bound: nat)
    requires RankedBy(t1, rank) && RankedBy(t2, rank)
    requires t1.Keys == t2.Keys
    requires forall p :: p in t1 ==> multiset(t1[p]) == multiset(t2[p])
    requires forall k :: k in kids ==> rank(k) < bound
    ensures EnumerateAll(t1, kids, rank, bound) == EnumerateAll(t2, kids, rank, bound)
    decreases bound, 0, |kids|
  {
    if kids != [] {
      EnumerateIgnoresListOrder(t1, t2, kids[0], rank);
      EnumerateAllIgnoresListOrder(t1, t2, kids[1..], rank, bound);
    }
  }

  /** Every edge of the dictionary lowers the rank: the reply graph is acyclic. */
  ghost predicate ParentsRanked(parents: Dict<Id, Id>, rank: Id -> nat) {
    forall c :: c in parents.values ==> rank(c) < rank(parents.values[c])
  }

  lemma TreeOfRanked(parents: Dict<Id, Id>, rank: Id -> nat)
    requires parents.Valid() && ParentsRanked(parents, rank)
    ensures RankedBy(TreeOf(parents), rank)
  {
    forall p, c | p in TreeOf(parents) && c in TreeOf(parents)[p]
      ensures rank(c) < rank(p)
    {
      TreeChildIff(parents, p, c);
    }
  }

  /**
   * On the tree built from an acyclic `parents`, every id reachable from the
   * root is enumerated exactly once and nothing else is.
   */
  lemma TreeEnumerationExactlyOnce(parents: Dict<Id, Id>, root: Id, rank: Id -> nat, x: Id)
    requires parents.Valid() && ParentsRanked(parents, rank)
    ensures RankedBy(TreeOf(parents), rank)
    ensures multiset(Enumerate(TreeOf(parents), root, rank))[x]
            == if InSubtree(TreeOf(parents), root, x, rank) then 1 else 0
  {
    TreeOfRanked(parents, rank);
    TreeWellFormed(parents);
    EnumerateExactlyOnce(TreeOf(parents), root, rank, x);
  }

  /**
   * Two dictionaries with the same entries in different insertion orders give the
   * same enumeration: the result does not depend on the iteration order of `parents`.
   */
  lemma EnumerateIgnoresInsertionOrder(d1: Dict<Id, Id>, d2: Dict<Id, Id>, root: Id, rank: Id -> nat)
    requires d1.Valid() && d2.Valid() && d1.values == d2.values
    requires ParentsRanked(d1, rank)
    ensures RankedBy(TreeOf(d1), rank) && RankedBy(TreeOf(d2), rank)
    ensures Enumerate(TreeOf(d1), root, rank) == Enumerate(TreeOf(d2), root, rank)
  {
    TreeOfRanked(d1, rank);
    TreeOfRanked(d2, rank);
    TreeKeys(d1);
    TreeKeys(d2);
    TreeWellFormed(d1);
    TreeWellFormed(d2);
    var t1, t2 := TreeOf(d1), TreeOf(d2);
    forall p | p in t1
      ensures multiset(t1[p]) == multiset(t2[p])
    {
      forall c ensures c in t1[p] <==> c in t2[p] {
        TreeChildIff(d1, p, c);
        TreeChildIff(d2, p, c);
      }
      SameElementsPermutation(t1[p], t2[p]);
    }
    EnumerateIgnoresListOrder(t1, t2, root, rank);
  }
}
