/** Worked examples of the reply-tree and thread logic on small concrete inputs. */
module Scenarios {
  import opened Wrappers
  import opened Seqs
  import opened Dicts
  import opened Utils
  import opened Thread

  /** `{3: 1, 2: 1, 4: 2}`: replies 3 and 2 to tweet 1, then 4 to tweet 2, recorded in that order. */
  function Replies(): (d: Dict<Id, Id>)
    ensures d.Valid()
    ensures d.keys == [3, 2, 4] && d.values == map[3 := 1, 2 := 1, 4 := 2]
  {
    var d := Dict([3, 2, 4], map[3 := 1, 2 := 1, 4 := 2]);
    assert forall k :: k in d.keys <==> k == 3 || k == 2 || k == 4;
    d
  }

  /** A rank that falls along every reply: five minus the id. */
  function Depth(x: Id): nat {
    if x <= 5 then 5 - x else 0
  }

  lemma RepliesChildren()
    ensures ChildrenIn([3, 2, 4], map[3 := 1, 2 := 1, 4 := 2], 1) == [3, 2]
    ensures ChildrenIn([3, 2, 4], map[3 := 1, 2 := 1, 4 := 2], 2) == [4]
  {
    assert [3, 2, 4][..2] == [3, 2];
    assert [3, 2][..1] == [3];
    assert [3][..0] == [];
  }

  lemma RepliesParents()
    ensures ParentsIn([3, 2, 4], map[3 := 1, 2 := 1, 4 := 2]) == {1, 2}
  {
    var ks, m := [3, 2, 4], map[3 := 1, 2 := 1, 4 := 2];
    assert ks[0] == 3 && ks[2] == 4;
    assert m[3] == 1 && m[4] == 2;
    assert 1 in ParentsIn(ks, m);
    assert 2 in ParentsIn(ks, m);
    forall p | p in ParentsIn(ks, m) ensures p == 1 || p == 2 {
      var k :| k in ks && m[k] == p;
    }
  }

  /** Children keep the order they were recorded in: 3 before 2 under tweet 1. */
  lemma ReplyTree()
    ensures TreeOf(Replies()) == map[1 := [3, 2], 2 := [4]]
  {
    RepliesTree();
    var d := Replies();
    assert TreeOf(d) == TreeOver([3, 2, 4], map[3 := 1, 2 := 1, 4 := 2]);
  }

  lemma RepliesTree()
    ensures TreeOver([3, 2, 4], map[3 := 1, 2 := 1, 4 := 2]) == map[1 := [3, 2], 2 := [4]]
  {
    RepliesChildren();
    RepliesParents();
  }

  /** The reply tree, written out. */
  function SmallTree(): (t: Tree)
    ensures RankedBy(t, Depth)
  {
    map[1 := [3, 2], 2 := [4]]
  }

  lemma SortChildren()
    ensures Sort([3, 2]) == [2, 3] && Sort([4]) == [4]
  {
    assert [3, 2][1..] == [2];
    assert [2][1..] == [];
    assert [4][1..] == [];
  }

  lemma WalkLeaves()
    ensures Enumerate(SmallTree(), 4, Depth) == [4]
    ensures Enumerate(SmallTree(), 3, Depth) == [3]
  {
  }

  lemma WalkTwo()
    ensures Enumerate(SmallTree(), 2, Depth) == [2, 4]
  {
    SortChildren();
    WalkLeaves();
    var t := SmallTree();
    assert EnumerateAll(t, [4][1..], Depth, Depth(2)) == [];
    assert EnumerateAll(t, [4], Depth, Depth(2)) == [4];
  }

  lemma WalkKids()
    ensures EnumerateAll(SmallTree(), [2, 3], Depth, Depth(1)) == [2, 4, 3]
  {
    WalkLeaves();
    WalkTwo();
    var t := SmallTree();
    assert [2, 3][1..] == [3] && [3][1..] == [];
    assert EnumerateAll(t, [3], Depth, Depth(1)) == [3];
    assert [2, 4] + [3] == [2, 4, 3];
  }

  lemma WalkOne()
    ensures Enumerate(SmallTree(), 1, Depth) == [1, 2, 4, 3]
  {
    SortChildren();
    WalkKids();
    var t := SmallTree();
    assert t[1] == [3, 2];
    assert Enumerate(t, 1, Depth) == [1] + EnumerateAll(t, [2, 3], Depth, Depth(1));
  }

  /** The walk takes the children in ascending id order: 1, then 2 and its reply 4, then 3. */
  lemma ReplyTreeWalk()
    ensures RankedBy(TreeOf(Replies()), Depth)
    ensures Enumerate(TreeOf(Replies()), 1, Depth) == [1, 2, 4, 3]
  {
    ReplyTree();
    WalkOne();
  }

  /**
   * The tagging tweet 5 is dropped wherever it falls; a reply by another author
   * (3, whose text was never recorded) makes the lookup fail rather than be skipped.
   */
  lemma ThreadLookupFails()
    ensures LookupTexts([1, 2, 4, 5, 3], 5, map[1 := "a", 2 := "b", 4 := "d"]) == Err(3)
  {
    var ids := [1, 2, 4, 5, 3];
    assert ids[1..] == [2, 4, 5, 3] && ids[1..][1..] == [4, 5, 3];
    assert [4, 5, 3][1..] == [5, 3] && [5, 3][1..] == [3] && [3][1..] == [];
  }

  /** The recorded texts of the walk's ids. */
  function AllTexts(): map<Id, string> {
    map[1 := "a", 2 := "b", 4 := "d", 3 := "c"]
  }

  lemma LookupTail()
    ensures LookupTexts([5, 3], 5, AllTexts()) == Ok(["c"])
  {
    assert [3][1..] == [] && [5, 3][1..] == [3];
    assert LookupTexts([], 5, AllTexts()) == Ok([]);
    assert ["c"] + [] == ["c"];
  }

  /** With every remaining id recorded, the texts come back in walk order, the tagging tweet left out. */
  lemma ThreadLookupSucceeds()
    ensures LookupTexts([1, 2, 4, 5, 3], 5, AllTexts()) == Ok(["a", "b", "d", "c"])
  {
    LookupTail();
    assert [4, 5, 3][1..] == [5, 3];
    assert ["d"] + ["c"] == ["d", "c"];
    assert LookupTexts([4, 5, 3], 5, AllTexts()) == Ok(["d", "c"]);
    assert [2, 4, 5, 3][1..] == [4, 5, 3];
    assert ["b"] + ["d", "c"] == ["b", "d", "c"];
    assert LookupTexts([2, 4, 5, 3], 5, AllTexts()) == Ok(["b", "d", "c"]);
    assert [1, 2, 4, 5, 3][1..] == [2, 4, 5, 3];
    assert ["a"] + ["b", "d", "c"] == ["a", "b", "d", "c"];
  }
}
