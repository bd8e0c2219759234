/** Both filters of the threading code keep their survivors in input order. */
module Order {
  import opened Wrappers
  import opened Query

  /** `idx` lists, in increasing order, exactly the positions of `s` whose comment has
      parent reference `key`, and `r` holds the comments at those positions. This
      describes a stable filter without saying how it is computed. */
  ghost predicate IsSelection(s: seq<Comment>, key: Option<int>, r: seq<Comment>, idx: seq<int>) {
    Picks(s, r, idx) && Increasing(idx) && Covers(s, key, idx)
  }

  /** `r[k]` is the comment of `s` at position `idx[k]`. */
  ghost predicate Picks(s: seq<Comment>, r: seq<Comment>, idx: seq<int>) {
    |idx| == |r| && forall k :: 0 <= k < |idx| ==> 0 <= idx[k] < |s| && r[k] == s[idx[k]]
  }

  ghost predicate Increasing(idx: seq<int>) {
    forall k, l :: 0 <= k < l < |idx| ==> idx[k] < idx[l]
  }

  /** `idx` names exactly the positions of `s` whose comment has parent reference `key`. */
  ghost predicate Covers(s: seq<Comment>, key: Option<int>, idx: seq<int>) {
    forall i :: 0 <= i < |s| ==> (s[i].parentId == key <==> i in idx)
  }

  /** The filter keeps every comment with parent reference `key`, drops every other one,
      and keeps the survivors in their original relative order. */
  lemma {:induction false} WithParentSelects(s: seq<Comment>, key: Option<int>) returns (idx: seq<int>)
    ensures IsSelection(s, key, WithParent(s, key), idx)
  {
    if s == [] {
      idx := [];
    } else {
      var init, last := s[..|s| - 1], s[|s| - 1];
      assert s == init + [last];
      var prev := WithParentSelects(init, key);
      assert WithParent(s, key) == WithParent(init, key) + (if last.parentId == key then [last] else []) by {
        WithParentAppend(init, [last], key);
        assert WithParent([last], key) == (if last.parentId == key then [last] else []) + WithParent([], key);
      }
      idx := if last.parentId == key then prev + [|init|] else prev;
      PicksExtend(init, last, key, WithParent(init, key), prev);
      IncreasingExtend(prev, |init|);
      CoversExtend(init, last, key, prev);
    }
  }

  /** Appending one comment extends the picked positions by its position when it is kept. */
  lemma PicksExtend(init: seq<Comment>, last: Comment, key: Option<int>, r: seq<Comment>, idx: seq<int>)
    requires Picks(init, r, idx)
    ensures Picks(init + [last], r + (if last.parentId == key then [last] else []),
                  if last.parentId == key then idx + [|init|] else idx)
  {
  }

  /** A position beyond every picked one keeps the positions increasing. */
  lemma IncreasingExtend(idx: seq<int>, n: int)
    requires Increasing(idx)
    requires forall k :: 0 <= k < |idx| ==> idx[k] < n
    ensures Increasing(idx + [n])
  {
    forall k, l | 0 <= k < l < |idx| + 1 ensures (idx + [n])[k] < (idx + [n])[l] {
      if l < |idx| { assert (idx + [n])[l] == idx[l]; }
    }
  }

  /** Appending one comment extends the covered positions by its position when it is kept. */
  lemma CoversExtend(init: seq<Comment>, last: Comment, key: Option<int>, idx: seq<int>)
    requires Covers(init, key, idx)
    requires forall k :: 0 <= k < |idx| ==> idx[k] < |init|
    ensures Covers(init + [last], key, if last.parentId == key then idx + [|init|] else idx)
  {
    var s := init + [last];
    var idx' := if last.parentId == key then idx + [|init|] else idx;
    forall i | 0 <= i < |s| ensures s[i].parentId == key <==> i in idx' {
      assert |init| !in idx;
      if i < |init| {
        assert s[i] == init[i];
      }
    }
  }

  /** A stable selection is unique: whatever selects the comments with parent reference
      `key` in order is `WithParent(s, key)`. */
  lemma SelectionIsWithParent(s: seq<Comment>, key: Option<int>, r: seq<Comment>, idx: seq<int>)
    requires IsSelection(s, key, r, idx)
    ensures r == WithParent(s, key)
  {
    var idx' := WithParentSelects(s, key);
    SortedSameElements(idx, idx');
    var r' := WithParent(s, key);
    assert |r| == |r'|;
    forall k | 0 <= k < |r| ensures r[k] == r'[k] { }
  }

  /** Two strictly increasing sequences with the same elements are equal. */
  lemma {:induction false} SortedSameElements(a: seq<int>, b: seq<int>)
    requires Increasing(a) && Increasing(b)
    requires forall x :: x in a <==> x in b
    ensures a == b
  {
    if a != [] { assert a[0] in a; }
    if b != [] { assert b[0] in b; }
    if a != [] {
      assert a[0] == b[0] by {
        assert b[0] in a && a[0] in b;
      }
      forall x ensures x in a[1..] <==> x in b[1..] {
        if x in a[1..] { assert x in b; assert x != b[0]; }
        if x in b[1..] { assert x in a; assert x != a[0]; }
      }
      SortedSameElements(a[1..], b[1..]);
      assert a == [a[0]] + a[1..] && b == [b[0]] + b[1..];
    }
  }

  /** `children_for_parent` returns the direct replies in the order of the input. */
  lemma ChildrenInInputOrder(parent: Comment, all: seq<Comment>)
    ensures exists idx :: IsSelection(all, Some(parent.id), ChildrenForParent(parent, all), idx)
  {
    var idx := WithParentSelects(all, Some(parent.id));
    assert ChildrenForParent(parent, all) == WithParent(all, Some(parent.id));
  }

  /** The final filter of `sort_comments` keeps the parentless comments in input order. */
  lemma TopLevelInInputOrder(comments: seq<Comment>)
    ensures exists idx :: IsSelection(comments, None, TopLevel(comments), idx)
  {
    var idx := WithParentSelects(comments, None);
    assert TopLevel(comments) == WithParent(comments, None);
  }
}
