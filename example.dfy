/** A worked example: a chain of three comments plus one comment whose parent is missing. */
module Example {
  import opened Wrappers
  import opened Query
  import Threading

  /** `a` is top-level, `b` replies to `a`, `c` replies to `b`, and `d` replies to a
      comment that is not there. */
  ghost predicate ChainAndOrphan(a: Comment, b: Comment, c: Comment, d: Comment) {
    && a.parentId.None? && b.parentId == Some(a.id) && c.parentId == Some(b.id)
    && d.parentId.Some? && d.parentId.value !in {a.id, b.id, c.id, d.id}
    && a.id != b.id && a.id != c.id && b.id != c.id
  }

  /** The filter on one comment. */
  lemma WithParentOfOne(x: Comment, key: Option<int>)
    ensures WithParent([x], key) == if x.parentId == key then [x] else []
  {
  }

  /** The filter on four comments, one at a time. */
  lemma WithParentOfFour(a: Comment, b: Comment, c: Comment, d: Comment, key: Option<int>)
    ensures WithParent([a, b, c, d], key) ==
      WithParent([a], key) + WithParent([b], key) + WithParent([c], key) + WithParent([d], key)
  {
    assert [a, b, c, d] == [a] + ([b] + ([c] + [d]));
    WithParentAppend([a], [b] + ([c] + [d]), key);
    WithParentAppend([b], [c] + [d], key);
    WithParentAppend([c], [d], key);
  }

  /** The filters of the example. */
  lemma ExampleFilters(a: Comment, b: Comment, c: Comment, d: Comment)
    requires ChainAndOrphan(a, b, c, d)
    ensures ChildrenForParent(a, [a, b, c, d]) == [b]
    ensures ChildrenForParent(b, [a, b, c, d]) == [c]
    ensures ChildrenForParent(c, [a, b, c, d]) == []
    ensures TopLevel([a, b, c, d]) == [a]
  {
    forall key | key in {None, Some(a.id), Some(b.id), Some(c.id)}
      ensures WithParent([a, b, c, d], key) ==
        (if a.parentId == key then [a] else []) + (if b.parentId == key then [b] else []) +
        (if c.parentId == key then [c] else []) + (if d.parentId == key then [d] else [])
    {
      WithParentOfFour(a, b, c, d, key);
      WithParentOfOne(a, key);
      WithParentOfOne(b, key);
      WithParentOfOne(c, key);
      WithParentOfOne(d, key);
    }
  }

  /** The replies of `a`, `b` and `c`. */
  lemma ExampleReplies(a: Comment, b: Comment, c: Comment, d: Comment, env: Env, rank: int -> nat)
    requires ChainAndOrphan(a, b, c, d)
    requires Acyclic([a, b, c, d], rank) && Threading.AllParse([a, b, c, d], env)
    ensures var all := [a, b, c, d];
      && Threaded(a, all, env, rank).Ok? && Threaded(b, all, env, rank).Ok? && Threaded(c, all, env, rank).Ok?
      && Threaded(a, all, env, rank).value.comments == Replies([Threaded(b, all, env, rank).value])
      && Threaded(b, all, env, rank).value.comments == Replies([Threaded(c, all, env, rank).value])
      && Threaded(c, all, env, rank).value.comments == Replies([])
  {
    var all := [a, b, c, d];
    ExampleFilters(a, b, c, d);
    assert a in all && b in all && c in all;
    Threading.ThreadedNode(a, all, env, rank);
    Threading.ThreadedNode(b, all, env, rank);
    Threading.ThreadedNode(c, all, env, rank);
    assert Threaded(a, all, env, rank).value.comments.items == [Threaded(b, all, env, rank).value];
    assert Threaded(b, all, env, rank).value.comments.items == [Threaded(c, all, env, rank).value];
  }

  /** The forest is the chain `a` > `b` > `c`; `d`, whose parent is missing, is left out. */
  lemma ChainExample(a: Comment, b: Comment, c: Comment, d: Comment, env: Env, rank: int -> nat)
    requires ChainAndOrphan(a, b, c, d)
    requires Acyclic([a, b, c, d], rank) && Threading.AllParse([a, b, c, d], env)
    ensures var all := [a, b, c, d];
      && Forest(all, env, rank) == Ok([Threaded(a, all, env, rank).value])
      && Threaded(a, all, env, rank).value.comments == Replies([Threaded(b, all, env, rank).value])
      && Threaded(b, all, env, rank).value.comments == Replies([Threaded(c, all, env, rank).value])
      && Threaded(c, all, env, rank).value.comments == Replies([])
  {
    var all := [a, b, c, d];
    ExampleFilters(a, b, c, d);
    ExampleReplies(a, b, c, d, env, rank);
    Threading.ForestFails(all, env, rank);
    Threading.ForestRoots(all, env, rank);
    var f := Forest(all, env, rank).value;
    assert f == [Threaded(a, all, env, rank).value];
  }
}
