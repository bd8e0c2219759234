/** What `sort_comments` promises about the forest it returns: which comments become
    roots, what every node holds, that orphans and their replies never appear, and that on
    well-formed input every reachable comment appears exactly once. */
module Threading {
  import opened Wrappers
  import opened Query
  import Chrono

  // ---------------------------------------------------------------------------
  // Vocabulary

  /** Every comment's timestamp parses. */
  ghost predicate AllParse(all: seq<Comment>, env: Env) {
    forall c :: c in all ==> env.parse(c.createdAt).Some?
  }

  /** No two comments share an id. */
  ghost predicate UniqueIds(all: seq<Comment>) {
    forall i, j :: 0 <= i < j < |all| ==> all[i].id != all[j].id
  }

  /** A comment whose parent reference names no comment of the post. */
  ghost predicate IsOrphan(all: seq<Comment>, c: Comment) {
    c.parentId.Some? && forall y :: y in all ==> y.id != c.parentId.value
  }

  /** Following parent references from `c` reaches a comment without a parent in at most
      `n` steps. */
  ghost predicate RootedWithin(all: seq<Comment>, c: Comment, n: nat)
    decreases n
  {
    c.parentId.None? ||
    (n > 0 && exists y :: y in all && c.parentId == Some(y.id) && RootedWithin(all, y, n - 1))
  }

  /** The parent chain of `c` ends at a top-level comment (rather than at a missing
      parent). */
  ghost predicate Rooted(all: seq<Comment>, c: Comment) {
    exists n: nat :: RootedWithin(all, c, n)
  }

  /** `m` is what threading made of a comment whose parent chain reaches a top-level
      comment. */
  ghost predicate CopyOfRooted(m: Comment, all: seq<Comment>, env: Env, rank: int -> nat)
    requires Acyclic(all, rank)
  {
    exists y :: y in all && Rooted(all, y) && Threaded(y, all, env, rank) == Ok(m)
  }

  /** The nodes of a forest, each followed by its replies (pre-order). */
  ghost function Flatten(f: seq<Comment>): seq<Comment>
    decreases f
  {
    if f == [] then [] else Subtree(f[0]) + Flatten(f[1..])
  }

  /** A node followed by the nodes below it. */
  ghost function Subtree(t: Comment): seq<Comment>
    decreases t
  {
    [t] + match t.comments { case Unset => [] case Replies(cs) => Flatten(cs) }
  }

  /** How many comments of `s` carry the id `id`. */
  ghost function Occurrences(s: seq<Comment>, id: int): nat {
    if s == [] then 0 else (if s[0].id == id then 1 else 0) + Occurrences(s[1..], id)
  }

  // ---------------------------------------------------------------------------
  // One node: `add_children`

  /** `add_children` fails exactly when the comment's own timestamp does not parse (a
      reply's failure is swallowed); on success it writes the age in whole seconds, the
      label and the replies, and leaves every other field as it was. A reply whose own
      timestamp does not parse is kept exactly as it came in, with its original
      `newness` and `comments`. */
  lemma ThreadedNode(c: Comment, all: seq<Comment>, env: Env, rank: int -> nat)
    requires Acyclic(all, rank)
    ensures Threaded(c, all, env, rank).Ok? <==> env.parse(c.createdAt).Some?
    ensures Threaded(c, all, env, rank).Ok? ==>
      var u := Threaded(c, all, env, rank).value;
      var t := env.parse(c.createdAt).value;
      var children := ChildrenForParent(c, all);
      && SameRecord(u, c)
      && u.newness == Some(Chrono.SecondsSince(env.now, t))
      && u.newnessStr == Some(env.humanize(t))
      && u.comments.Replies? && |u.comments.items| == |children|
      && forall k :: 0 <= k < |children| ==>
           && SameRecord(u.comments.items[k], children[k])
           && u.comments.items[k] == (if env.parse(children[k].createdAt).Some?
                                      then Threaded(children[k], all, env, rank).value
                                      else children[k])
  {
    var children := ChildrenForParent(c, all);
    ThreadedRepliesAt(children, c.id, all, env, rank);
    forall k | 0 <= k < |children|
      ensures SameRecord(Settled(children[k], all, env, rank), children[k])
      ensures Settled(children[k], all, env, rank) ==
        if env.parse(children[k].createdAt).Some? then Threaded(children[k], all, env, rank).value else children[k]
    {
      assert children[k] in all;
    }
    if env.parse(c.createdAt).Some? {
      assert Threaded(c, all, env, rank).value.comments.items == ThreadedReplies(children, c.id, all, env, rank);
    }
  }

  // ---------------------------------------------------------------------------
  // The whole forest: `sort_comments`

  /** `sort_comments` fails exactly when some comment's timestamp does not parse, a root
      or not: every comment passes through the `?` of the loop. */
  lemma ForestFails(all: seq<Comment>, env: Env, rank: int -> nat)
    requires Acyclic(all, rank)
    ensures Forest(all, env, rank).Err? <==> exists i :: 0 <= i < |all| && env.parse(all[i].createdAt).None?
  {
    ThreadedAllAt(all, all, env, rank);
    forall i | 0 <= i < |all|
      ensures Threaded(all[i], all, env, rank).Ok? <==> env.parse(all[i].createdAt).Some?
    {
      ThreadedNode(all[i], all, env, rank);
    }
  }

  /** A successful `sort_comments` parsed every timestamp. */
  lemma ForestParses(all: seq<Comment>, env: Env, rank: int -> nat)
    requires Acyclic(all, rank)
    requires Forest(all, env, rank).Ok?
    ensures AllParse(all, env)
  {
    ForestFails(all, env, rank);
    forall c | c in all ensures env.parse(c.createdAt).Some? {
      var i :| 0 <= i < |all| && all[i] == c;
    }
  }

  /** An empty post threads to an empty forest. */
  lemma EmptyForest(env: Env, rank: int -> nat)
    ensures Acyclic([], rank) && Forest([], env, rank) == Ok([])
  {
  }

  /** The forest's roots are the comments without a parent, each threaded, in the order
      of the input (`TopLevel` keeps input order, see `Order.TopLevelInInputOrder`). */
  lemma ForestRoots(all: seq<Comment>, env: Env, rank: int -> nat)
    requires Acyclic(all, rank)
    requires Forest(all, env, rank).Ok?
    ensures var f := Forest(all, env, rank).value;
      var roots := TopLevel(all);
      && |f| == |roots|
      && forall k :: 0 <= k < |f| ==>
           && roots[k] in all && roots[k].parentId.None?
           && Threaded(roots[k], all, env, rank).Ok?
           && f[k] == Threaded(roots[k], all, env, rank).value
           && SameRecord(f[k], roots[k])
  {
    ThreadedAllAt(all, all, env, rank);
    var ts := ThreadedAll(all, all, env, rank).value;
    forall k | 0 <= k < |all| ensures ts[k].parentId == all[k].parentId {
      ThreadedNode(all[k], all, env, rank);
    }
    ThreadedFilter(all, ts, None, all, env, rank);
    var roots := TopLevel(all);
    forall k | 0 <= k < |roots| ensures SameRecord(Threaded(roots[k], all, env, rank).value, roots[k]) {
      ThreadedNode(roots[k], all, env, rank);
    }
  }

  /** Threading every comment and then filtering on the parent reference is filtering
      first and threading the survivors: threading never changes a parent reference. */
  lemma {:induction false} ThreadedFilter(cs: seq<Comment>, ts: seq<Comment>, key: Option<int>,
                                          all: seq<Comment>, env: Env, rank: int -> nat)
    requires Acyclic(all, rank)
    requires |ts| == |cs|
    requires forall k :: 0 <= k < |cs| ==>
      Threaded(cs[k], all, env, rank).Ok? && ts[k] == Threaded(cs[k], all, env, rank).value &&
      ts[k].parentId == cs[k].parentId
    ensures |WithParent(ts, key)| == |WithParent(cs, key)|
    ensures forall j :: 0 <= j < |WithParent(cs, key)| ==>
      Threaded(WithParent(cs, key)[j], all, env, rank).Ok? &&
      WithParent(ts, key)[j] == Threaded(WithParent(cs, key)[j], all, env, rank).value
  {
    if cs != [] {
      ThreadedFilter(cs[1..], ts[1..], key, all, env, rank);
    }
  }

  // ---------------------------------------------------------------------------
  // Orphans and their replies never appear

  /** A node is in a flattened forest exactly when it is in the subtree of one of its
      trees. */
  lemma {:induction false} FlattenMember(f: seq<Comment>, m: Comment)
    ensures m in Flatten(f) <==> exists k :: 0 <= k < |f| && m in Subtree(f[k])
  {
    if f != [] {
      FlattenMember(f[1..], m);
      if m in Flatten(f[1..]) {
        var k :| 0 <= k < |f| - 1 && m in Subtree(f[1..][k]);
        assert f[1..][k] == f[k + 1];
      }
      forall k | 1 <= k < |f| && m in Subtree(f[k]) ensures m in Flatten(f[1..]) {
        assert f[k] == f[1..][k - 1];
      }
    }
  }

  /** Every node below a threaded rooted comment is the threaded copy of a rooted
      comment. */
  lemma SubtreeRooted(x: Comment, all: seq<Comment>, env: Env, rank: int -> nat)
    requires Acyclic(all, rank) && AllParse(all, env)
    requires x in all && Rooted(all, x)
    ensures Threaded(x, all, env, rank).Ok?
    ensures forall m :: m in Subtree(Threaded(x, all, env, rank).value) ==> CopyOfRooted(m, all, env, rank)
    decreases rank(x.id)
  {
    ThreadedNode(x, all, env, rank);
    var u := Threaded(x, all, env, rank).value;
    var cs := ChildrenForParent(x, all);
    var items := u.comments.items;
    var n: nat :| RootedWithin(all, x, n);
    forall k | 0 <= k < |cs|
      ensures items[k] == Threaded(cs[k], all, env, rank).value
      ensures forall m :: m in Subtree(items[k]) ==> CopyOfRooted(m, all, env, rank)
    {
      assert cs[k] in all;
      assert RootedWithin(all, cs[k], n + 1);
      SubtreeRooted(cs[k], all, env, rank);
    }
    forall m | m in Subtree(u)
      ensures CopyOfRooted(m, all, env, rank)
    {
      if m != u {
        assert m in Flatten(items);
        FlattenMember(items, m);
      }
    }
  }

  /** Every node of the forest is the threaded copy of an input comment whose parent chain
      reaches a top-level comment. */
  lemma ForestNodesRooted(all: seq<Comment>, env: Env, rank: int -> nat)
    requires Acyclic(all, rank)
    requires Forest(all, env, rank).Ok?
    ensures forall m :: m in Flatten(Forest(all, env, rank).value) ==> CopyOfRooted(m, all, env, rank)
  {
    var f := Forest(all, env, rank).value;
    ForestParses(all, env, rank);
    ForestRoots(all, env, rank);
    var roots := TopLevel(all);
    forall m | m in Flatten(f)
      ensures CopyOfRooted(m, all, env, rank)
    {
      FlattenMember(f, m);
      var k :| 0 <= k < |f| && m in Subtree(f[k]);
      assert RootedWithin(all, roots[k], 0);
      SubtreeRooted(roots[k], all, env, rank);
    }
  }

  /** A rooted comment is not an orphan. */
  lemma RootedIsNotOrphan(all: seq<Comment>, c: Comment)
    requires Rooted(all, c)
    ensures !IsOrphan(all, c)
  {
  }

  /** Orphans, and every reply below an orphan, are absent from the forest: a node is
      either top-level or has its parent among the input comments, and its chain of
      parents reaches a top-level comment. */
  lemma OrphansAbsent(all: seq<Comment>, env: Env, rank: int -> nat)
    requires Acyclic(all, rank)
    requires Forest(all, env, rank).Ok?
    ensures forall m :: m in Flatten(Forest(all, env, rank).value) ==> !IsOrphan(all, m) && Rooted(all, m)
  {
    ForestNodesRooted(all, env, rank);
    forall m | m in Flatten(Forest(all, env, rank).value) ensures !IsOrphan(all, m) && Rooted(all, m) {
      var y :| y in all && Rooted(all, y) && Threaded(y, all, env, rank) == Ok(m);
      ThreadedNode(y, all, env, rank);
      var n: nat :| RootedWithin(all, y, n);
      assert RootedWithin(all, m, n);
      RootedIsNotOrphan(all, m);
    }
  }

  /** Every node of the forest carries its age in whole seconds, its label and its
      replies: with every timestamp parsed, no reply was left unthreaded. */
  lemma ForestNodesAnnotated(all: seq<Comment>, env: Env, rank: int -> nat)
    requires Acyclic(all, rank)
    requires Forest(all, env, rank).Ok?
    ensures forall m :: m in Flatten(Forest(all, env, rank).value) ==>
      && env.parse(m.createdAt).Some?
      && m.newness == Some(Chrono.SecondsSince(env.now, env.parse(m.createdAt).value))
      && m.newnessStr == Some(env.humanize(env.parse(m.createdAt).value))
      && m.comments.Replies?
      && |m.comments.items| == |ChildrenForParent(m, all)|
      && forall k :: 0 <= k < |m.comments.items| ==> SameRecord(m.comments.items[k], ChildrenForParent(m, all)[k])
  {
    ForestNodesRooted(all, env, rank);
    forall m | m in Flatten(Forest(all, env, rank).value)
      ensures && env.parse(m.createdAt).Some?
              && m.newness == Some(Chrono.SecondsSince(env.now, env.parse(m.createdAt).value))
              && m.newnessStr == Some(env.humanize(env.parse(m.createdAt).value))
              && m.comments.Replies?
              && |m.comments.items| == |ChildrenForParent(m, all)|
              && forall k :: 0 <= k < |m.comments.items| ==> SameRecord(m.comments.items[k], ChildrenForParent(m, all)[k])
    {
      var y :| y in all && Rooted(all, y) && Threaded(y, all, env, rank) == Ok(m);
      ThreadedNode(y, all, env, rank);
      assert ChildrenForParent(m, all) == ChildrenForParent(y, all);
    }
  }
}
