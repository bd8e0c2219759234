/** Comment threading (src/query.rs): a post's flat list of comments becomes a forest of
    reply trees, each comment annotated with its age. */
module Query {
  import opened Wrappers
  import Chrono

  /** A comment row. Fields follow the source struct; `newness`, `newnessStr` and
      `comments` are the three that threading writes. Instants are nanoseconds since the
      Unix epoch. */
  datatype Comment = Comment(
    id: int,
    createdAt: string,
    newness: Option<int>,
    newnessStr: Option<string>,
    author: string,
    body: string,
    parentId: Option<int>,
    postId: int,
    comments: Replies)

  /** The `comments` field, Rust's `Option<Vec<Comment>>`: `Unset` is `None`, as rows
      arrive from storage. (A dedicated type rather than `Option` lets recursion over the
      tree see that replies are smaller than their parent.) */
  datatype Replies = Unset | Replies(items: seq<Comment>)

  /** What threading takes from outside: the current instant (`Utc::now()`), the
      timestamp parser (`DateTime::parse_from_str` with the format
      `%Y-%m-%dT%H:%M:%S%.6f%z`, `None` when it fails), and the humanised rendering of a
      parsed instant (`HumanTime`, which reads its own clock). */
  datatype Env = Env(now: int, parse: string -> Option<int>, humanize: int -> string)

  /** The fields threading never writes agree. */
  predicate SameRecord(a: Comment, b: Comment) {
    && a.id == b.id && a.createdAt == b.createdAt && a.author == b.author
    && a.body == b.body && a.parentId == b.parentId && a.postId == b.postId
  }

  /** Following parent links in `all` never cycles, i.e. some rank on ids strictly grows
      from a comment to its parent. One call of `add_children` only needs the comments
      below it to be free of cycles; the loop of `sort_comments` calls it on every
      comment, so this whole-input condition is what makes every call terminate. (An id
      on a cycle always has a comment carrying it, so requiring the rank to grow toward
      missing parents as well costs nothing.) */
  ghost predicate Acyclic(all: seq<Comment>, rank: int -> nat) {
    forall c :: c in all && c.parentId.Some? ==> rank(c.id) < rank(c.parentId.value)
  }

  /** The comments of `cs` whose parent reference is `key`, in the order of `cs`. Both
      filters of the source are of this form: `children_for_parent` keeps
      `Some(parent.id)` and `sort_comments` finally keeps `None`. */
  function WithParent(cs: seq<Comment>, key: Option<int>): (r: seq<Comment>)
    ensures |r| <= |cs|
    ensures forall k :: 0 <= k < |r| ==> r[k].parentId == key
  {
    if cs == [] then []
    else (if cs[0].parentId == key then [cs[0]] else []) + WithParent(cs[1..], key)
  }

  /** `children_for_parent`: the direct replies to `parent` among `all`. */
  function ChildrenForParent(parent: Comment, all: seq<Comment>): (children: seq<Comment>)
    ensures forall k :: 0 <= k < |children| ==> children[k] in all && children[k].parentId == Some(parent.id)
  {
    WithParentMembers(all, Some(parent.id));
    WithParent(all, Some(parent.id))
  }

  /** The root selection that ends `sort_comments`. */
  function TopLevel(comments: seq<Comment>): (roots: seq<Comment>)
    ensures forall k :: 0 <= k < |roots| ==> roots[k] in comments && roots[k].parentId.None?
  {
    WithParentMembers(comments, None);
    WithParent(comments, None)
  }

  /** A comment is kept exactly when it occurs in `cs` with parent reference `key`. */
  lemma {:induction false} WithParentMembers(cs: seq<Comment>, key: Option<int>)
    ensures forall c :: c in WithParent(cs, key) <==> c in cs && c.parentId == key
  {
    if cs != [] {
      WithParentMembers(cs[1..], key);
      assert cs == [cs[0]] + cs[1..];
    }
  }

  /** Filtering distributes over concatenation. */
  lemma {:induction false} WithParentAppend(a: seq<Comment>, b: seq<Comment>, key: Option<int>)
    ensures WithParent(a + b, key) == WithParent(a, key) + WithParent(b, key)
  {
    if a == [] {
      assert a + b == b;
    } else {
      assert (a + b)[1..] == a[1..] + b;
      WithParentAppend(a[1..], b, key);
    }
  }

  // ---------------------------------------------------------------------------
  // Specification of `add_children` and `sort_comments`

  /** What `add_children(c, all)` leaves behind: `Err` (and `c` untouched) when the
      timestamp of `c` does not parse, otherwise `c` with its age, its label and its
      threaded replies written in. */
  ghost function Threaded(c: Comment, all: seq<Comment>, env: Env, rank: int -> nat): Result<Comment>
    requires Acyclic(all, rank)
    decreases rank(c.id), 1
  {
    var replies := ThreadedReplies(ChildrenForParent(c, all), c.id, all, env, rank);
    match env.parse(c.createdAt)
    case None => Err
    case Some(t) =>
      Ok(c.(newness := Some(Chrono.SecondsSince(env.now, t)),
            newnessStr := Some(env.humanize(t)),
            comments := Replies(replies)))
  }

  /** A reply after the recursive call whose result `add_children` discards: threaded if
      that call succeeded, untouched if it failed. */
  ghost function Settled(c: Comment, all: seq<Comment>, env: Env, rank: int -> nat): Comment
    requires Acyclic(all, rank)
    decreases rank(c.id), 2
  {
    match Threaded(c, all, env, rank)
    case Ok(u) => u
    case Err => c
  }

  /** Every reply of `parent` settled, in order. */
  ghost function ThreadedReplies(cs: seq<Comment>, parent: int, all: seq<Comment>, env: Env, rank: int -> nat)
    : seq<Comment>
    requires Acyclic(all, rank)
    requires forall c :: c in cs ==> c in all && c.parentId == Some(parent)
    decreases rank(parent), 0, |cs|
  {
    if cs == [] then []
    else
      assert cs[0] in all;
      [Settled(cs[0], all, env, rank)] + ThreadedReplies(cs[1..], parent, all, env, rank)
  }

  /** The loop of `sort_comments`: every comment threaded, stopping at the first error. */
  ghost function ThreadedAll(cs: seq<Comment>, all: seq<Comment>, env: Env, rank: int -> nat)
    : Result<seq<Comment>>
    requires Acyclic(all, rank)
  {
    if cs == [] then Ok([])
    else match Threaded(cs[0], all, env, rank)
      case Err => Err
      case Ok(u) =>
        match ThreadedAll(cs[1..], all, env, rank)
        case Err => Err
        case Ok(us) => Ok([u] + us)
  }

  /** What `sort_comments(all)` returns. */
  ghost function Forest(all: seq<Comment>, env: Env, rank: int -> nat): Result<seq<Comment>>
    requires Acyclic(all, rank)
  {
    match ThreadedAll(all, all, env, rank)
    case Err => Err
    case Ok(threaded) => Ok(TopLevel(threaded))
  }

  // ---------------------------------------------------------------------------
  // The operations

  /** `add_children`: thread the replies of `c` recursively, then stamp `c`. The
      `&mut Comment` of the source is passed in and handed back; on `Err` the caller
      keeps its comment as it was. */
  method AddChildren(c: Comment, all: seq<Comment>, env: Env, ghost rank: int -> nat)
    returns (r: Result<Comment>)
    requires Acyclic(all, rank)
    ensures r == Threaded(c, all, env, rank)
    decreases rank(c.id)
  {
    var children := ChildrenForParent(c, all);
    ghost var found := children;
    var i := 0;
    while i < |children|
      invariant 0 <= i <= |children| == |found|
      invariant forall k :: 0 <= k < i ==> children[k] == Settled(found[k], all, env, rank)
      invariant forall k :: i <= k < |children| ==> children[k] == found[k]
    {
      assert children[i] == found[i] && found[i] in all;
      var child := AddChildren(children[i], all, env, rank);
      assert Settled(found[i], all, env, rank) == if child.Ok? then child.value else found[i];
      if child.Ok? {
        children := children[i := child.value];
      }
      i := i + 1;
    }
    SettledEach(found, children, c.id, all, env, rank);
    match env.parse(c.createdAt) {
      case None =>
        r := Err;
      case Some(t) =>
        var diff := Chrono.SecondsSince(env.now, t);
        r := Ok(c.(newness := Some(diff), newnessStr := Some(env.humanize(t)), comments := Replies(children)));
    }
  }

  /** `sort_comments`: thread every comment in place, giving up at the first timestamp
      that does not parse, then keep the comments that have no parent. */
  method SortComments(input: seq<Comment>, env: Env, ghost rank: int -> nat)
    returns (r: Result<seq<Comment>>)
    requires Acyclic(input, rank)
    ensures r == Forest(input, env, rank)
  {
    var comments := input;
    var i := 0;
    while i < |comments|
      invariant 0 <= i <= |comments| == |input|
      invariant forall k :: 0 <= k < i ==>
        Threaded(input[k], input, env, rank).Ok? &&
        comments[k] == Threaded(input[k], input, env, rank).value
      invariant forall k :: i <= k < |comments| ==> comments[k] == input[k]
    {
      var res := AddChildren(comments[i], input, env, rank);
      if res.Err? {
        ThreadedAllAt(input, input, env, rank);
        return Err;
      }
      comments := comments[i := res.value];
      i := i + 1;
    }
    ThreadedAllOk(input, comments, input, env, rank);
    r := Ok(TopLevel(comments));
  }

  // ---------------------------------------------------------------------------
  // Unfolding lemmas for the recursive specification functions

  /** Settling the replies one by one, position by position. */
  lemma {:induction false} ThreadedRepliesAt(cs: seq<Comment>, parent: int, all: seq<Comment>, env: Env, rank: int -> nat)
    requires Acyclic(all, rank)
    requires forall c :: c in cs ==> c in all && c.parentId == Some(parent)
    ensures |ThreadedReplies(cs, parent, all, env, rank)| == |cs|
    ensures forall k :: 0 <= k < |cs| ==> ThreadedReplies(cs, parent, all, env, rank)[k] == Settled(cs[k], all, env, rank)
  {
    if cs != [] {
      ThreadedRepliesAt(cs[1..], parent, all, env, rank);
    }
  }

  /** A sequence that settles each reply in place is `ThreadedReplies`. */
  lemma SettledEach(cs: seq<Comment>, settled: seq<Comment>, parent: int, all: seq<Comment>, env: Env, rank: int -> nat)
    requires Acyclic(all, rank)
    requires forall c :: c in cs ==> c in all && c.parentId == Some(parent)
    requires |settled| == |cs|
    requires forall k :: 0 <= k < |cs| ==> settled[k] == Settled(cs[k], all, env, rank)
    ensures settled == ThreadedReplies(cs, parent, all, env, rank)
  {
    ThreadedRepliesAt(cs, parent, all, env, rank);
  }

  /** A sequence holding every comment threaded successfully is what the loop of
      `sort_comments` produces. */
  lemma ThreadedAllOk(cs: seq<Comment>, done: seq<Comment>, all: seq<Comment>, env: Env, rank: int -> nat)
    requires Acyclic(all, rank)
    requires |done| == |cs|
    requires forall k :: 0 <= k < |cs| ==> Threaded(cs[k], all, env, rank).Ok? && done[k] == Threaded(cs[k], all, env, rank).value
    ensures ThreadedAll(cs, all, env, rank) == Ok(done)
  {
    ThreadedAllAt(cs, all, env, rank);
    var v := ThreadedAll(cs, all, env, rank).value;
    assert |v| == |done| && forall k :: 0 <= k < |v| ==> v[k] == done[k];
    assert v == done;
  }

  /** The loop of `sort_comments` succeeds exactly when every comment threads, and then
      holds the threaded comments in input order. */
  lemma {:induction false} ThreadedAllAt(cs: seq<Comment>, all: seq<Comment>, env: Env, rank: int -> nat)
    requires Acyclic(all, rank)
    ensures ThreadedAll(cs, all, env, rank).Ok? <==> forall k :: 0 <= k < |cs| ==> Threaded(cs[k], all, env, rank).Ok?
    ensures ThreadedAll(cs, all, env, rank).Ok? ==>
      |ThreadedAll(cs, all, env, rank).value| == |cs| &&
      forall k :: 0 <= k < |cs| ==> ThreadedAll(cs, all, env, rank).value[k] == Threaded(cs[k], all, env, rank).value
  {
    if cs != [] {
      ThreadedAllAt(cs[1..], all, env, rank);
      if !Threaded(cs[0], all, env, rank).Ok? {
        assert !(forall k :: 0 <= k < |cs| ==> Threaded(cs[k], all, env, rank).Ok?);
      } else if ThreadedAll(cs[1..], all, env, rank).Err? {
        var j :| 0 <= j < |cs| - 1 && !Threaded(cs[1..][j], all, env, rank).Ok?;
        assert cs[1..][j] == cs[j + 1];
      } else {
        forall k | 0 <= k < |cs| ensures Threaded(cs[k], all, env, rank).Ok? {
          if k > 0 { assert cs[k] == cs[1..][k - 1]; }
        }
      }
    }
  }
}
