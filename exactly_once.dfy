/** With unique ids, every comment whose parent chain reaches a top-level comment appears
    exactly once in the forest, and every other comment not at all. */
module ExactlyOnce {
  import opened Wrappers
  import opened Query
  import opened Threading

  // ---------------------------------------------------------------------------
  // Walking up the parent chain

  /** The first comment of `all` with id `id`. */
  function Lookup(all: seq<Comment>, id: int): (r: Option<Comment>)
    ensures r.Some? ==> r.value in all && r.value.id == id
    ensures r.Some? ==> exists k :: 0 <= k < |all| && all[k] == r.value && forall j :: 0 <= j < k ==> all[j].id != id
    ensures r.None? ==> forall c :: c in all ==> c.id != id
  {
    if all == [] then None
    else if all[0].id == id then Some(all[0])
    else
      var r := Lookup(all[1..], id);
      assert r.Some? ==> exists k :: 1 <= k < |all| && all[k] == r.value && forall j :: 0 <= j < k ==> all[j].id != id by {
        if r.Some? {
          var k :| 0 <= k < |all[1..]| && all[1..][k] == r.value && forall j :: 0 <= j < k ==> all[1..][j].id != id;
          assert all[k + 1] == r.value;
          forall j | 0 <= j < k + 1 ensures all[j].id != id {
            if j > 0 { assert all[j] == all[1..][j - 1]; }
          }
        }
      }
      r
  }

  /** The comment `c`'s parent reference names, if it names one. */
  function Parent(all: seq<Comment>, c: Comment): Option<Comment> {
    match c.parentId
    case None => None
    case Some(p) => Lookup(all, p)
  }

  /** The comment `n` parent links above `c`. This is the parent chain followed one
      step at a time; `Threading.RootedWithin` describes the same chain by existentials
      over the input, which is the form the membership proofs need, while counting needs
      a chain that is a function of `c`. `RootOfRooted` and `RootedFromAncestor` show the
      two agree. */
  function Ancestor(all: seq<Comment>, c: Comment, n: nat): Option<Comment>
    decreases n
  {
    if n == 0 then Some(c)
    else match Parent(all, c)
      case None => None
      case Some(p) => Ancestor(all, p, n - 1)
  }

  /** `a` is `c` or lies on the parent chain above `c`. */
  ghost predicate IsAncestor(all: seq<Comment>, a: Comment, c: Comment) {
    exists n: nat :: Ancestor(all, c, n) == Some(a)
  }

  /** With unique ids, looking up the id of a comment finds that comment. */
  lemma LookupUnique(all: seq<Comment>, c: Comment)
    requires UniqueIds(all) && c in all
    ensures Lookup(all, c.id) == Some(c)
  {
  }

  /** One more step up is the parent of the last step. */
  lemma {:induction false} AncestorSucc(all: seq<Comment>, c: Comment, n: nat)
    ensures Ancestor(all, c, n + 1) ==
      match Ancestor(all, c, n) { case None => None case Some(w) => Parent(all, w) }
    decreases n
  {
    if n > 0 && Parent(all, c).Some? {
      AncestorSucc(all, Parent(all, c).value, n - 1);
    }
  }

  /** Walking `a + b` steps is walking `a` steps and then `b`. */
  lemma {:induction false} AncestorAdd(all: seq<Comment>, c: Comment, a: nat, b: nat)
    ensures Ancestor(all, c, a + b) ==
      match Ancestor(all, c, a) { case None => None case Some(w) => Ancestor(all, w, b) }
    decreases a
  {
    if a > 0 && Parent(all, c).Some? {
      AncestorAdd(all, Parent(all, c).value, a - 1, b);
    }
  }

  /** The rank never drops going up, and strictly grows with every step. */
  lemma {:induction false} AncestorRank(all: seq<Comment>, rank: int -> nat, c: Comment, n: nat)
    requires Acyclic(all, rank) && c in all
    requires Ancestor(all, c, n).Some?
    ensures Ancestor(all, c, n).value in all
    ensures rank(Ancestor(all, c, n).value.id) >= rank(c.id) + n
    decreases n
  {
    if n > 0 {
      var p := Parent(all, c).value;
      assert rank(c.id) < rank(p.id);
      AncestorRank(all, rank, p, n - 1);
    }
  }

  /** A comment whose parent chain reaches a top-level comment has a top-level
      ancestor. */
  lemma {:induction false} RootOfRooted(all: seq<Comment>, c: Comment, n: nat) returns (m: nat)
    requires UniqueIds(all) && c in all && RootedWithin(all, c, n)
    ensures Ancestor(all, c, m).Some? && Ancestor(all, c, m).value.parentId.None?
    decreases n
  {
    if c.parentId.None? {
      m := 0;
    } else {
      var y :| y in all && c.parentId == Some(y.id) && RootedWithin(all, y, n - 1);
      LookupUnique(all, y);
      var m' := RootOfRooted(all, y, n - 1);
      m := m' + 1;
      assert Ancestor(all, c, m) == Ancestor(all, y, m');
    }
  }

  /** A comment with a top-level ancestor is rooted. */
  lemma {:induction false} RootedFromAncestor(all: seq<Comment>, c: Comment, m: nat)
    requires c in all
    requires Ancestor(all, c, m).Some? && Ancestor(all, c, m).value.parentId.None?
    ensures RootedWithin(all, c, m)
    decreases m
  {
    if m > 0 && c.parentId.Some? {
      var y := Parent(all, c).value;
      assert Ancestor(all, c, m) == Ancestor(all, y, m - 1);
      RootedFromAncestor(all, y, m - 1);
    }
  }

  /** A parent chain reaches at most one top-level comment. */
  lemma RootUnique(all: seq<Comment>, c: Comment, a: nat, b: nat)
    requires Ancestor(all, c, a).Some? && Ancestor(all, c, a).value.parentId.None?
    requires Ancestor(all, c, b).Some?
    ensures a <= b ==> a == b
  {
    if a < b {
      AncestorAdd(all, c, a, b - a);
    }
  }

  /** With an acyclic input, a parent chain never visits the same comment twice. */
  lemma ChainNoRepeat(all: seq<Comment>, rank: int -> nat, c: Comment, a: nat, b: nat)
    requires Acyclic(all, rank) && c in all
    requires Ancestor(all, c, a).Some? && Ancestor(all, c, a) == Ancestor(all, c, b)
    ensures a <= b ==> a == b
  {
    if a < b {
      AncestorRank(all, rank, c, a);
      AncestorAdd(all, c, a, b - a);
      AncestorRank(all, rank, Ancestor(all, c, a).value, b - a);
    }
  }

  /** The step above a direct reply of `x` is `x`. */
  lemma ReplyStep(all: seq<Comment>, x: Comment, ch: Comment, v: Comment, n: nat)
    requires UniqueIds(all) && x in all && ch.parentId == Some(x.id)
    requires Ancestor(all, v, n) == Some(ch)
    ensures Ancestor(all, v, n + 1) == Some(x)
  {
    AncestorSucc(all, v, n);
    LookupUnique(all, x);
  }

  /** Two comments of a uniquely identified sequence with the same id are the same. */
  lemma SameIdSame(all: seq<Comment>, a: Comment, b: Comment)
    requires UniqueIds(all) && a in all && b in all && a.id == b.id
    ensures a == b
  {
  }

  /** Filtering keeps ids unique. */
  lemma {:induction false} WithParentUnique(cs: seq<Comment>, key: Option<int>)
    requires UniqueIds(cs)
    ensures UniqueIds(WithParent(cs, key))
  {
    if cs != [] {
      var rest := WithParent(cs[1..], key);
      assert UniqueIds(cs[1..]) by {
        forall i, j | 0 <= i < j < |cs| - 1 ensures cs[1..][i].id != cs[1..][j].id {
          assert cs[1..][i] == cs[i + 1] && cs[1..][j] == cs[j + 1];
        }
      }
      WithParentUnique(cs[1..], key);
      if cs[0].parentId == key {
        WithParentMembers(cs[1..], key);
        forall j | 0 <= j < |rest| ensures cs[0].id != rest[j].id {
          assert rest[j] in cs[1..];
          var i :| 0 <= i < |cs[1..]| && cs[1..][i] == rest[j];
          assert cs[i + 1] == rest[j];
        }
        var r := WithParent(cs, key);
        assert r == [cs[0]] + rest;
        forall i, j | 0 <= i < j < |r| ensures r[i].id != r[j].id {
          if i == 0 {
            assert r[j] == rest[j - 1];
          } else {
            assert r[i] == rest[i - 1] && r[j] == rest[j - 1];
          }
        }
      } else {
        assert WithParent(cs, key) == rest;
      }
    }
  }

  // ---------------------------------------------------------------------------
  // Counting

  lemma {:induction false} OccurrencesAppend(a: seq<Comment>, b: seq<Comment>, id: int)
    ensures Occurrences(a + b, id) == Occurrences(a, id) + Occurrences(b, id)
  {
    if a == [] {
      assert a + b == b;
    } else {
      assert (a + b)[1..] == a[1..] + b;
      OccurrencesAppend(a[1..], b, id);
    }
  }

  /** When at most the `j`-th tree of `ts` holds `id`, and that one once, the forest holds
      it once if `j` is one of its positions and not at all otherwise. */
  lemma {:induction false} FlattenCount(ts: seq<Comment>, id: int, j: int)
    requires forall k :: 0 <= k < |ts| ==> Occurrences(Subtree(ts[k]), id) == if k == j then 1 else 0
    ensures Occurrences(Flatten(ts), id) == if 0 <= j < |ts| then 1 else 0
  {
    if ts != [] {
      forall k | 0 <= k < |ts| - 1
        ensures Occurrences(Subtree(ts[1..][k]), id) == if k == j - 1 then 1 else 0
      {
        assert ts[1..][k] == ts[k + 1];
      }
      FlattenCount(ts[1..], id, j - 1);
      OccurrencesAppend(Subtree(ts[0]), Flatten(ts[1..]), id);
    }
  }

  /** The threaded copy of `x` holds the id of `v` once if `x` lies on the parent chain of
      `v`, and not at all otherwise. */
  lemma SubtreeCount(x: Comment, v: Comment, all: seq<Comment>, env: Env, rank: int -> nat)
    requires Acyclic(all, rank) && AllParse(all, env) && UniqueIds(all)
    requires x in all && v in all
    ensures Threaded(x, all, env, rank).Ok?
    ensures Occurrences(Subtree(Threaded(x, all, env, rank).value), v.id) ==
      if IsAncestor(all, x, v) then 1 else 0
    decreases rank(x.id)
  {
    ThreadedNode(x, all, env, rank);
    var u := Threaded(x, all, env, rank).value;
    var cs := ChildrenForParent(x, all);
    var items := u.comments.items;
    forall k | 0 <= k < |cs|
      ensures Occurrences(Subtree(items[k]), v.id) == if IsAncestor(all, cs[k], v) then 1 else 0
    {
      assert cs[k] in all;
      SubtreeCount(cs[k], v, all, env, rank);
    }
    WithParentUnique(all, Some(x.id));
    var j := ReplyOnChain(x, v, all, rank);
    forall k | 0 <= k < |items|
      ensures Occurrences(Subtree(items[k]), v.id) == if k == j then 1 else 0
    {
    }
    FlattenCount(items, v.id, j);
    assert Subtree(u) == [u] + Flatten(items);
    assert ([u] + Flatten(items))[1..] == Flatten(items);
    if x.id == v.id {
      SameIdSame(all, x, v);
      assert Ancestor(all, v, 0) == Some(x);
    }
  }

  /** `ch` is on the parent chain of `v`, one step below `x`. */
  ghost predicate StepBelow(all: seq<Comment>, v: Comment, ch: Comment, x: Comment) {
    exists n: nat :: Ancestor(all, v, n) == Some(ch) && Ancestor(all, v, n + 1) == Some(x)
  }

  /** Every direct reply of `x` on the parent chain of `v` sits right below `x`. */
  ghost predicate RepliesSitBelow(x: Comment, v: Comment, all: seq<Comment>) {
    var cs := ChildrenForParent(x, all);
    forall k :: 0 <= k < |cs| && IsAncestor(all, cs[k], v) ==> StepBelow(all, v, cs[k], x)
  }

  /** Establishes `RepliesSitBelow`: a direct reply of `x` on the parent chain of `v` is
      followed on that chain by `x` itself. */
  lemma RepliesOnChain(x: Comment, v: Comment, all: seq<Comment>)
    requires UniqueIds(all) && x in all
    ensures RepliesSitBelow(x, v, all)
  {
    var cs := ChildrenForParent(x, all);
    forall k | 0 <= k < |cs| && IsAncestor(all, cs[k], v)
      ensures StepBelow(all, v, cs[k], x)
    {
      var n: nat :| Ancestor(all, v, n) == Some(cs[k]);
      ReplyStep(all, x, cs[k], v, n);
    }
  }

  /** The position among the direct replies of `x` of the one reply on the parent chain
      of `v` strictly below `x`, or -1 when there is none. */
  lemma ReplyOnChain(x: Comment, v: Comment, all: seq<Comment>, rank: int -> nat) returns (j: int)
    requires Acyclic(all, rank) && UniqueIds(all) && UniqueIds(ChildrenForParent(x, all))
    requires x in all && v in all
    ensures var cs := ChildrenForParent(x, all);
      && (forall k :: 0 <= k < |cs| ==> (IsAncestor(all, cs[k], v) <==> k == j))
      && (0 <= j < |cs| <==> IsAncestor(all, x, v) && x != v)
  {
    RepliesOnChain(x, v, all);
    if IsAncestor(all, x, v) && x != v {
      j := ReplyBelow(x, v, all, rank);
    } else {
      j := -1;
      NoReplyBelow(x, v, all, rank);
    }
  }

  /** When `x` is a proper ancestor of `v`, exactly one direct reply of `x` is on the
      chain. */
  lemma ReplyBelow(x: Comment, v: Comment, all: seq<Comment>, rank: int -> nat) returns (j: int)
    requires Acyclic(all, rank) && UniqueIds(all) && UniqueIds(ChildrenForParent(x, all))
    requires x in all && v in all && IsAncestor(all, x, v) && x != v
    requires RepliesSitBelow(x, v, all)
    ensures var cs := ChildrenForParent(x, all);
      && 0 <= j < |cs|
      && (forall k :: 0 <= k < |cs| ==> (IsAncestor(all, cs[k], v) <==> k == j))
  {
    var cs := ChildrenForParent(x, all);
    var m: nat :| Ancestor(all, v, m) == Some(x);
    assert m > 0;
    AncestorSucc(all, v, m - 1);
    var w := Ancestor(all, v, m - 1).value;
    AncestorRank(all, rank, v, m - 1);
    WithParentMembers(all, Some(x.id));
    assert w in cs;
    j :| 0 <= j < |cs| && cs[j] == w;
    forall k | 0 <= k < |cs| && IsAncestor(all, cs[k], v) ensures k == j {
      OneStepBelow(all, rank, v, x, cs[k], m);
      assert cs[k].id == cs[j].id;
    }
  }

  /** On an acyclic chain, whatever sits one step below `x` is the comment `m - 1` steps
      up from `v`, where `x` is `m` steps up. */
  lemma OneStepBelow(all: seq<Comment>, rank: int -> nat, v: Comment, x: Comment, ch: Comment, m: nat)
    requires Acyclic(all, rank) && v in all
    requires m > 0 && Ancestor(all, v, m) == Some(x) && StepBelow(all, v, ch, x)
    ensures Ancestor(all, v, m - 1) == Some(ch)
  {
    var n: nat :| Ancestor(all, v, n) == Some(ch) && Ancestor(all, v, n + 1) == Some(x);
    ChainNoRepeat(all, rank, v, m, n + 1);
    ChainNoRepeat(all, rank, v, n + 1, m);
  }

  /** When `x` is not a proper ancestor of `v`, no direct reply of `x` is on the chain. */
  lemma NoReplyBelow(x: Comment, v: Comment, all: seq<Comment>, rank: int -> nat)
    requires Acyclic(all, rank) && v in all
    requires !(IsAncestor(all, x, v) && x != v)
    requires RepliesSitBelow(x, v, all)
    ensures var cs := ChildrenForParent(x, all);
      forall k :: 0 <= k < |cs| ==> !IsAncestor(all, cs[k], v)
  {
    var cs := ChildrenForParent(x, all);
    forall k | 0 <= k < |cs| ensures !IsAncestor(all, cs[k], v) {
      if IsAncestor(all, cs[k], v) {
        assert StepBelow(all, v, cs[k], x);
        var n: nat :| Ancestor(all, v, n) == Some(cs[k]) && Ancestor(all, v, n + 1) == Some(x);
        ChainNoRepeat(all, rank, v, 0, n + 1);
      }
    }
  }

  /** The position among the top-level comments of the one on the parent chain of `v`,
      or -1 when the chain ends at a missing parent. */
  lemma RootOnChain(v: Comment, all: seq<Comment>, rank: int -> nat) returns (j: int)
    requires Acyclic(all, rank) && UniqueIds(all) && v in all
    ensures var roots := TopLevel(all);
      && (forall k :: 0 <= k < |roots| ==> (IsAncestor(all, roots[k], v) <==> k == j))
      && (0 <= j < |roots| <==> Rooted(all, v))
  {
    if Rooted(all, v) {
      j := RootAbove(v, all, rank);
    } else {
      j := -1;
      var roots := TopLevel(all);
      forall k | 0 <= k < |roots| ensures !IsAncestor(all, roots[k], v) {
        if IsAncestor(all, roots[k], v) {
          var n: nat :| Ancestor(all, v, n) == Some(roots[k]);
          RootedFromAncestor(all, v, n);
        }
      }
    }
  }

  /** A rooted comment has exactly one top-level comment on its parent chain. */
  lemma RootAbove(v: Comment, all: seq<Comment>, rank: int -> nat) returns (j: int)
    requires Acyclic(all, rank) && UniqueIds(all) && v in all && Rooted(all, v)
    ensures var roots := TopLevel(all);
      && 0 <= j < |roots|
      && (forall k :: 0 <= k < |roots| ==> (IsAncestor(all, roots[k], v) <==> k == j))
  {
    var roots := TopLevel(all);
    WithParentUnique(all, None);
    var n: nat :| RootedWithin(all, v, n);
    var m := RootOfRooted(all, v, n);
    AncestorRank(all, rank, v, m);
    var r := Ancestor(all, v, m).value;
    WithParentMembers(all, None);
    assert r in roots;
    j :| 0 <= j < |roots| && roots[j] == r;
    forall k | 0 <= k < |roots| && IsAncestor(all, roots[k], v) ensures k == j {
      var n': nat :| Ancestor(all, v, n') == Some(roots[k]);
      RootUnique(all, v, m, n');
      RootUnique(all, v, n', m);
      assert roots[k].id == roots[j].id;
    }
  }

  /** With unique ids and no cycles, the forest holds every comment whose parent chain
      reaches a top-level comment exactly once, and every other comment not at all. */
  lemma ExactlyOnce(all: seq<Comment>, env: Env, rank: int -> nat)
    requires Acyclic(all, rank) && UniqueIds(all)
    requires Forest(all, env, rank).Ok?
    ensures forall v :: v in all ==>
      Occurrences(Flatten(Forest(all, env, rank).value), v.id) == if Rooted(all, v) then 1 else 0
  {
    var f := Forest(all, env, rank).value;
    var roots := TopLevel(all);
    ForestParses(all, env, rank);
    ForestRoots(all, env, rank);
    forall v | v in all
      ensures Occurrences(Flatten(f), v.id) == if Rooted(all, v) then 1 else 0
    {
      var j := RootOnChain(v, all, rank);
      forall k | 0 <= k < |f|
        ensures Occurrences(Subtree(f[k]), v.id) == if k == j then 1 else 0
      {
        SubtreeCount(roots[k], v, all, env, rank);
      }
      FlattenCount(f, v.id, j);
    }
  }
}
