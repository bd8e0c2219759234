# Comment threading

This model covers the comment threading of a small blog engine (`src/query.rs`). A
post's comments come from storage as one flat list. Each comment has an id, a creation
timestamp, an author, a body, the post it belongs to and an optional parent id. Before
rendering, `sort_comments` turns the list into a forest of reply trees:

- Every comment gets its age in whole seconds (`newness`) and a human-readable label
  (`newness_str`).
- Every comment gets its direct replies, recursively, in input order (`comments`).
- Only the comments without a parent are returned, as the roots.

The Dafny modules follow the source:

- `Wrappers` holds `Option` and `Result`. `Err` stands for the single error the core can
  raise: a timestamp that does not parse.
- `Chrono` models the slice of the chrono library the code uses. Instants are integer
  nanoseconds. `num_seconds` truncates toward zero.
- `Query` models the `Comment` record (`src/query.rs:16-27`) as a datatype. The struct is
  a plain `Clone` value, and `&mut Comment` is modelled by passing the value in and handing
  back the new one.
  - `ChildrenForParent` and `TopLevel` are the two filters.
  - `AddChildren` and `SortComments` are methods with the source's loops. Each is proved
    equal to a specification function: `Threaded` and `Forest`.
  - The recursion terminates because of a ghost rank on ids that grows from each comment
    to its parent (`Acyclic`). On an input with a parent cycle, the source recurses
    without end once its loop reaches a comment on the cycle.
- `Order` proves that both filters are stable selections, and that a stable selection
  is unique.
- `Threading` proves what the returned forest holds: its roots, the annotations on every
  node, the absence of orphans, and exactly when the call fails.
- `ExactlyOnce` proves that, with unique ids, each comment whose parent chain reaches a
  top-level comment appears exactly once, and every other comment does not appear.
- `Example` works through a three-comment chain plus one orphan.

Some facts about the code that the model follows:

- The code has no cycle detection. On an input with a parent cycle, the source recurses
  without end once its loop reaches a comment on the cycle, so the model requires acyclic
  input.
- The code builds no id index. It filters the whole list again at every node.
- A timestamp that fails to parse is not a precondition. It makes `sort_comments` return
  an error, whichever comment it belongs to. Inside `add_children` a reply's failure is
  discarded and that reply keeps its original fields, but the loop of `sort_comments`
  then reaches the same comment in its own turn and fails (`Threading.ForestFails`).
- The forest can hold fewer nodes than there are non-orphan comments. A reply below an
  orphan is not an orphan itself, but it is dropped too: only comments whose parent chain
  reaches a top-level comment appear (`ExactlyOnce.ExactlyOnce`).

## Model

| member | source | states |
|---|---|---|
| Query.WithParent | src/query.rs:75-82 | the filtered comments all carry the requested parent reference, and there are no more of them than in the input |
| Query.ChildrenForParent | src/query.rs:75-82 | every child it returns is one of the input comments, and its parent id is the parent's id |
| Query.TopLevel | src/query.rs:52-58 | every root it returns is an input comment without a parent reference |
| Query.WithParentMembers | src/query.rs:75-82 | a comment survives the filter if and only if it is in the input and has the requested parent reference |
| Query.WithParentAppend | src/query.rs:52-58 | filtering a concatenation is the concatenation of the filtered parts |
| Query.AddChildren | src/query.rs:61-73 | the loop over the children, with recursive calls whose errors are ignored, followed by the parse and the stamping, yields exactly `Threaded`: Err when the comment's own timestamp fails to parse, else the comment with age, label and settled replies |
| Query.SortComments | src/query.rs:46-59 | threading each comment in turn, returning at the first error, and then keeping the parentless ones yields exactly `Forest` |
| Query.ThreadedRepliesAt | src/query.rs:62-65 | the settled replies have the same length as the children, and each position is the child after its own recursive call |
| Query.ThreadedAllAt | src/query.rs:48-50 | the loop succeeds if and only if every comment's threading succeeds, and then position k holds comment k threaded |
| Order.WithParentSelects | src/query.rs:75-82 | the filter's output is the input at an increasing list of positions, and those are exactly the positions with the requested parent reference |
| Order.SelectionIsWithParent | src/query.rs:75-82 | any stable selection of the comments with a given parent reference equals the filter's output |
| Order.SortedSameElements | src/query.rs:75-82 | two strictly increasing position lists with the same elements are equal |
| Order.ChildrenInInputOrder | src/query.rs:75-82 | the children are exactly the replies, in input order |
| Order.TopLevelInInputOrder | src/query.rs:52-58 | the roots are exactly the parentless comments, in input order |
| Chrono.NumSeconds | src/query.rs:68 | whole seconds of a signed nanosecond duration, truncated toward zero: bounded by the duration from below and above for either sign |
| Chrono.SecondsSince | src/query.rs:68 | the age is 0 when the instants are equal, is non-negative for a past instant, and is antisymmetric |
| Chrono.SecondsSinceWhole | src/query.rs:68 | for instants on whole seconds, the age is exactly their difference |
| Threading.ThreadedNode | src/query.rs:61-73 | `add_children` fails if and only if the comment's own timestamp does not parse. On success it writes only the age, the label and the replies, and the reply list matches the children one to one. A reply whose timestamp fails keeps its original fields. |
| Threading.ForestFails | src/query.rs:46-50 | `sort_comments` fails if and only if some input comment's timestamp does not parse |
| Threading.ForestParses | src/query.rs:46-50 | a successful `sort_comments` parsed every timestamp |
| Threading.EmptyForest | src/query.rs:46-59 | an empty input gives an empty forest |
| Threading.ForestRoots | src/query.rs:46-59 | the forest has one node per parentless input comment, in order, each that comment threaded with its other fields preserved |
| Threading.ThreadedFilter | src/query.rs:52-58 | keeping the parentless comments after threading picks the threaded copies of the parentless inputs |
| Threading.FlattenMember | src/query.rs:71 | a node is in the forest if and only if it is in one of its trees |
| Threading.SubtreeRooted | src/query.rs:61-65 | every node below a threaded rooted comment is the threaded copy of a rooted comment |
| Threading.ForestNodesRooted | src/query.rs:46-59 | every node of the forest is the threaded copy of an input comment whose parent chain ends at a top-level comment |
| Threading.RootedIsNotOrphan | src/query.rs:75-82 | a comment whose parent chain reaches a top-level comment names an existing parent |
| Threading.OrphansAbsent | src/query.rs:46-59 | no orphan, and no reply below one, appears anywhere in the forest |
| Threading.ForestNodesAnnotated | src/query.rs:66-71 | every node of the forest carries its parsed age, its label and a reply list matching its children one to one |
| ExactlyOnce.Lookup | src/query.rs:78 | the lookup returns the first input comment with the requested id, or reports that none has it |
| ExactlyOnce.LookupUnique | src/query.rs:78 | with unique ids, looking up a comment's id finds that comment |
| ExactlyOnce.AncestorRank | src/query.rs:61-65 | on acyclic input every step up the parent chain stays in the input and strictly raises the rank |
| ExactlyOnce.RootOfRooted | src/query.rs:52-58 | a rooted comment has a top-level comment on its parent chain |
| ExactlyOnce.RootedFromAncestor | src/query.rs:52-58 | a comment with a top-level comment on its parent chain is rooted |
| ExactlyOnce.WithParentUnique | src/query.rs:75-82 | filtering keeps ids unique |
| ExactlyOnce.FlattenCount | src/query.rs:71 | a forest whose trees hold an id at most once, in one tree, holds it once |
| ExactlyOnce.ReplyOnChain | src/query.rs:62-65 | exactly one reply of a comment lies on the parent chain of any proper descendant, and none otherwise |
| ExactlyOnce.RootOnChain | src/query.rs:52-58 | exactly one top-level comment lies on the parent chain of a rooted comment, and none otherwise |
| ExactlyOnce.SubtreeCount | src/query.rs:61-73 | the tree threaded from a comment holds a given comment's id once if the comment is on that comment's parent chain, and not at all otherwise |
| ExactlyOnce.ExactlyOnce | src/query.rs:46-59 | with unique ids and no cycles, every comment whose parent chain reaches a top-level comment appears exactly once in the forest, and every other comment never |
| Example.ChainExample | src/query.rs:46-82 | for a chain a > b > c plus a reply d to a missing comment, the forest is the single tree a > b > c, and d is absent |

## Left out

- Query.SortComments: requires that the whole input has no parent cycle. The source diverges only when it meets a cycle, and it may return an error before reaching one.
- Query.AddChildren: requires that the whole input has no parent cycle. On an input with a parent cycle, the source recurses without end once its loop reaches a comment on the cycle, which has no counterpart in the model.
- Query.AddChildren: reads one `now` for the whole run. The source calls `Utc::now()` once per node, so ages taken a moment apart can differ by a second.
- `HumanTime` is not modelled. Its rendering, which reads its own clock, is the parameter `Env.humanize`.
- Timestamp parsing with `DateTime::parse_from_str` and the format `%Y-%m-%dT%H:%M:%S%.6f%z` is not modelled. It is the parameter `Env.parse`, which returns an instant in nanoseconds or `None`.
- The 32-bit ids and the 64-bit `newness` are unbounded integers. Ids are only compared, and an age in seconds of any real timestamp fits in 64 bits.
- The `comments` field (`Option<Vec<Comment>>`) is the datatype `Replies` (`Unset` or `Replies(items)`), which is the same shape.
- Fetching the post and its comments (`Supa::get_post`, which orders comments by `created_at` descending), `src/supa.rs`, `src/db.rs` and `src/main.rs` are not part of this model. They are I/O and HTTP wiring.
- `Comment::yolo`, `User`, `UserForm` and `Post` are not modelled. They take no part in threading.
- The quadratic cost of re-filtering the list at every node is not modelled. The model states results, not running time.
