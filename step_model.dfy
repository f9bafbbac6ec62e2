/** The shared step record of the visualizer (src/types/index.ts) and the
    small sequence helpers every generator uses. */
module StepModel {

  datatype Option<+T> = None | Some(value: T) {
    function GetOr(default: T): T {
      match this
      case Some(v) => v
      case None => default
    }
  }

  /** A linked-list node; `next` is an index into the same snapshot or null. */
  datatype ListNode = ListNode(value: int, next: Option<nat>)

  /** A binary-tree node; `left` and `right` are indices into the same snapshot or null. */
  datatype TreeNode = TreeNode(value: int, left: Option<nat>, right: Option<nat>)

  /** The `data` field of a step: a full snapshot of the structure. */
  datatype Snapshot =
    | ArrayData(values: seq<int>)
    | ListData(list: seq<ListNode>)
    | TreeData(tree: seq<TreeNode>)
  {
    function Size(): nat {
      match this
      case ArrayData(v) => |v|
      case ListData(l) => |l|
      case TreeData(t) => |t|
    }
  }

  /** `step-<k>` from the `stepId` counter, or the generic stepper's `step-final`. */
  datatype StepId = Num(n: nat) | FinalId

  /** What a step's description says, without the interpolated values. */
  datatype Note =
    | Initial        // the first step of every trace
    | Comparing      // bubble sort: a pair is compared
    | Swapped        // bubble sort: the pair was swapped
    | SortDone       // bubble sort: final step
    | Probe          // binary search: the middle element is checked
    | SearchRight    // binary search: arr[mid] < target
    | SearchLeft     // binary search: arr[mid] > target
    | Checking       // linear search: one index is checked
    | Found          // a search found the target
    | NotFound       // a search ended without finding the target
    | Visiting       // list or tree traversal visits a node
    | ReachedEnd     // list traversal: final step
    | TraversalDone  // tree traversal: final step
    | Processing     // generic stepper: one index is processed
    | Completed      // generic stepper: final step

  /** An animation step. The optional index lists of the source are empty
      sequences when absent, and an absent `currentIndex` is None. */
  datatype Step = Step(
    id: StepId,
    note: Note,
    data: Snapshot,
    highlights: seq<int>,
    comparing: seq<int>,
    sorted: seq<int>,
    current: Option<int>)

  /** Which of the two copies of a generator built a trace: the editor's
      parser (src/utils/pythonParser.ts) or the built-in table
      (src/data/algorithms.ts). */
  datatype Generator = FromParser | FromTable

  datatype Visualizer = ArrayView | LinkedListView | TreeView

  /** An algorithm definition: its labels, sample code, initial data and steps. */
  datatype Algorithm = Algorithm(
    id: string,
    name: string,
    category: string,
    description: string,
    code: string,
    initialData: Snapshot,
    steps: seq<Step>,
    visualizer: Visualizer)

  /** `Array.from({ length: n }, (_, i) => i)`. */
  function Range(n: nat): seq<int> {
    seq(n, k => k)
  }

  /** `Array.from({ length: hi - lo }, (_, k) => lo + k)`: the indices lo, ...,
      hi-1, and empty when hi <= lo (a negative length counts as zero). */
  function Interval(lo: int, hi: int): (r: seq<int>)
    ensures |r| == if lo <= hi then hi - lo else 0
    ensures forall k :: 0 <= k < |r| ==> r[k] == lo + k
  {
    if lo <= hi then seq(hi - lo, k => lo + k) else []
  }

  function Last<T>(s: seq<T>): T
    requires |s| > 0
  {
    s[|s| - 1]
  }

  ghost predicate Sorted(s: seq<int>) {
    forall p, q :: 0 <= p < q < |s| ==> s[p] <= s[q]
  }

  ghost predicate Distinct<T>(s: seq<T>) {
    forall p, q :: 0 <= p < q < |s| ==> s[p] != s[q]
  }

  /** Every step of `steps` carries the id `step-<base + position>`. */
  ghost predicate NumberedFrom(steps: seq<Step>, base: nat) {
    forall k :: 0 <= k < |steps| ==> steps[k].id == Num(base + k)
  }

  /** Index `x` is a valid position of a snapshot of `size` elements. */
  predicate ValidIndex(x: int, size: nat) {
    0 <= x < size
  }

  ghost predicate AllValid(xs: seq<int>, size: nat) {
    forall t :: 0 <= t < |xs| ==> ValidIndex(xs[t], size)
  }

  /** Every index a step refers to is a valid index of its own snapshot. */
  ghost predicate StepInBounds(s: Step) {
    var size := s.data.Size();
    AllValid(s.highlights, size) && AllValid(s.comparing, size) && AllValid(s.sorted, size)
    && (s.current.Some? ==> ValidIndex(s.current.value, size))
  }

  /** Every step of a trace is in bounds. */
  ghost predicate AllInBounds(steps: seq<Step>) {
    forall k :: 0 <= k < |steps| ==> StepInBounds(steps[k])
  }

  lemma AllInBoundsConcat(a: seq<Step>, b: seq<Step>)
    requires AllInBounds(a) && AllInBounds(b)
    ensures AllInBounds(a + b)
  {
    forall k | 0 <= k < |a + b| ensures StepInBounds((a + b)[k]) {
      if k < |a| { assert (a + b)[k] == a[k]; } else { assert (a + b)[k] == b[k - |a|]; }
    }
  }

  /** Numbering carries over a concatenation. */
  lemma NumberedConcat(a: seq<Step>, b: seq<Step>, base: nat)
    requires NumberedFrom(a, base) && NumberedFrom(b, base + |a|)
    ensures NumberedFrom(a + b, base)
  {
    forall k | 0 <= k < |a + b| ensures (a + b)[k].id == Num(base + k) {
      if k < |a| { assert (a + b)[k] == a[k]; } else { assert (a + b)[k] == b[k - |a|]; }
    }
  }

  /** Regrouping a concatenation; stated apart so that the proofs using it
      do not have to find it among their other facts. */
  lemma ConcatAssoc<T>(a: seq<T>, b: seq<T>, c: seq<T>, d: seq<T>)
    ensures a + b + c + d == a + (b + c + d)
  {
  }

  lemma Assoc<T>(a: seq<T>, b: seq<T>, c: seq<T>)
    ensures a + (b + c) == (a + b) + c
  {
  }

  lemma LastConcat<T>(a: seq<T>, b: seq<T>)
    requires |b| > 0
    ensures Last(a + b) == Last(b)
  {
  }

  lemma ConcatEmpty<T>(a: seq<T>)
    ensures [] + a == a && a + [] == a
  {
  }

  /** The number of steps whose note is `note`. */
  function CountNote(steps: seq<Step>, note: Note): nat {
    if |steps| == 0 then 0
    else (if steps[0].note == note then 1 else 0) + CountNote(steps[1..], note)
  }

  lemma {:induction false} CountNoteAppend(a: seq<Step>, b: seq<Step>, note: Note)
    ensures CountNote(a + b, note) == CountNote(a, note) + CountNote(b, note)
  {
    if |a| == 0 {
      assert a + b == b;
    } else {
      assert (a + b)[1..] == a[1..] + b;
      CountNoteAppend(a[1..], b, note);
    }
  }

  /** A sorted sequence is determined by its multiset of elements. */
  lemma {:induction false} SortedPermutationUnique(a: seq<int>, b: seq<int>)
    requires Sorted(a) && Sorted(b) && multiset(a) == multiset(b)
    ensures a == b
    decreases |a|
  {
    assert |a| == |multiset(a)| == |multiset(b)| == |b|;
    if |a| > 0 {
      SortedHeads(a, b);
      SameTails(a, b);
      assert Sorted(a[1..]) && Sorted(b[1..]);
      SortedPermutationUnique(a[1..], b[1..]);
      assert a == [a[0]] + a[1..] && b == [b[0]] + b[1..];
    }
  }

  /** Two sorted arrangements of the same elements start alike: each head
      is the other's least element. */
  lemma SortedHeads(a: seq<int>, b: seq<int>)
    requires Sorted(a) && Sorted(b) && multiset(a) == multiset(b)
    requires |a| > 0 && |b| > 0
    ensures a[0] == b[0]
  {
    assert a[0] in multiset(b) && b[0] in multiset(a);
    var p :| 0 <= p < |b| && b[p] == a[0];
    var q :| 0 <= q < |a| && a[q] == b[0];
    assert a[0] <= a[q] && b[0] <= b[p];
  }

  /** Removing equal heads leaves the same elements. */
  lemma SameTails(a: seq<int>, b: seq<int>)
    requires multiset(a) == multiset(b) && |a| > 0 && |b| > 0 && a[0] == b[0]
    ensures multiset(a[1..]) == multiset(b[1..])
  {
    assert a == [a[0]] + a[1..] && b == [b[0]] + b[1..];
    assert multiset(a[1..]) == multiset(a) - multiset{a[0]};
    assert multiset(b[1..]) == multiset(b) - multiset{b[0]};
  }

  /** The elements of a sequence without repetitions number exactly its length. */
  lemma {:induction false} DistinctCard<T>(s: seq<T>)
    requires Distinct(s)
    ensures |set x | x in s| == |s|
  {
    if |s| > 0 {
      var t := s[1..];
      assert Distinct(t) by {
        forall p, q | 0 <= p < q < |t| ensures t[p] != t[q] {
          assert t[p] == s[p + 1] && t[q] == s[q + 1];
        }
      }
      DistinctCard(t);
      assert s[0] !in t by {
        forall p | 0 <= p < |t| ensures t[p] != s[0] {
          assert t[p] == s[p + 1];
        }
      }
      assert (set x | x in s) == (set x | x in t) + {s[0]} by {
        forall x ensures x in s <==> x in t || x == s[0] {
          if x in s {
            var p :| 0 <= p < |s| && s[p] == x;
            if p > 0 { assert t[p - 1] == x; }
          }
          if x in t {
            var p :| 0 <= p < |t| && t[p] == x;
            assert s[p + 1] == x;
          }
        }
      }
    }
  }
}
