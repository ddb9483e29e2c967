/** The sort engine of renderTasks (static/script.js): five comparators over
    tasks, a stable sort of a copy of the cached list, and what each mode
    guarantees about the order it produces. */
module SortEngine {
  import opened Tasks

  /** The options of the sort select. */
  datatype SortMode = DueDateAsc | DueDateDesc | PriorityAsc | PriorityDesc | Default

  /** The `switch (sortOption)`: the four named values select their comparator,
      'default' and every other value select the default one. */
  function ParseSortMode(value: string): (m: SortMode)
    ensures m == DueDateAsc <==> value == "due-date-asc"
    ensures m == DueDateDesc <==> value == "due-date-desc"
    ensures m == PriorityAsc <==> value == "priority-asc"
    ensures m == PriorityDesc <==> value == "priority-desc"
    ensures m == Default <==>
              value !in ["due-date-asc", "due-date-desc", "priority-asc", "priority-desc"]
  {
    if value == "due-date-asc" then DueDateAsc
    else if value == "due-date-desc" then DueDateDesc
    else if value == "priority-asc" then PriorityAsc
    else if value == "priority-desc" then PriorityDesc
    else Default
  }

  /** The comparator callbacks, with JavaScript's sign convention: negative
      puts `a` first, positive puts `b` first, zero leaves them as they are.
      Date subtraction is the difference of day numbers. */
  function Compare(mode: SortMode, a: Task, b: Task): (c: int)
    ensures a.completed != b.completed ==> (c > 0 <==> a.completed)
  {
    if a.completed != b.completed then (if a.completed then 1 else -1)
    else
      match mode
      case DueDateAsc =>
        if a.dueDate.None? && b.dueDate.None? then 0
        else if a.dueDate.None? then 1
        else if b.dueDate.None? then -1
        else a.dueDate.value - b.dueDate.value
      case DueDateDesc =>
        if a.dueDate.None? && b.dueDate.None? then 0
        else if a.dueDate.None? then 1
        else if b.dueDate.None? then -1
        else b.dueDate.value - a.dueDate.value
      case PriorityAsc => Weight(b.priority) - Weight(a.priority)
      case PriorityDesc => Weight(a.priority) - Weight(b.priority)
      case Default =>
        if a.completed then 0
        else if Weight(a.priority) != Weight(b.priority) then Weight(b.priority) - Weight(a.priority)
        else if a.dueDate.Some? && b.dueDate.Some? then a.dueDate.value - b.dueDate.value
        else if a.dueDate.Some? then -1
        else if b.dueDate.Some? then 1
        else 0
  }

  /** Every comparator is a consistent comparison function: it orders the
      tasks by a total preorder, which is what a sort needs of it. */
  lemma CompareIsTotalPreorder(mode: SortMode, a: Task, b: Task, c: Task)
    ensures Compare(mode, a, a) == 0
    ensures Compare(mode, a, b) > 0 <==> Compare(mode, b, a) < 0
    ensures Compare(mode, a, b) == 0 <==> Compare(mode, b, a) == 0
    ensures Compare(mode, a, b) <= 0 && Compare(mode, b, c) <= 0 ==> Compare(mode, a, c) <= 0
    ensures Compare(mode, a, b) == 0 && Compare(mode, b, c) == 0 ==> Compare(mode, a, c) == 0
  {
  }

  /** `s` is in the order the comparator asks for. */
  ghost predicate Ordered(mode: SortMode, s: seq<Task>) {
    forall i, j :: 0 <= i < j < |s| ==> Compare(mode, s[i], s[j]) <= 0
  }

  /** Insert `x` into `p` from the right, passing over exactly the elements
      that must come after it (one step of insertion sort). */
  function InsertRight(mode: SortMode, p: seq<Task>, x: Task): (r: seq<Task>)
    ensures |r| == |p| + 1
  {
    if p == [] then [x]
    else if Compare(mode, p[|p| - 1], x) > 0 then
      assert p == p[..|p| - 1] + [p[|p| - 1]];
      InsertRight(mode, p[..|p| - 1], x) + [p[|p| - 1]]
    else p + [x]
  }

  /** The stable sort that Array.prototype.sort performs (stable since ES2019),
      written as insertion sort over the prefixes of `s`. */
  function StableSort(mode: SortMode, s: seq<Task>): (r: seq<Task>)
    ensures |r| == |s|
  {
    if s == [] then []
    else
      assert s == s[..|s| - 1] + [s[|s| - 1]];
      InsertRight(mode, StableSort(mode, s[..|s| - 1]), s[|s| - 1])
  }

  /** `sortedTasks.sort(cmp)`: sort the copy in place. */
  method SortInPlace(mode: SortMode, a: array<Task>)
    modifies a
    ensures a[..] == StableSort(mode, old(a[..]))
  {
    ghost var input := a[..];
    var i := 0;
    while i < a.Length
      invariant 0 <= i <= a.Length
      invariant a[..i] == StableSort(mode, input[..i])
      invariant forall k :: i <= k < a.Length ==> a[k] == input[k]
    {
      InsertAt(mode, a, i);
      StableSortPrefix(mode, input, i);
      i := i + 1;
    }
    assert input[..a.Length] == input;
  }

  /** Sorting one more element of the input is inserting it into the sorted prefix. */
  lemma StableSortPrefix(mode: SortMode, s: seq<Task>, i: nat)
    requires i < |s|
    ensures StableSort(mode, s[..i + 1]) == InsertRight(mode, StableSort(mode, s[..i]), s[i])
  {
    assert s[..i + 1][..i] == s[..i];
  }

  /** One pass of insertion sort: move `a[i]` left past every element of the
      prefix `a[..i]` that the comparator puts after it. */
  method InsertAt(mode: SortMode, a: array<Task>, i: nat)
    requires i < a.Length
    modifies a
    ensures a[..i + 1] == InsertRight(mode, old(a[..i]), old(a[i]))
    ensures forall k :: i < k < a.Length ==> a[k] == old(a[k])
  {
    var x := a[i];
    ghost var p := a[..i];
    var j := i;
    while j > 0 && Compare(mode, a[j - 1], x) > 0
      invariant 0 <= j <= i
      invariant forall k :: 0 <= k < j ==> a[k] == p[k]
      invariant forall k :: j < k <= i ==> a[k] == p[k - 1]
      invariant forall k :: i < k < a.Length ==> a[k] == old(a[k])
      invariant forall k :: j <= k < i ==> Compare(mode, p[k], x) > 0
    {
      a[j] := a[j - 1];
      j := j - 1;
    }
    a[j] := x;
    InsertRightAt(mode, p, x, j);
    Shifted(a[..i + 1], p, x, j);
  }

  /** A sequence that agrees with `p` before `j`, holds `x` at `j` and `p`
      shifted one place right after it is `p` with `x` inserted at `j`. */
  lemma Shifted(s: seq<Task>, p: seq<Task>, x: Task, j: nat)
    requires j <= |p| && |s| == |p| + 1
    requires forall k :: 0 <= k < j ==> s[k] == p[k]
    requires s[j] == x
    requires forall k :: j < k < |s| ==> s[k] == p[k - 1]
    ensures s == p[..j] + [x] + p[j..]
  {
    var r := p[..j] + [x] + p[j..];
    forall k | 0 <= k < |s| ensures s[k] == r[k] {
      if k > j {
        assert r[k] == p[j..][k - j - 1];
      }
    }
  }

  /** Where insertion puts `x`: right after the last element the comparator
      does not put after `x`, ahead of the run of elements it does. */
  lemma {:induction false} InsertRightAt(mode: SortMode, p: seq<Task>, x: Task, j: nat)
    requires j <= |p|
    requires forall k :: j <= k < |p| ==> Compare(mode, p[k], x) > 0
    requires j == 0 || Compare(mode, p[j - 1], x) <= 0
    ensures InsertRight(mode, p, x) == p[..j] + [x] + p[j..]
    decreases |p|
  {
    if j < |p| {
      var init := p[..|p| - 1];
      assert Compare(mode, p[|p| - 1], x) > 0;
      assert InsertRight(mode, p, x) == InsertRight(mode, init, x) + [p[|p| - 1]];
      assert forall k :: j <= k < |init| ==> init[k] == p[k];
      assert j == 0 || init[j - 1] == p[j - 1];
      InsertRightAt(mode, init, x, j);
      assert init[..j] == p[..j];
      assert p[j..] == init[j..] + [p[|p| - 1]];
    } else {
      assert p[..j] == p && p[j..] == [];
    }
  }

  /** Insertion adds exactly the one element. */
  lemma {:induction false} InsertRightPermutes(mode: SortMode, p: seq<Task>, x: Task)
    ensures multiset(InsertRight(mode, p, x)) == multiset(p) + multiset{x}
  {
    if p != [] && Compare(mode, p[|p| - 1], x) > 0 {
      InsertRightPermutes(mode, p[..|p| - 1], x);
      assert p == p[..|p| - 1] + [p[|p| - 1]];
    }
  }

  /** The sorted copy holds the same tasks, each as often, as the cached list. */
  lemma {:induction false} StableSortPermutes(mode: SortMode, s: seq<Task>)
    ensures multiset(StableSort(mode, s)) == multiset(s)
  {
    if s != [] {
      StableSortPermutes(mode, s[..|s| - 1]);
      InsertRightPermutes(mode, StableSort(mode, s[..|s| - 1]), s[|s| - 1]);
      assert s == s[..|s| - 1] + [s[|s| - 1]];
    }
  }

  // ---------------------------------------------------------------------
  // The sort orders, keeps every task, and is stable

  lemma {:induction false} InsertRightOrdered(mode: SortMode, p: seq<Task>, x: Task)
    requires Ordered(mode, p)
    ensures Ordered(mode, InsertRight(mode, p, x))
  {
    if p != [] {
      var last := p[|p| - 1];
      var init := p[..|p| - 1];
      if Compare(mode, last, x) > 0 {
        InsertRightOrdered(mode, init, x);
        InsertRightPermutes(mode, init, x);
        var q := InsertRight(mode, init, x);
        forall k | 0 <= k < |q| ensures Compare(mode, q[k], last) <= 0 {
          assert q[k] in multiset(q);
          if q[k] == x {
            CompareIsTotalPreorder(mode, last, x, x);
          } else {
            assert q[k] in multiset(init);
            var m :| 0 <= m < |init| && init[m] == q[k];
            assert p[m] == q[k];
          }
        }
        OrderedSnoc(mode, q, last);
      } else {
        forall k | 0 <= k < |p| ensures Compare(mode, p[k], x) <= 0 {
          CompareIsTotalPreorder(mode, p[k], last, x);
        }
        OrderedSnoc(mode, p, x);
      }
    }
  }

  lemma OrderedSnoc(mode: SortMode, q: seq<Task>, y: Task)
    requires Ordered(mode, q)
    requires forall k :: 0 <= k < |q| ==> Compare(mode, q[k], y) <= 0
    ensures Ordered(mode, q + [y])
  {
    forall i, j | 0 <= i < j < |q| + 1 ensures Compare(mode, (q + [y])[i], (q + [y])[j]) <= 0 {
      if j == |q| {
        assert (q + [y])[i] == q[i] && (q + [y])[j] == y;
      } else {
        assert (q + [y])[i] == q[i] && (q + [y])[j] == q[j];
      }
    }
  }

  /** The sorted copy is in comparator order. */
  lemma {:induction false} StableSortOrdered(mode: SortMode, s: seq<Task>)
    ensures Ordered(mode, StableSort(mode, s))
  {
    if s != [] {
      StableSortOrdered(mode, s[..|s| - 1]);
      InsertRightOrdered(mode, StableSort(mode, s[..|s| - 1]), s[|s| - 1]);
    }
  }

  /** The tasks of `s` that the comparator ranks equal to `x`, in their order in `s`. */
  function Peers(mode: SortMode, s: seq<Task>, x: Task): seq<Task> {
    if s == [] then []
    else Peers(mode, s[..|s| - 1], x) + Pick(mode, s[|s| - 1], x)
  }

  /** `[y]` when the comparator ranks `y` equal to `x`, else nothing. */
  function Pick(mode: SortMode, y: Task, x: Task): seq<Task> {
    if Compare(mode, y, x) == 0 then [y] else []
  }

  lemma PeersSnoc(mode: SortMode, s: seq<Task>, y: Task, x: Task)
    ensures Peers(mode, s + [y], x) == Peers(mode, s, x) + Pick(mode, y, x)
  {
    assert (s + [y])[..|s|] == s;
  }

  /** Two tasks the comparator puts in strict order cannot both rank equal to a third. */
  lemma NotBothPeers(mode: SortMode, a: Task, b: Task, x: Task)
    requires Compare(mode, a, b) > 0
    ensures Pick(mode, a, x) == [] || Pick(mode, b, x) == []
  {
    if Compare(mode, a, x) == 0 && Compare(mode, b, x) == 0 {
      CompareIsTotalPreorder(mode, a, x, b);
      CompareIsTotalPreorder(mode, b, x, a);
      assert false;
    }
  }

  lemma {:induction false} InsertRightPeers(mode: SortMode, p: seq<Task>, e: Task, x: Task)
    ensures Peers(mode, InsertRight(mode, p, e), x) == Peers(mode, p + [e], x)
  {
    if p != [] && Compare(mode, p[|p| - 1], e) > 0 {
      var last := p[|p| - 1];
      var init := p[..|p| - 1];
      var q := InsertRight(mode, init, e);
      assert p == init + [last];
      NotBothPeers(mode, last, e, x);
      calc {
        Peers(mode, InsertRight(mode, p, e), x);
        { assert InsertRight(mode, p, e) == q + [last]; }
        Peers(mode, q + [last], x);
        { PeersSnoc(mode, q, last, x); }
        Peers(mode, q, x) + Pick(mode, last, x);
        { InsertRightPeers(mode, init, e, x); PeersSnoc(mode, init, e, x); }
        Peers(mode, init, x) + Pick(mode, e, x) + Pick(mode, last, x);
        Peers(mode, init, x) + Pick(mode, last, x) + Pick(mode, e, x);
        { PeersSnoc(mode, init, last, x); }
        Peers(mode, p, x) + Pick(mode, e, x);
        { PeersSnoc(mode, p, e, x); }
        Peers(mode, p + [e], x);
      }
    }
  }

  /** Stability: tasks the comparator ranks equal come out in the order they went in. */
  lemma {:induction false} StableSortKeepsPeerOrder(mode: SortMode, s: seq<Task>, x: Task)
    ensures Peers(mode, StableSort(mode, s), x) == Peers(mode, s, x)
  {
    if s != [] {
      var init := s[..|s| - 1];
      var y := s[|s| - 1];
      assert init + [y] == s;
      assert StableSort(mode, s) == InsertRight(mode, StableSort(mode, init), y);
      StableSortKeepsPeerOrder(mode, init, x);
      InsertRightPeers(mode, StableSort(mode, init), y, x);
      PeersSnoc(mode, StableSort(mode, init), y, x);
      PeersSnoc(mode, init, y, x);
    }
  }

  // ---------------------------------------------------------------------
  // What each mode guarantees about the sorted copy

  /** In every mode no completed task comes before an incomplete one. */
  lemma CompletedLast(mode: SortMode, s: seq<Task>)
    ensures forall i, j :: 0 <= i < j < |StableSort(mode, s)| && StableSort(mode, s)[i].completed ==>
              StableSort(mode, s)[j].completed
  {
    StableSortOrdered(mode, s);
  }

  /** In both due-date modes, among tasks of the same completion state, one
      without a due date comes after every one that has a due date. */
  lemma UndatedLast(mode: SortMode, s: seq<Task>)
    requires mode == DueDateAsc || mode == DueDateDesc
    ensures var r := StableSort(mode, s);
            forall i, j :: 0 <= i < j < |r| && r[i].completed == r[j].completed && r[i].dueDate.None? ==>
              r[j].dueDate.None?
  {
    StableSortOrdered(mode, s);
  }

  /** due-date-asc puts earlier due dates first. */
  lemma DueDateAscOrder(s: seq<Task>)
    ensures var r := StableSort(DueDateAsc, s);
            forall i, j :: 0 <= i < j < |r| && r[i].completed == r[j].completed &&
                           r[i].dueDate.Some? && r[j].dueDate.Some? ==>
              r[i].dueDate.value <= r[j].dueDate.value
  {
    StableSortOrdered(DueDateAsc, s);
  }

  /** due-date-desc puts later due dates first. */
  lemma DueDateDescOrder(s: seq<Task>)
    ensures var r := StableSort(DueDateDesc, s);
            forall i, j :: 0 <= i < j < |r| && r[i].completed == r[j].completed &&
                           r[i].dueDate.Some? && r[j].dueDate.Some? ==>
              r[i].dueDate.value >= r[j].dueDate.value
  {
    StableSortOrdered(DueDateDesc, s);
  }

  /** "priority-asc" puts the HEAVIER priority first (urgent before normal). */
  lemma PriorityAscOrder(s: seq<Task>)
    ensures var r := StableSort(PriorityAsc, s);
            forall i, j :: 0 <= i < j < |r| && r[i].completed == r[j].completed ==>
              Weight(r[i].priority) >= Weight(r[j].priority)
  {
    StableSortOrdered(PriorityAsc, s);
  }

  /** "priority-desc" puts the LIGHTER priority first (normal before urgent). */
  lemma PriorityDescOrder(s: seq<Task>)
    ensures var r := StableSort(PriorityDesc, s);
            forall i, j :: 0 <= i < j < |r| && r[i].completed == r[j].completed ==>
              Weight(r[i].priority) <= Weight(r[j].priority)
  {
    StableSortOrdered(PriorityDesc, s);
  }

  /** The default mode, among incomplete tasks: heavier priority first; at
      equal priority, earlier due date first and tasks without one last. */
  lemma DefaultOrder(s: seq<Task>)
    ensures var r := StableSort(Default, s);
            forall i, j :: 0 <= i < j < |r| && !r[i].completed && !r[j].completed ==>
              && Weight(r[i].priority) >= Weight(r[j].priority)
              && (r[i].priority == r[j].priority && r[i].dueDate.Some? && r[j].dueDate.Some? ==>
                    r[i].dueDate.value <= r[j].dueDate.value)
              && (r[i].priority == r[j].priority && r[i].dueDate.None? ==> r[j].dueDate.None?)
  {
    StableSortOrdered(Default, s);
  }

  /** The completed tasks of `s`, in order. */
  function CompletedOf(s: seq<Task>): seq<Task> {
    if s == [] then []
    else CompletedOf(s[..|s| - 1]) + (if s[|s| - 1].completed then [s[|s| - 1]] else [])
  }

  /** The tasks of `s` without a due date whose completion state is `done`, in order. */
  function UndatedOf(s: seq<Task>, done: bool): seq<Task> {
    if s == [] then []
    else UndatedOf(s[..|s| - 1], done) +
         (if s[|s| - 1].dueDate.None? && s[|s| - 1].completed == done then [s[|s| - 1]] else [])
  }

  /** A task with the given completion state and no due date. */
  function Probe(done: bool): Task {
    Task(0, "", "", None, Normal, done, "")
  }

  lemma {:induction false} CompletedArePeers(s: seq<Task>)
    ensures Peers(Default, s, Probe(true)) == CompletedOf(s)
  {
    if s != [] {
      CompletedArePeers(s[..|s| - 1]);
    }
  }

  lemma {:induction false} UndatedArePeers(mode: SortMode, s: seq<Task>, done: bool)
    requires mode == DueDateAsc || mode == DueDateDesc
    ensures Peers(mode, s, Probe(done)) == UndatedOf(s, done)
  {
    if s != [] {
      UndatedArePeers(mode, s[..|s| - 1], done);
    }
  }

  /** The default comparator returns 0 for two completed tasks, so the
      completed tasks keep the order they had in the cached list. */
  lemma DefaultKeepsCompletedOrder(s: seq<Task>)
    ensures CompletedOf(StableSort(Default, s)) == CompletedOf(s)
  {
    StableSortKeepsPeerOrder(Default, s, Probe(true));
    CompletedArePeers(s);
    CompletedArePeers(StableSort(Default, s));
  }

  /** In the due-date modes two tasks without a due date (and the same
      completion state) keep the order they had in the cached list. */
  lemma DueDateKeepsUndatedOrder(mode: SortMode, s: seq<Task>, done: bool)
    requires mode == DueDateAsc || mode == DueDateDesc
    ensures UndatedOf(StableSort(mode, s), done) == UndatedOf(s, done)
  {
    StableSortKeepsPeerOrder(mode, s, Probe(done));
    UndatedArePeers(mode, s, done);
    UndatedArePeers(mode, StableSort(mode, s), done);
  }
}
