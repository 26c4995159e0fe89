/** The todo list of `dist/timer.js`: an ordered sequence of todo records
    and the operations that change it. Ids are not assumed unique (two todos
    added within the same millisecond share one), so the operations that
    look a todo up by id (`todos.find`) act on the FIRST todo with that id. */
module Todos {

  import opened Optional
  import opened Strings

  /** `workTime` counts minutes. It is an `int` because the elapsed time it
      is credited with is measured on the wall clock and can be negative. */
  datatype Todo = Todo(id: string, text: string, workTime: int, completed: bool, createdAt: int)

  /** Position `j` holds the first todo whose id is `id`. */
  predicate IsFirstWithId(todos: seq<Todo>, j: int, id: string) {
    && 0 <= j < |todos|
    && todos[j].id == id
    && forall k :: 0 <= k < j ==> todos[k].id != id
  }

  predicate HasId(todos: seq<Todo>, id: string) {
    exists j :: 0 <= j < |todos| && todos[j].id == id
  }

  /** `todos.find(t => t.id === id)`, as a position. */
  function FindTodo(todos: seq<Todo>, id: string): (r: Option<nat>)
    ensures r.Some? ==> IsFirstWithId(todos, r.value, id)
    ensures r.None? <==> !HasId(todos, id)
  {
    if todos == [] then None
    else if todos[0].id == id then Some(0)
    else match FindTodo(todos[1..], id)
      case Some(i) => Some(i + 1)
      case None => None
  }

  /** Only the first todo with the id has its `completed` flag flipped;
      order and every other field stay. */
  predicate Toggled(before: seq<Todo>, after: seq<Todo>, id: string) {
    && |after| == |before|
    && forall j :: 0 <= j < |before| ==>
         after[j] == before[j].(completed := before[j].completed != IsFirstWithId(before, j, id))
  }

  /** Only the first todo with the id gains `minutes` of work time; order
      and every other field stay. */
  predicate Credited(before: seq<Todo>, after: seq<Todo>, id: string, minutes: int) {
    && |after| == |before|
    && forall j :: 0 <= j < |before| ==>
         after[j] == before[j].(workTime := before[j].workTime + if IsFirstWithId(before, j, id) then minutes else 0)
  }

  /** `toggleComplete(id)`: flips `completed` in place. The todo does not
      move, and an unknown id changes nothing. */
  function ToggleComplete(todos: seq<Todo>, id: string): (r: seq<Todo>)
    ensures Toggled(todos, r, id)
    ensures !HasId(todos, id) ==> r == todos
  {
    match FindTodo(todos, id)
    case None => todos
    case Some(i) => todos[i := todos[i].(completed := !todos[i].completed)]
  }

  /** The todo record `todo.workTime += minutes` updates, found by id. */
  function AddWorkTime(todos: seq<Todo>, id: string, minutes: int): (r: seq<Todo>)
    ensures Credited(todos, r, id, minutes)
    ensures !HasId(todos, id) ==> r == todos
  {
    match FindTodo(todos, id)
    case None => todos
    case Some(i) => todos[i := todos[i].(workTime := todos[i].workTime + minutes)]
  }

  /** `addTodo`: input that trims to nothing is ignored; otherwise a fresh,
      incomplete todo with no work time and the trimmed text goes to the end.
      Its id is `Date.now().toString()` read at `idTime`, and `createdAt` is
      a second reading of the clock. */
  function AddTodo(todos: seq<Todo>, input: string, idTime: int, createdAt: int): (r: seq<Todo>)
    ensures AllWhitespace(input) ==> r == todos
    ensures !AllWhitespace(input) ==>
      && |r| == |todos| + 1
      && r[..|todos|] == todos
      && r[|todos|].id == IntToString(idTime)
      && r[|todos|].text != [] && IsTrimmed(r[|todos|].text)
      && Surrounds(input, r[|todos|].text, |input| - |TrimStart(input)|)
      && r[|todos|].workTime == 0 && !r[|todos|].completed
      && r[|todos|].createdAt == createdAt
  {
    var text := Trim(input);
    if text == [] then todos
    else todos + [Todo(IntToString(idTime), text, 0, false, createdAt)]
  }

  /** `todos.filter(todo => todo.id !== id)`. */
  function RemoveId(todos: seq<Todo>, id: string): (r: seq<Todo>)
    ensures |r| <= |todos|
    ensures forall t :: t in r ==> t in todos && t.id != id
    ensures forall t :: t in todos && t.id != id ==> t in r
  {
    if todos == [] then []
    else if todos[0].id == id then RemoveId(todos[1..], id)
    else [todos[0]] + RemoveId(todos[1..], id)
  }

  /** The positions from `from` on that hold a todo whose id is not `id`,
      in increasing order. */
  function KeptPositions(todos: seq<Todo>, id: string, from: nat): (ks: seq<nat>)
    requires from <= |todos|
    ensures forall k :: 0 <= k < |ks| ==> from <= ks[k] < |todos| && todos[ks[k]].id != id
    ensures forall i :: from <= i < |todos| && todos[i].id != id ==> i in ks
    ensures forall k, l :: 0 <= k < l < |ks| ==> ks[k] < ks[l]
    decreases |todos| - from
  {
    if from == |todos| then []
    else if todos[from].id == id then KeptPositions(todos, id, from + 1)
    else [from] + KeptPositions(todos, id, from + 1)
  }

  /** Deleting keeps exactly the todos with another id, in their original
      relative order: the k-th survivor is the todo at the k-th kept
      position. */
  lemma RemoveIdKeepsOrder(todos: seq<Todo>, id: string)
    ensures |RemoveId(todos, id)| == |KeptPositions(todos, id, 0)|
    ensures forall k :: 0 <= k < |RemoveId(todos, id)| ==>
      RemoveId(todos, id)[k] == todos[KeptPositions(todos, id, 0)[k]]
  {
    assert todos[0..] == todos;
    RemoveSuffixKeepsOrder(todos, id, 0);
  }

  /** `r` is what `todos` holds at the positions `ks`, one for one. */
  predicate Picks(todos: seq<Todo>, r: seq<Todo>, ks: seq<nat>) {
    && |r| == |ks|
    && forall k :: 0 <= k < |ks| ==> ks[k] < |todos| && r[k] == todos[ks[k]]
  }

  lemma PicksCons(todos: seq<Todo>, r: seq<Todo>, ks: seq<nat>, i: nat)
    requires Picks(todos, r, ks) && i < |todos|
    ensures Picks(todos, [todos[i]] + r, [i] + ks)
  {
    forall k | 0 < k < |ks| + 1
      ensures ([i] + ks)[k] < |todos| && ([todos[i]] + r)[k] == todos[([i] + ks)[k]]
    {
      assert ([i] + ks)[k] == ks[k - 1];
      assert ([todos[i]] + r)[k] == r[k - 1];
    }
  }

  lemma {:induction false} RemoveSuffixKeepsOrder(todos: seq<Todo>, id: string, from: nat)
    requires from <= |todos|
    ensures Picks(todos, RemoveId(todos[from..], id), KeptPositions(todos, id, from))
    decreases |todos| - from
  {
    if from < |todos| {
      var tail := todos[from..];
      assert tail[0] == todos[from];
      assert tail[1..] == todos[from + 1..];
      RemoveSuffixKeepsOrder(todos, id, from + 1);
      var r', ks' := RemoveId(todos[from + 1..], id), KeptPositions(todos, id, from + 1);
      if todos[from].id != id {
        PicksCons(todos, r', ks', from);
      }
    }
  }

  /** Deleting an id nobody has changes nothing. */
  lemma {:induction false} RemoveMissingId(todos: seq<Todo>, id: string)
    requires !HasId(todos, id)
    ensures RemoveId(todos, id) == todos
    decreases |todos|
  {
    if todos != [] {
      assert todos[0].id != id;
      assert !HasId(todos[1..], id) by {
        forall j | 0 <= j < |todos[1..]|
          ensures todos[1..][j].id != id
        {
          assert todos[1..][j] == todos[j + 1];
        }
      }
      RemoveMissingId(todos[1..], id);
      assert todos == [todos[0]] + todos[1..];
    }
  }

  /** Deleting twice is deleting once. */
  lemma RemoveIdIdempotent(todos: seq<Todo>, id: string)
    ensures RemoveId(RemoveId(todos, id), id) == RemoveId(todos, id)
  {
    var r := RemoveId(todos, id);
    assert !HasId(r, id) by {
      forall j | 0 <= j < |r|
        ensures r[j].id != id
      {
        assert r[j] in r;
      }
    }
    RemoveMissingId(r, id);
  }

  /** Deleting a todo just added (under an id nobody else has) gives the
      list back. */
  lemma AddThenRemove(todos: seq<Todo>, input: string, idTime: int, createdAt: int)
    requires !HasId(todos, IntToString(idTime))
    ensures RemoveId(AddTodo(todos, input, idTime, createdAt), IntToString(idTime)) == todos
  {
    var id := IntToString(idTime);
    RemoveMissingId(todos, id);
    if !AllWhitespace(input) {
      var t := Todo(id, Trim(input), 0, false, createdAt);
      RemoveAppend(todos, t, id);
    }
  }

  /** Filtering a list with one more todo at its end. */
  lemma {:induction false} RemoveAppend(todos: seq<Todo>, t: Todo, id: string)
    ensures RemoveId(todos + [t], id) == RemoveId(todos, id) + (if t.id == id then [] else [t])
    decreases |todos|
  {
    if todos == [] {
      assert todos + [t] == [t];
    } else {
      assert (todos + [t])[1..] == todos[1..] + [t];
      RemoveAppend(todos[1..], t, id);
    }
  }

  /** Toggling the same id twice changes nothing. */
  lemma ToggleTwice(todos: seq<Todo>, id: string)
    ensures ToggleComplete(ToggleComplete(todos, id), id) == todos
  {
    var once := ToggleComplete(todos, id);
    var twice := ToggleComplete(once, id);
    forall j | 0 <= j < |todos|
      ensures twice[j] == todos[j]
    {
      assert IsFirstWithId(once, j, id) == IsFirstWithId(todos, j, id) by {
        assert forall k :: 0 <= k < |todos| ==> once[k].id == todos[k].id;
      }
    }
  }

  /** Work time credited with a non-negative count never goes down. */
  lemma CreditNeverDecreases(todos: seq<Todo>, id: string, minutes: int)
    requires minutes >= 0
    ensures forall j :: 0 <= j < |todos| ==>
      AddWorkTime(todos, id, minutes)[j].workTime >= todos[j].workTime
  {
  }

  function RemoveAt<T>(s: seq<T>, i: nat): (r: seq<T>)
    requires i < |s|
    ensures |r| == |s| - 1
  {
    s[..i] + s[i + 1..]
  }

  function InsertAt<T>(s: seq<T>, i: nat, x: T): (r: seq<T>)
    requires i <= |s|
    ensures |r| == |s| + 1
  {
    s[..i] + [x] + s[i..]
  }

  /** Where `splice(newIndex, 0, x)` inserts into a list of length `len`: an
      index past the end means the end. */
  function SpliceStart(newIndex: nat, len: nat): (k: nat)
    ensures k <= len
    ensures k == newIndex || (k == len && newIndex > len)
  {
    if newIndex < len then newIndex else len
  }

  /** The drag-and-drop reorder: `todos.splice(oldIndex, 1)` takes the moved
      todo out and `todos.splice(newIndex, 0, moved)` puts it back. The
      moved todo lands at `newIndex` (the end if past it), the others keep
      their relative order, and nothing is lost or added. */
  function MoveTodo(todos: seq<Todo>, oldIndex: nat, newIndex: nat): (r: seq<Todo>)
    requires oldIndex < |todos|
    ensures |r| == |todos|
    ensures multiset(r) == multiset(todos)
    ensures r[SpliceStart(newIndex, |todos| - 1)] == todos[oldIndex]
    ensures RemoveAt(r, SpliceStart(newIndex, |todos| - 1)) == RemoveAt(todos, oldIndex)
  {
    var rest := RemoveAt(todos, oldIndex);
    var k := SpliceStart(newIndex, |rest|);
    RemoveInsert(rest, k, todos[oldIndex]);
    InsertRemoveMultiset(todos, oldIndex, k);
    InsertAt(rest, k, todos[oldIndex])
  }

  /** Inserting at `k` and then removing at `k` gives the list back. */
  lemma RemoveInsert<T>(s: seq<T>, k: nat, x: T)
    requires k <= |s|
    ensures InsertAt(s, k, x)[k] == x
    ensures RemoveAt(InsertAt(s, k, x), k) == s
  {
    var r := InsertAt(s, k, x);
    assert r[..k] == s[..k];
    assert r[k + 1..] == s[k..];
    assert s == s[..k] + s[k..];
  }

  /** Taking an element out and putting it back elsewhere keeps the multiset. */
  lemma InsertRemoveMultiset<T>(s: seq<T>, i: nat, k: nat)
    requires i < |s| && k < |s|
    ensures multiset(InsertAt(RemoveAt(s, i), k, s[i])) == multiset(s)
  {
    var rest := RemoveAt(s, i);
    assert s == s[..i] + [s[i]] + s[i + 1..];
    assert multiset(s) == multiset(rest) + multiset{s[i]};
    assert rest == rest[..k] + rest[k..];
    assert multiset(InsertAt(rest, k, s[i])) == multiset(rest) + multiset{s[i]};
  }

  /** Dragging the todo back from where it landed restores the list. */
  lemma MoveBack(todos: seq<Todo>, oldIndex: nat, newIndex: nat)
    requires oldIndex < |todos|
    ensures MoveTodo(MoveTodo(todos, oldIndex, newIndex), SpliceStart(newIndex, |todos| - 1), oldIndex) == todos
  {
    var k := SpliceStart(newIndex, |todos| - 1);
    var once := MoveTodo(todos, oldIndex, newIndex);
    var back := MoveTodo(once, k, oldIndex);
    assert SpliceStart(oldIndex, |todos| - 1) == oldIndex;
    assert RemoveAt(back, oldIndex) == RemoveAt(todos, oldIndex);
    assert back[oldIndex] == todos[oldIndex];
    SameRemovalSameSeq(back, todos, oldIndex);
  }

  /** Two lists that agree at `i` and after removing position `i` are equal. */
  lemma SameRemovalSameSeq<T>(a: seq<T>, b: seq<T>, i: nat)
    requires i < |a| && i < |b|
    requires a[i] == b[i] && RemoveAt(a, i) == RemoveAt(b, i)
    ensures a == b
  {
    assert a == a[..i] + [a[i]] + a[i + 1..];
    assert b == b[..i] + [b[i]] + b[i + 1..];
    assert a[..i] == RemoveAt(a, i)[..i] == RemoveAt(b, i)[..i] == b[..i];
    assert a[i + 1..] == RemoveAt(a, i)[i..] == RemoveAt(b, i)[i..] == b[i + 1..];
  }
}
