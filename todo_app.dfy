/**
 The collection as the application drives it: one object holding the
 records in comparator order, and the operations the two views trigger on
 it — creating a record from the input box, toggling, editing and clearing
 one record, clearing every completed record, and marking every record
 complete or incomplete.
 */
module TodoApp {
  import opened Wrappers
  import opened TodoModel
  import opened TodoCollection

  /** `newAttributes`: the typed text, the next order, and not done. */
  function NewAttributes(input: string, s: seq<Todo>): (attrs: Attributes)
    ensures attrs.content == Some(input) && attrs.done == Some(false)
    ensures attrs.order == NextOrder(s)
    ensures Sorted(s) ==> forall t :: t in s ==> t.order < attrs.order
  {
    Attributes(Some(input), Some(false), NextOrder(s))
  }

  class TodoList {
    /** The members, kept in the order of the comparator (ascending `order`). */
    var todos: seq<Todo>

    /** Every order is distinct and the members are sorted by it. */
    ghost predicate Valid()
      reads this
    {
      StrictlySorted(todos)
    }

    constructor ()
      ensures Valid() && todos == []
    {
      todos := [];
    }

    /**
     `createOnEnter`: the record built from `newAttributes` is inserted where
     the comparator places it, which is after every existing member.
     */
    method Create(input: string) returns (t: Todo)
      requires Valid()
      modifies this
      ensures Valid()
      ensures todos == old(todos) + [t]
      ensures t.content == if input == "" then DefaultContent else input
      ensures !t.done
      ensures t.order == NextOrder(old(todos))
      ensures forall i :: 0 <= i < |old(todos)| ==> old(todos)[i].order < t.order
    {
      t := Initialize(NewAttributes(input, todos));
      StrictlySortedIsSorted(todos);
      NextOrderExceedsAll(todos);
      var k := SortedIndex(todos, t.order);
      assert k == |todos|;
      todos := todos[..k] + [t] + todos[k..];
      assert todos == old(todos) + [t];
    }

    /** `toggle` on the member at position `i`. */
    method Toggle(i: nat)
      requires Valid()
      requires i < |todos|
      modifies this
      ensures Valid()
      ensures todos == old(todos)[i := Toggled(old(todos)[i])]
      ensures todos[i].done == !old(todos)[i].done
    {
      todos := todos[i := Toggled(todos[i])];
    }

    /** `close`: the edited text is saved on the member at position `i`, as it is. */
    method EditContent(i: nat, content: string)
      requires Valid()
      requires i < |todos|
      modifies this
      ensures Valid()
      ensures todos == old(todos)[i := WithContent(old(todos)[i], content)]
      ensures todos[i].content == content
    {
      todos := todos[i := WithContent(todos[i], content)];
    }

    /**
     `clear`: the record is destroyed and the collection drops it from the
     position where it finds it; a record that is not a member changes nothing.
     */
    method Clear(t: Todo)
      requires Valid()
      modifies this
      ensures Valid()
      ensures todos == Without(old(todos), [t])
      ensures t in old(todos) ==> |todos| == |old(todos)| - 1
      ensures t !in old(todos) ==> todos == old(todos)
    {
      var j := IndexOf(todos, t);
      if 0 <= j {
        StrictlySortedUniqueAt(todos, j);
        WithoutUnique(todos, j);
        todos := todos[..j] + todos[j + 1..];
      } else {
        WithoutAbsent(todos, t);
      }
      WithoutKeepsStrictlySorted(old(todos), [t]);
    }

    /**
     `clearCompleted`: every record of `done()`, taken when the call begins,
     is cleared in turn; what survives is that moment's `remaining()`.
     */
    method ClearCompleted()
      requires Valid()
      modifies this
      ensures Valid()
      ensures todos == Remaining(old(todos))
      ensures Done(todos) == []
    {
      ghost var before := todos;
      var completed := Done(todos);
      var k := 0;
      WithoutNothing(before);
      assert completed[..0] == [];
      while k < |completed|
        invariant 0 <= k <= |completed|
        invariant Valid()
        invariant todos == Without(before, completed[..k])
      {
        Clear(completed[k]);
        WithoutPrefixStep(before, completed, k);
        k := k + 1;
      }
      assert completed[..k] == completed;
      WithoutDoneIsRemaining(before, completed);
    }

    /** `toggleAllComplete`: `done` is saved as `flag` on every member in turn. */
    method ToggleAllComplete(flag: bool)
      requires Valid()
      modifies this
      ensures Valid()
      ensures todos == SetAllDone(old(todos), flag)
      ensures flag ==> Remaining(todos) == []
      ensures !flag ==> Done(todos) == []
    {
      var i := 0;
      while i < |todos|
        invariant 0 <= i <= |todos| == |old(todos)|
        invariant forall k :: 0 <= k < i ==> todos[k] == WithDone(old(todos)[k], flag)
        invariant forall k :: i <= k < |todos| ==> todos[k] == old(todos)[k]
      {
        todos := todos[i := WithDone(todos[i], flag)];
        i := i + 1;
      }
      assert todos == SetAllDone(old(todos), flag);
      SetAllDoneViews(old(todos), flag);
    }
  }

  /**
   From an empty list: create "buy milk" and an empty entry, mark the first
   done, clear completed. The survivor is the defaulted record with order 2.
   */
  method Scenario() returns (survivors: seq<Todo>)
    ensures survivors == [Todo(DefaultContent, false, 2)]
  {
    var list := new TodoList();
    var a := list.Create("buy milk");
    var b := list.Create("");
    list.Toggle(0);
    var x := list.todos[0];
    assert x.done && list.todos == [x] + [b];
    RemainingAppend([x], [b]);
    SingletonViews(x);
    SingletonViews(b);
    list.ClearCompleted();
    survivors := list.todos;
  }
}
