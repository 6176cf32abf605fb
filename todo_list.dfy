/**
 The collection's derived views and rules, as functions on the sequence of
 records the collection holds: the `done` and `remaining` filters, the next
 order to hand out, the statistics the application shows, and the two
 searches the collection performs when it inserts (sorted position by the
 order comparator) and removes (position of a record) a member.
 */
module TodoCollection {
  import opened TodoModel

  /** Orders strictly increase along the list: the comparator's order, without ties. */
  predicate StrictlySorted(s: seq<Todo>)
  {
    forall i, j :: 0 <= i < j < |s| ==> s[i].order < s[j].order
  }

  /** Orders never decrease along the list: what sorting by the comparator gives. */
  predicate Sorted(s: seq<Todo>)
  {
    forall i, j :: 0 <= i < j < |s| ==> s[i].order <= s[j].order
  }

  /** `done()`: the completed records, in collection order. */
  function Done(s: seq<Todo>): (r: seq<Todo>)
    ensures |r| <= |s|
    ensures forall t :: t in r <==> t in s && t.done
  {
    if s == [] then [] else (if s[0].done then [s[0]] else []) + Done(s[1..])
  }

  /** Underscore's `without`: the members of `s` equal to none of `ex`, in order. */
  function Without(s: seq<Todo>, ex: seq<Todo>): (r: seq<Todo>)
    ensures |r| <= |s|
    ensures forall t :: t in r <==> t in s && t !in ex
  {
    if s == [] then [] else (if s[0] in ex then [] else [s[0]]) + Without(s[1..], ex)
  }

  /** `remaining()`: the collection without its `done()` records. */
  function Remaining(s: seq<Todo>): (r: seq<Todo>)
    ensures forall t :: t in r <==> t in s && !t.done
  {
    Without(s, Done(s))
  }

  /** A reference definition of the records still to do: a plain filter. */
  function NotDone(s: seq<Todo>): (r: seq<Todo>)
  {
    if s == [] then [] else (if s[0].done then [] else [s[0]]) + NotDone(s[1..])
  }

  /**
   `nextOrder()`: 1 on an empty list, else the last record's order plus 1.
   On a list sorted by the comparator that is above every existing order.
   */
  function NextOrder(s: seq<Todo>): (r: int)
    ensures s == [] ==> r == 1
    ensures Sorted(s) ==> forall t :: t in s ==> t.order < r
  {
    if |s| == 0 then 1 else s[|s| - 1].order + 1
  }

  /** The statistics the application view renders. */
  datatype Stats = Stats(total: nat, done: nat, remaining: nat, allChecked: bool)

  /**
   `render`'s figures: total, done and remaining counts, and the "mark all
   done" box checked exactly when nothing remains.
   */
  function ListStats(s: seq<Todo>): (r: Stats)
    ensures r.total == |s| == r.done + r.remaining
    ensures r.done == |Done(s)| && r.remaining == |Remaining(s)|
    ensures r.allChecked <==> forall t :: t in s ==> t.done
    ensures r.allChecked <==> r.done == r.total
  {
    var done := |Done(s)|;
    var remaining := |Remaining(s)|;
    DoneRemainingPartition(s);
    assert remaining != 0 ==> Remaining(s)[0] in Remaining(s);
    Stats(|s|, done, remaining, remaining == 0)
  }

  /** Every record gets `done` set to `flag`. */
  function SetAllDone(s: seq<Todo>, flag: bool): (r: seq<Todo>)
    ensures |r| == |s|
    ensures forall i :: 0 <= i < |s| ==> r[i] == WithDone(s[i], flag)
  {
    if s == [] then [] else [WithDone(s[0], flag)] + SetAllDone(s[1..], flag)
  }

  // ---------------------------------------------------------------------
  // The derived views

  /** `remaining()`, defined as a set difference, is the plain filter on `!done`. */
  lemma {:induction false} RemainingIsNotDone(s: seq<Todo>)
    ensures Remaining(s) == NotDone(s)
  {
    WithoutDoneIsNotDone(s, Done(s));
  }

  lemma {:induction false} WithoutDoneIsNotDone(s: seq<Todo>, ex: seq<Todo>)
    requires forall t :: t in s ==> (t in ex <==> t.done)
    ensures Without(s, ex) == NotDone(s)
  {
    if s != [] {
      assert s[0] in s;
      forall t | t in s[1..] ensures t in ex <==> t.done {
        assert t in s;
      }
      WithoutDoneIsNotDone(s[1..], ex);
    }
  }

  /** `done()` and `remaining()` split the list: every record is in exactly one. */
  lemma {:induction false} DoneRemainingPartition(s: seq<Todo>)
    ensures |Done(s)| + |Remaining(s)| == |s|
    ensures multiset(Done(s)) + multiset(Remaining(s)) == multiset(s)
    ensures forall t :: t in s ==> (t in Done(s) <==> t !in Remaining(s))
  {
    RemainingIsNotDone(s);
    DoneNotDonePartition(s);
    assert |multiset(Done(s))| == |Done(s)|;
    assert |multiset(Remaining(s))| == |Remaining(s)|;
    assert |multiset(s)| == |s|;
  }

  lemma {:induction false} DoneNotDonePartition(s: seq<Todo>)
    ensures multiset(Done(s)) + multiset(NotDone(s)) == multiset(s)
  {
    if s != [] {
      DoneNotDonePartition(s[1..]);
      var head := multiset{s[0]};
      if s[0].done {
        assert multiset(Done(s)) == head + multiset(Done(s[1..]));
        assert multiset(NotDone(s)) == multiset(NotDone(s[1..]));
      } else {
        assert multiset(Done(s)) == multiset(Done(s[1..]));
        assert multiset(NotDone(s)) == head + multiset(NotDone(s[1..]));
      }
      assert s == [s[0]] + s[1..];
      assert multiset(s) == head + multiset(s[1..]);
    }
  }

  /** `done()` keeps collection order: it distributes over concatenation. */
  lemma {:induction false} DoneAppend(s: seq<Todo>, u: seq<Todo>)
    ensures Done(s + u) == Done(s) + Done(u)
  {
    if s == [] {
      assert s + u == u;
    } else {
      var head := if s[0].done then [s[0]] else [];
      assert (s + u)[0] == s[0];
      assert (s + u)[1..] == s[1..] + u;
      assert Done(s + u) == head + Done(s[1..] + u);
      DoneAppend(s[1..], u);
      assert Done(s) == head + Done(s[1..]);
    }
  }

  /** `remaining()` keeps collection order: it distributes over concatenation. */
  lemma {:induction false} RemainingAppend(s: seq<Todo>, u: seq<Todo>)
    ensures Remaining(s + u) == Remaining(s) + Remaining(u)
  {
    RemainingIsNotDone(s + u);
    RemainingIsNotDone(s);
    RemainingIsNotDone(u);
    NotDoneAppend(s, u);
  }

  lemma {:induction false} NotDoneAppend(s: seq<Todo>, u: seq<Todo>)
    ensures NotDone(s + u) == NotDone(s) + NotDone(u)
  {
    if s == [] {
      assert s + u == u;
    } else {
      var head := if s[0].done then [] else [s[0]];
      assert (s + u)[0] == s[0];
      assert (s + u)[1..] == s[1..] + u;
      assert NotDone(s + u) == head + NotDone(s[1..] + u);
      NotDoneAppend(s[1..], u);
      assert NotDone(s) == head + NotDone(s[1..]);
    }
  }

  /** On a single record the two views are the obvious ones. */
  lemma SingletonViews(t: Todo)
    ensures Done([t]) == if t.done then [t] else []
    ensures Remaining([t]) == if t.done then [] else [t]
  {
  }

  /** Clearing what is done leaves a list with nothing done and the same remaining. */
  lemma {:induction false} RemainingIsClear(s: seq<Todo>)
    ensures Done(Remaining(s)) == []
    ensures Remaining(Remaining(s)) == Remaining(s)
  {
    RemainingIsNotDone(s);
    NotDoneIsClear(s);
    RemainingIsNotDone(NotDone(s));
  }

  lemma {:induction false} NotDoneIsClear(s: seq<Todo>)
    ensures Done(NotDone(s)) == []
    ensures NotDone(NotDone(s)) == NotDone(s)
  {
    if s != [] {
      NotDoneIsClear(s[1..]);
      var n := NotDone(s[1..]);
      if !s[0].done {
        assert NotDone(s) == [s[0]] + n;
        assert ([s[0]] + n)[0] == s[0] && ([s[0]] + n)[1..] == n;
        assert Done([s[0]] + n) == Done(n);
        assert NotDone([s[0]] + n) == [s[0]] + NotDone(n);
      } else {
        assert NotDone(s) == n;
      }
    }
  }

  /** Toggling one record moves it from one view to the other. */
  lemma {:induction false} ToggleShiftsCounts(s: seq<Todo>, i: nat)
    requires i < |s|
    ensures |Done(s[i := Toggled(s[i])])| == |Done(s)| + (if s[i].done then -1 else 1)
    ensures |Remaining(s[i := Toggled(s[i])])| == |Remaining(s)| + (if s[i].done then 1 else -1)
  {
    var u := s[i := Toggled(s[i])];
    if i == 0 {
      assert u[1..] == s[1..];
    } else {
      assert u[1..] == s[1..][i - 1 := Toggled(s[i])];
      ToggleShiftsCounts(s[1..], i - 1);
    }
    DoneRemainingPartition(s);
    DoneRemainingPartition(u);
  }

  /** The counts depend on the completion flags only. */
  lemma {:induction false} SameFlagsSameCounts(s: seq<Todo>, u: seq<Todo>)
    requires |s| == |u|
    requires forall i :: 0 <= i < |s| ==> s[i].done == u[i].done
    ensures ListStats(s) == ListStats(u)
  {
    SameFlagsSameDone(s, u);
  }

  lemma {:induction false} SameFlagsSameDone(s: seq<Todo>, u: seq<Todo>)
    requires |s| == |u|
    requires forall i :: 0 <= i < |s| ==> s[i].done == u[i].done
    ensures |Done(s)| == |Done(u)|
  {
    if s != [] {
      SameFlagsSameDone(s[1..], u[1..]);
    }
  }

  /** An edit of one record's content changes no statistic. */
  lemma EditKeepsStats(s: seq<Todo>, i: nat, content: string)
    requires i < |s|
    ensures ListStats(s[i := WithContent(s[i], content)]) == ListStats(s)
  {
    SameFlagsSameCounts(s[i := WithContent(s[i], content)], s);
  }

  // ---------------------------------------------------------------------
  // Marking everything complete

  /** After marking all complete nothing remains; after marking all incomplete nothing is done. */
  lemma {:induction false} SetAllDoneViews(s: seq<Todo>, flag: bool)
    ensures flag ==> Remaining(SetAllDone(s, flag)) == [] && Done(SetAllDone(s, flag)) == SetAllDone(s, flag)
    ensures !flag ==> Done(SetAllDone(s, flag)) == [] && Remaining(SetAllDone(s, flag)) == SetAllDone(s, flag)
  {
    var r := SetAllDone(s, flag);
    RemainingIsNotDone(r);
    AllFlagViews(r, flag);
  }

  lemma {:induction false} AllFlagViews(s: seq<Todo>, flag: bool)
    requires forall i :: 0 <= i < |s| ==> s[i].done == flag
    ensures flag ==> NotDone(s) == [] && Done(s) == s
    ensures !flag ==> Done(s) == [] && NotDone(s) == s
  {
    if s != [] {
      AllFlagViews(s[1..], flag);
      assert s == [s[0]] + s[1..];
    }
  }

  /** The "all checked" box after marking everything: checked unless marked incomplete on a non-empty list. */
  lemma SetAllDoneStats(s: seq<Todo>, flag: bool)
    ensures ListStats(SetAllDone(s, flag)).allChecked <==> flag || s == []
    ensures ListStats(SetAllDone(s, flag)).done == if flag then |s| else 0
  {
    SetAllDoneViews(s, flag);
  }

  // ---------------------------------------------------------------------
  // Orders

  /** On a sorted list the next order exceeds every existing one and is the largest plus 1. */
  lemma NextOrderExceedsAll(s: seq<Todo>)
    requires Sorted(s)
    ensures forall i :: 0 <= i < |s| ==> s[i].order < NextOrder(s)
    ensures s != [] ==> exists i :: 0 <= i < |s| && s[i].order == NextOrder(s) - 1
    ensures s == [] ==> NextOrder(s) == 1
  {
    if s != [] {
      assert s[|s| - 1].order == NextOrder(s) - 1;
    }
  }

  lemma StrictlySortedIsSorted(s: seq<Todo>)
    requires StrictlySorted(s)
    ensures Sorted(s)
  {
  }

  /** Dropping records keeps the orders strictly increasing. */
  lemma {:induction false} WithoutKeepsStrictlySorted(s: seq<Todo>, ex: seq<Todo>)
    requires StrictlySorted(s)
    ensures StrictlySorted(Without(s, ex))
  {
    if s != [] {
      var tail := s[1..];
      assert StrictlySorted(tail) by {
        forall i, j | 0 <= i < j < |tail| ensures tail[i].order < tail[j].order {
          assert tail[i] == s[i + 1] && tail[j] == s[j + 1];
        }
      }
      WithoutKeepsStrictlySorted(tail, ex);
      var w := Without(tail, ex);
      if s[0] !in ex {
        forall t | t in w ensures s[0].order < t.order {
          var k :| 0 <= k < |tail| && tail[k] == t;
          assert s[k + 1] == t;
        }
        ConsStrictlySorted(s[0], w);
        assert Without(s, ex) == [s[0]] + w;
      } else {
        assert Without(s, ex) == w;
      }
    }
  }

  /** A record below every order of a strictly sorted list can be put in front of it. */
  lemma ConsStrictlySorted(x: Todo, w: seq<Todo>)
    requires StrictlySorted(w)
    requires forall t :: t in w ==> x.order < t.order
    ensures StrictlySorted([x] + w)
  {
    var r := [x] + w;
    forall i, j | 0 <= i < j < |r| ensures r[i].order < r[j].order {
      assert r[j] == w[j - 1] && w[j - 1] in w;
      if 0 < i {
        assert r[i] == w[i - 1];
      }
    }
  }

  /** Removing `ex` and then `x` is removing `ex + [x]`. */
  lemma {:induction false} WithoutSnoc(s: seq<Todo>, ex: seq<Todo>, x: Todo)
    ensures Without(Without(s, ex), [x]) == Without(s, ex + [x])
  {
    if s != [] {
      WithoutSnoc(s[1..], ex, x);
      var w := Without(s[1..], ex);
      assert s[0] in ex + [x] <==> s[0] in ex || s[0] == x;
      if s[0] !in ex {
        assert Without(s, ex) == [s[0]] + w;
        assert ([s[0]] + w)[0] == s[0] && ([s[0]] + w)[1..] == w;
        assert Without([s[0]] + w, [x]) == (if s[0] == x then [] else [s[0]]) + Without(w, [x]);
      } else {
        assert Without(s, ex) == w;
      }
    }
  }

  /** One more record of `ex` removed: the step of clearing the records of `ex` one by one. */
  lemma WithoutPrefixStep(s: seq<Todo>, ex: seq<Todo>, k: nat)
    requires k < |ex|
    ensures Without(Without(s, ex[..k]), [ex[k]]) == Without(s, ex[..k + 1])
  {
    WithoutSnoc(s, ex[..k], ex[k]);
    assert ex[..k + 1] == ex[..k] + [ex[k]];
  }

  /** Removing all of `done()` leaves `remaining()`, in which nothing is done. */
  lemma WithoutDoneIsRemaining(s: seq<Todo>, completed: seq<Todo>)
    requires completed == Done(s)
    ensures Without(s, completed) == Remaining(s)
    ensures Done(Remaining(s)) == []
  {
    RemainingIsClear(s);
  }

  lemma {:induction false} WithoutNothing(s: seq<Todo>)
    ensures Without(s, []) == s
  {
    if s != [] {
      WithoutNothing(s[1..]);
    }
  }

  /** A record that occurs exactly once is removed by cutting out its position. */
  lemma {:induction false} WithoutUnique(s: seq<Todo>, j: nat)
    requires j < |s|
    requires s[j] !in s[..j] && s[j] !in s[j + 1..]
    ensures Without(s, [s[j]]) == s[..j] + s[j + 1..]
  {
    var x := s[j];
    var tail := s[1..];
    if j == 0 {
      assert tail == s[j + 1..];
      WithoutAbsent(tail, x);
      assert Without(s, [x]) == Without(tail, [x]);
    } else {
      assert tail[j - 1] == x;
      assert s[..j] == [s[0]] + s[1..j];
      assert tail[..j - 1] == s[1..j];
      assert tail[j..] == s[j + 1..];
      WithoutUnique(tail, j - 1);
      assert s[0] != x;
      assert Without(s, [x]) == [s[0]] + Without(tail, [x]);
    }
  }

  /** In a strictly sorted list a record occurs at one position only. */
  lemma StrictlySortedUniqueAt(s: seq<Todo>, j: nat)
    requires StrictlySorted(s)
    requires j < |s|
    ensures s[j] !in s[..j] && s[j] !in s[j + 1..]
  {
    var before, after := s[..j], s[j + 1..];
    forall m | 0 <= m < |before| ensures before[m] != s[j] {
      assert before[m] == s[m];
    }
    forall m | 0 <= m < |after| ensures after[m] != s[j] {
      assert after[m] == s[j + 1 + m];
    }
  }

  /** Removing an absent record changes nothing. */
  lemma {:induction false} WithoutAbsent(s: seq<Todo>, x: Todo)
    requires x !in s
    ensures Without(s, [x]) == s
  {
    if s != [] {
      assert s[0] in s;
      WithoutAbsent(s[1..], x);
    }
  }

  // ---------------------------------------------------------------------
  // Searches

  /**
   Underscore's `sortedIndex` with the order comparator: the binary search
   for the first position whose order is not below `key`, where the
   collection inserts a record of that order.
   */
  method SortedIndex(s: seq<Todo>, key: int) returns (lo: nat)
    requires Sorted(s)
    ensures lo <= |s|
    ensures forall i :: 0 <= i < lo ==> s[i].order < key
    ensures forall i :: lo <= i < |s| ==> key <= s[i].order
  {
    lo := 0;
    var hi := |s|;
    while lo < hi
      invariant 0 <= lo <= hi <= |s|
      invariant forall i :: 0 <= i < lo ==> s[i].order < key
      invariant forall i :: hi <= i < |s| ==> key <= s[i].order
    {
      var mid := (lo + hi) / 2;
      if s[mid].order < key {
        lo := mid + 1;
      } else {
        hi := mid;
      }
    }
  }

  /** The first position holding `t`, or -1 when it is not a member. */
  method IndexOf(s: seq<Todo>, t: Todo) returns (j: int)
    ensures -1 <= j < |s|
    ensures j == -1 <==> t !in s
    ensures 0 <= j ==> s[j] == t && t !in s[..j]
  {
    j := 0;
    while j < |s|
      invariant 0 <= j <= |s|
      invariant t !in s[..j]
    {
      if s[j] == t {
        return;
      }
      assert s[..j + 1] == s[..j] + [s[j]];
      j := j + 1;
    }
    assert s[..j] == s;
    j := -1;
  }

  /** The example of a two-record list: one to do, one done. */
  lemma Example()
    ensures var s := [Todo("buy milk", false, 1), Todo("clean", true, 2)];
      Done(s) == [s[1]] && Remaining(s) == [s[0]] && NextOrder(s) == 3
      && ListStats(s) == Stats(2, 1, 1, false)
  {
  }
}
