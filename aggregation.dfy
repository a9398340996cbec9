/** The download list's selected-items list as a value: rows are named by
    their position, which stands in for the object identity the original
    compares with `!==`. */
module Aggregation {
  import opened GridData

  /** `items.filter(d => d !== x)`: every occurrence of `x` is dropped. */
  function Remove(s: seq<nat>, x: nat): seq<nat>
  {
    if |s| == 0 then [] else (if s[0] == x then [] else [s[0]]) + Remove(s[1..], x)
  }

  /** Removal zeroes the count of `x` and keeps every other count. */
  lemma {:induction false} RemoveCounts(s: seq<nat>, x: nat)
    ensures multiset(Remove(s, x)) == multiset(s)[x := 0]
  {
    if |s| > 0 {
      var t := s[1..];
      RemoveCounts(t, x);
      assert s == [s[0]] + t;
      assert multiset(s) == multiset([s[0]]) + multiset(t);
      if s[0] == x {
        assert Remove(s, x) == Remove(t, x);
      } else {
        assert Remove(s, x) == [s[0]] + Remove(t, x);
        assert multiset(Remove(s, x)) == multiset([s[0]]) + multiset(Remove(t, x));
      }
    }
  }

  /** Filtering distributes over concatenation, so the remaining items keep
      their relative order. */
  lemma {:induction false} RemoveAppend(a: seq<nat>, b: seq<nat>, x: nat)
    ensures Remove(a + b, x) == Remove(a, x) + Remove(b, x)
  {
    if |a| > 0 {
      assert (a + b)[1..] == a[1..] + b;
      RemoveAppend(a[1..], b, x);
    } else {
      assert a + b == b;
    }
  }

  /** The effect of one `el-grid#selectionChanged` event on the list. */
  function ApplyEvent(s: seq<nat>, e: SelectionEvent): seq<nat>
  {
    if e.checked then s + [e.dataIndex] else Remove(s, e.dataIndex)
  }

  /** The effect of a sequence of events delivered in order. */
  function ApplyAll(s: seq<nat>, es: seq<SelectionEvent>): seq<nat>
    decreases |es|
  {
    if |es| == 0 then s else ApplyAll(ApplyEvent(s, es[0]), es[1..])
  }

  /** One event with the given checked state per listed row, in list order. */
  function AsEvents(checked: bool, rows: seq<nat>): (es: seq<SelectionEvent>)
    ensures |es| == |rows|
    ensures forall k :: 0 <= k < |rows| ==> es[k] == SelectionEvent(checked, rows[k])
  {
    seq(|rows|, k requires 0 <= k < |rows| => SelectionEvent(checked, rows[k]))
  }

  /** An unchecked event drops every occurrence of its row and keeps the
      others, in order. */
  lemma UncheckedRemoves(s: seq<nat>, i: nat, y: nat)
    ensures i !in ApplyEvent(s, SelectionEvent(false, i))
    ensures y != i ==> multiset(ApplyEvent(s, SelectionEvent(false, i)))[y] == multiset(s)[y]
  {
    RemoveCounts(s, i);
    assert multiset(Remove(s, i))[i] == 0;
  }

  /** Delivering checked events for a list of rows appends those rows. */
  lemma {:induction false} ApplyAllChecked(s: seq<nat>, rows: seq<nat>)
    ensures ApplyAll(s, AsEvents(true, rows)) == s + rows
    decreases |rows|
  {
    if |rows| > 0 {
      assert AsEvents(true, rows)[1..] == AsEvents(true, rows[1..]);
      ApplyAllChecked(s + [rows[0]], rows[1..]);
      assert s + [rows[0]] + rows[1..] == s + rows;
    }
  }

  /** Delivering unchecked events for a list of rows drops every occurrence
      of those rows and keeps every other item. */
  lemma {:induction false} ApplyAllUnchecked(s: seq<nat>, rows: seq<nat>)
    ensures forall y :: multiset(ApplyAll(s, AsEvents(false, rows)))[y]
                        == if y in rows then 0 else multiset(s)[y]
    decreases |rows|
  {
    if |rows| > 0 {
      assert AsEvents(false, rows)[1..] == AsEvents(false, rows[1..]);
      ApplyAllUnchecked(Remove(s, rows[0]), rows[1..]);
      RemoveCounts(s, rows[0]);
      assert forall y :: y in rows <==> y == rows[0] || y in rows[1..];
    }
  }
}
