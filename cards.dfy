/** Reordering the report cards by drag and drop. The intended move takes the
    dragged card out and puts it back where the card it was dropped on stood:
    dropping after a card further down (`insertBefore(dragged, target.nextSibling)`)
    and before a card further up (`insertBefore(dragged, target)`) both leave
    the dragged card at the target's old index.

    As written, `draggedElement` lives in the closure of each
    `enableDragAndDrop(element)` call and only that element's own `dragstart`
    assigns it, so a drop handler only ever sees no dragged element or its own
    element: the drop either throws or changes nothing. The second half of this
    module models that handler; the move itself is the corrected behaviour. */
module Cards {
  import opened Wrappers

  /** The sequence without its element at i. */
  function RemoveAt<T>(s: seq<T>, i: nat): (r: seq<T>)
    requires i < |s|
    ensures |r| == |s| - 1
    ensures forall k :: 0 <= k < |r| ==> r[k] == if k < i then s[k] else s[k + 1]
  {
    s[..i] + s[i + 1..]
  }

  lemma RemoveAtMultiset<T>(s: seq<T>, i: nat)
    requires i < |s|
    ensures multiset(RemoveAt(s, i)) + multiset{s[i]} == multiset(s)
  {
    assert s == s[..i] + [s[i]] + s[i + 1..];
  }

  /** The sequence with x put in at i. */
  function InsertAt<T>(s: seq<T>, i: nat, x: T): (r: seq<T>)
    requires i <= |s|
    ensures |r| == |s| + 1
    ensures forall k :: 0 <= k < |r| ==> r[k] == if k < i then s[k] else if k == i then x else s[k - 1]
  {
    s[..i] + [x] + s[i..]
  }

  lemma InsertAtMultiset<T>(s: seq<T>, i: nat, x: T)
    requires i <= |s|
    ensures multiset(InsertAt(s, i, x)) == multiset(s) + multiset{x}
  {
    assert s == s[..i] + s[i..];
  }

  /** The order after dropping the card at `from` onto the card at `to`: the
      target index holds the dragged card, the cards between the two positions
      shift one step towards the dragged card's old place, and the rest stay. */
  function Moved<T>(s: seq<T>, from: nat, to: nat): (m: seq<T>)
    requires from < |s| && to < |s|
    ensures |m| == |s|
  {
    seq(|s|, k requires 0 <= k < |s| =>
      if k == to then s[from]
      else if from < to && from <= k < to then s[k + 1]
      else if to < from && to < k <= from then s[k - 1]
      else s[k])
  }

  /** The intended drop on the children of the cards' parent, in place: the
      cards between the two positions shift by one towards the dragged card's
      old place, and the dragged card lands at the target's index. Dropping a
      card on itself changes nothing. */
  method MoveCard<T>(cards: array<T>, from: nat, to: nat)
    requires from < cards.Length && to < cards.Length
    modifies cards
    ensures cards[..] == Moved(old(cards[..]), from, to)
  {
    var dragged := cards[from];
    ghost var s := cards[..];
    if from < to {
      var i := from;
      while i < to
        invariant from <= i <= to
        invariant forall k :: 0 <= k < from ==> cards[k] == s[k]
        invariant forall k :: from <= k < i ==> cards[k] == s[k + 1]
        invariant forall k :: i <= k < cards.Length ==> cards[k] == s[k]
      {
        cards[i] := cards[i + 1];
        i := i + 1;
      }
      cards[to] := dragged;
    } else {
      var i := from;
      while i > to
        invariant to <= i <= from
        invariant forall k :: 0 <= k <= i ==> cards[k] == s[k]
        invariant forall k :: i < k <= from ==> cards[k] == s[k - 1]
        invariant forall k :: from < k < cards.Length ==> cards[k] == s[k]
      {
        cards[i] := cards[i - 1];
        i := i - 1;
      }
      cards[to] := dragged;
    }
    ghost var m := Moved(s, from, to);
    assert forall k :: 0 <= k < cards.Length ==> cards[k] == m[k];
    assert cards[..] == m;
  }

  // ---------------------------------------------------------------------------
  // What a move promises
  // ---------------------------------------------------------------------------

  /** The move is what `insertBefore` does with a child already in the list:
      take the dragged card out, then put it in at the target's old index. */
  lemma MovedIsReinsertion<T>(s: seq<T>, from: nat, to: nat)
    requires from < |s| && to < |s|
    ensures Moved(s, from, to) == InsertAt(RemoveAt(s, from), to, s[from])
  {
    var rm := RemoveAt(s, from);
    var m, r := Moved(s, from, to), InsertAt(rm, to, s[from]);
    forall k | 0 <= k < |s| ensures m[k] == r[k] {
      if k == to {
        assert r[k] == s[from];
      } else if k < to {
        assert r[k] == rm[k];
      } else {
        assert r[k] == rm[k - 1];
      }
    }
  }

  /** The dragged card ends at the target's index, the other cards keep their
      order, and no card is lost or duplicated; dropping a card on itself
      changes nothing. */
  lemma MovedFacts<T>(s: seq<T>, from: nat, to: nat)
    requires from < |s| && to < |s|
    ensures Moved(s, from, to)[to] == s[from]
    ensures RemoveAt(Moved(s, from, to), to) == RemoveAt(s, from)
    ensures multiset(Moved(s, from, to)) == multiset(s)
    ensures from == to ==> Moved(s, from, to) == s
  {
    var r := RemoveAt(s, from);
    var m := Moved(s, from, to);
    var back := RemoveAt(m, to);
    assert m == InsertAt(r, to, s[from]) by {
      MovedIsReinsertion(s, from, to);
    }
    assert back == r by {
      assert forall k :: 0 <= k < |r| ==> back[k] == r[k];
    }
    assert multiset(m) == multiset(s) by {
      RemoveAtMultiset(s, from);
      InsertAtMultiset(r, to, s[from]);
    }
  }

  /** Dropping a card back where it came from undoes the move. */
  lemma MoveBack<T>(s: seq<T>, from: nat, to: nat)
    requires from < |s| && to < |s|
    ensures Moved(Moved(s, from, to), to, from) == s
  {
    var m := Moved(s, from, to);
    var back := Moved(m, to, from);
    forall k | 0 <= k < |s| ensures back[k] == s[k] {
      if k == from {
        assert back[k] == m[to];
      } else if to < from && to <= k < from {
        assert back[k] == m[k + 1];
      } else if from < to && from < k <= to {
        assert back[k] == m[k - 1];
      } else {
        assert back[k] == m[k];
      }
    }
  }

  // ---------------------------------------------------------------------------
  // The drop handler as written
  // ---------------------------------------------------------------------------

  /** The drag events one element receives. */
  datatype DragEvent = DragStart | DragEnd | DragOver | DragEnter | DragLeave | Drop

  /** `draggedElement` in the closure of `enableDragAndDrop(element)` after the
      element has received events, as the index of the element among the
      cards: only `dragstart` assigns it, and it assigns the element itself. */
  function DraggedAfter(self: nat, events: seq<DragEvent>): (d: Option<nat>)
    ensures d == None || d == Some(self)
  {
    if events == [] then None
    else if events[|events| - 1] == DragStart then Some(self)
    else DraggedAfter(self, events[..|events| - 1])
  }

  /** What a drop does to the cards: reorders them, or throws. */
  datatype DropOutcome<T> = Reordered(cards: seq<T>) | TypeError

  /** The drop handler of the card at `target`, with `dragged` the index of
      `draggedElement` or None for `null`. Dropping the element on itself does
      nothing. With no dragged element `indexOf(null)` is -1, below the target's
      index, and `insertBefore(null, ...)` throws. Otherwise the card moves. */
  function DropHandler<T>(cards: seq<T>, dragged: Option<nat>, target: nat): DropOutcome<T>
    requires target < |cards|
    requires dragged.Some? ==> dragged.value < |cards|
  {
    if dragged == Some(target) then Reordered(cards)
    else if dragged.None? then TypeError
    else Reordered(Moved(cards, dragged.value, target))
  }

  /** The closure holds its own element exactly once that element has been
      dragged. */
  lemma {:induction false} DraggedIsSelf(self: nat, events: seq<DragEvent>)
    ensures DraggedAfter(self, events) == Some(self) <==> DragStart in events
  {
    if events != [] {
      var init := events[..|events| - 1];
      DraggedIsSelf(self, init);
      assert events == init + [events[|events| - 1]];
    }
  }

  /** As written, no drop ever reorders the cards: before the element has been
      dragged a drop throws, and afterwards it changes nothing. */
  lemma DropNeverMoves<T>(cards: seq<T>, self: nat, events: seq<DragEvent>)
    requires self < |cards|
    ensures DropHandler(cards, DraggedAfter(self, events), self) ==
      if DragStart in events then Reordered(cards) else TypeError
  {
    DraggedIsSelf(self, events);
  }

  /** A card dropped onto another card: the target's handler never saw the
      dragged card's `dragstart`, so the drop throws where the intended move
      swaps the two cards. */
  lemma DropOnOtherCardThrows()
    ensures DropHandler([10, 20], DraggedAfter(1, [DragEnter, DragOver, Drop]), 1) == TypeError
    ensures Moved([10, 20], 0, 1) == [20, 10]
  {
    var evs := [DragEnter, DragOver, Drop];
    assert evs[..2] == [DragEnter, DragOver] && evs[..2][..1] == [DragEnter];
    assert DraggedAfter(1, evs) == DraggedAfter(1, [DragEnter]) == DraggedAfter(1, []);
  }

  /** With one `draggedElement` shared by all cards, set by the `dragstart` of
      the card at `from`, the same handler performs the intended move. */
  lemma SharedDragMoves<T>(cards: seq<T>, from: nat, target: nat)
    requires from < |cards| && target < |cards|
    ensures DropHandler(cards, Some(from), target) == Reordered(Moved(cards, from, target))
  {
    if from == target {
      MovedFacts(cards, from, target);
    }
  }
}
