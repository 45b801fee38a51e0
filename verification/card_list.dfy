/**
 * The card list of the admin screen: moving a card up, down, to a typed
 * position or by drag and drop, and the renumbering of `display_order` that
 * every move performs.
 */
module CardList {
  import opened Wrappers
  import opened Database
  import opened CardStore
  import Decimal

  /** Where the element now at index `i` stood before moving index `from` to index `to`. */
  function MovedFrom(from: nat, to: nat, i: nat): nat {
    if i == to then from
    else if from < to && from <= i < to then i + 1
    else if to < from && to < i <= from then i - 1
    else i
  }

  /**
   * `arrayMove(s, from, to)`: remove the element at `from`, then insert it at
   * `to`. The moved element lands at `to`, the elements strictly between the two
   * positions shift one place towards `from`, and all others stay put.
   */
  function ArrayMove<T>(s: seq<T>, from: nat, to: nat): (r: seq<T>)
    requires from < |s| && to < |s|
    ensures |r| == |s| && multiset(r) == multiset(s)
    ensures forall i :: 0 <= i < |s| ==> MovedFrom(from, to, i) < |s| && r[i] == s[MovedFrom(from, to, i)]
  {
    var rest := s[..from] + s[from + 1..];
    MovePermutes(s, from, to);
    MovePositions(s, from, to);
    rest[..to] + [s[from]] + rest[to..]
  }

  /** Removing an element and inserting it elsewhere keeps the same elements. */
  lemma MovePermutes<T>(s: seq<T>, from: nat, to: nat)
    requires from < |s| && to < |s|
    ensures var rest := s[..from] + s[from + 1..];
      multiset(rest[..to] + [s[from]] + rest[to..]) == multiset(s)
  {
    var rest := s[..from] + s[from + 1..];
    assert s == s[..from] + [s[from]] + s[from + 1..];
    assert rest == rest[..to] + rest[to..];
    assert multiset(rest) + multiset{s[from]} == multiset(s);
    var r := rest[..to] + [s[from]] + rest[to..];
    assert multiset(r) == multiset(rest[..to]) + multiset{s[from]} + multiset(rest[to..]);
  }

  /** Where each element of the moved list came from. */
  lemma MovePositions<T>(s: seq<T>, from: nat, to: nat)
    requires from < |s| && to < |s|
    ensures var rest := s[..from] + s[from + 1..];
      var r := rest[..to] + [s[from]] + rest[to..];
      |r| == |s| && forall i :: 0 <= i < |s| ==> MovedFrom(from, to, i) < |s| && r[i] == s[MovedFrom(from, to, i)]
  {
    var rest := s[..from] + s[from + 1..];
    var r := rest[..to] + [s[from]] + rest[to..];
    forall i | 0 <= i < |s| ensures MovedFrom(from, to, i) < |s| && r[i] == s[MovedFrom(from, to, i)] {
      if i < to {
        assert r[i] == rest[i];
        if i < from {
          assert rest[i] == s[i];
        } else {
          assert rest[i] == s[i + 1];
        }
      } else if i > to {
        assert r[i] == rest[i - 1];
        if i - 1 < from {
          assert rest[i - 1] == s[i - 1];
        } else {
          assert rest[i - 1] == s[i];
        }
      }
    }
  }

  /** Moving the card back undoes a move: `MovedFrom` is a bijection with inverse `MovedFrom(to, from, _)`. */
  lemma MovedFromInverse(from: nat, to: nat, i: nat)
    ensures MovedFrom(from, to, MovedFrom(to, from, i)) == i
  {
  }

  /** A move undone by the opposite move leaves the list as it was. */
  lemma ArrayMoveUndo<T>(s: seq<T>, from: nat, to: nat)
    requires from < |s| && to < |s|
    ensures ArrayMove(ArrayMove(s, from, to), to, from) == s
  {
    var r := ArrayMove(s, from, to);
    var back := ArrayMove(r, to, from);
    forall i | 0 <= i < |s| ensures back[i] == s[i] {
      MovedFromInverse(from, to, i);
    }
  }

  predicate DistinctIds(cards: seq<Card>) {
    forall i, j :: 0 <= i < j < |cards| ==> cards[i].id != cards[j].id
  }

  /** A move keeps the card ids distinct. */
  lemma ArrayMoveDistinct(cards: seq<Card>, from: nat, to: nat)
    requires from < |cards| && to < |cards|
    requires DistinctIds(cards)
    ensures DistinctIds(ArrayMove(cards, from, to))
  {
    var r := ArrayMove(cards, from, to);
    forall i, j | 0 <= i < j < |r| ensures r[i].id != r[j].id {
      MovedFromInverse(to, from, i);
      MovedFromInverse(to, from, j);
      var a, b := MovedFrom(from, to, i), MovedFrom(from, to, j);
      assert a != b;
      if a < b {
        assert cards[a].id != cards[b].id;
      } else {
        assert cards[b].id != cards[a].id;
      }
    }
  }

  /** A requested move from index `from` to index `to`. */
  datatype Move = Move(from: nat, to: nat)

  predicate ValidMove(m: Move, count: nat) {
    m.from < count && m.to < count && m.from != m.to
  }

  /** `handleMoveUp(cardIndex)`: only a card below the first moves. */
  function MoveUpTarget(cardIndex: nat, count: nat): (r: Option<Move>)
    requires cardIndex < count
    ensures r.None? <==> cardIndex == 0
    ensures r.Some? ==> ValidMove(r.value, count) && r.value.from == cardIndex && r.value.to + 1 == cardIndex
  {
    if cardIndex > 0 then Some(Move(cardIndex, cardIndex - 1)) else None
  }

  /** `handleMoveDown(cardIndex)`: only a card above the last moves. */
  function MoveDownTarget(cardIndex: nat, count: nat): (r: Option<Move>)
    requires cardIndex < count
    ensures r.None? <==> cardIndex == count - 1
    ensures r.Some? ==> ValidMove(r.value, count) && r.value.from == cardIndex && r.value.to == cardIndex + 1
  {
    if cardIndex < count - 1 then Some(Move(cardIndex, cardIndex + 1)) else None
  }

  /** `handleOrderChange(cardIndex, newOrder)`: a target outside the list or equal to the current index is ignored. */
  function OrderChangeTarget(cardIndex: nat, newOrder: int, count: nat): (r: Option<Move>)
    requires cardIndex < count
    ensures r.Some? <==> 0 <= newOrder < count && newOrder != cardIndex
    ensures r.Some? ==> ValidMove(r.value, count) && r.value == Move(cardIndex, newOrder)
  {
    if 0 <= newOrder < count && newOrder != cardIndex then Some(Move(cardIndex, newOrder)) else None
  }

  /** `cards.findIndex(card => card.id === id)` */
  function IndexOf(cards: seq<Card>, id: CardId): (k: int)
    ensures k == -1 <==> forall i :: 0 <= i < |cards| ==> cards[i].id != id
    ensures k != -1 ==> 0 <= k < |cards| && cards[k].id == id && forall i :: 0 <= i < k ==> cards[i].id != id
    decreases |cards|
  {
    if cards == [] then -1
    else if cards[0].id == id then 0
    else
      var k := IndexOf(cards[1..], id);
      assert forall i :: 1 <= i < |cards| ==> cards[i] == cards[1..][i - 1];
      if k == -1 then -1 else k + 1
  }

  /**
   * `handleDragEnd`: the dragged card `active` dropped over `over`. Both are
   * items of the sortable list, which holds exactly the cards.
   */
  function DragTarget(cards: seq<Card>, active: CardId, over: Option<CardId>): (r: Option<Move>)
    requires exists i :: 0 <= i < |cards| && cards[i].id == active
    requires over.Some? ==> exists i :: 0 <= i < |cards| && cards[i].id == over.value
    ensures r.None? <==> over.None? || over.value == active
    ensures r.Some? ==>
      r.value.from < |cards| && r.value.to < |cards| &&
      cards[r.value.from].id == active && cards[r.value.to].id == over.value
  {
    if over.None? || active == over.value then None
    else Some(Move(IndexOf(cards, active), IndexOf(cards, over.value)))
  }

  /** With distinct ids a drag onto another card is a valid move. */
  lemma DragTargetValid(cards: seq<Card>, active: CardId, over: CardId)
    requires exists i :: 0 <= i < |cards| && cards[i].id == active
    requires exists i :: 0 <= i < |cards| && cards[i].id == over
    requires DistinctIds(cards) && active != over
    ensures DragTarget(cards, active, Some(over)).Some?
    ensures ValidMove(DragTarget(cards, active, Some(over)).value, |cards|)
  {
  }

  /** What the order box of a card does when submitted. */
  datatype OrderSubmit = ChangeOrder(newOrder: nat) | ResetInput(text: string)

  /**
   * `SortableCardItem.handleOrderSubmit`: the box shows a 1-based position; a
   * parsed value `n` with `n - 1` inside the list and different from the
   * current index requests that move, anything else puts back the current
   * position.
   */
  function OrderSubmitted(orderInput: string, current: nat, total: nat): (r: OrderSubmit)
    ensures r.ChangeOrder? <==> (var n := Decimal.ParseInt(orderInput);
      n.Some? && 0 <= n.value - 1 < total && n.value - 1 != current)
    ensures r.ChangeOrder? ==> Decimal.ParseInt(orderInput) == Some(r.newOrder + 1)
    ensures r.ResetInput? ==> r.text == Decimal.NatToString(current + 1)
  {
    var n := Decimal.ParseInt(orderInput);
    if n.Some? && n.value - 1 >= 0 && n.value - 1 < total && n.value - 1 != current then
      ChangeOrder(n.value - 1)
    else ResetInput(Decimal.NatToString(current + 1))
  }

  /** The box starts out showing the card's own position; submitting it unchanged changes nothing. */
  lemma UntouchedOrderInputResets(current: nat, total: nat)
    ensures OrderSubmitted(Decimal.NatToString(current + 1), current, total)
         == ResetInput(Decimal.NatToString(current + 1))
  {
    Decimal.ParseNatToString(current + 1);
  }

  /** A change accepted by the box always passes `handleOrderChange`'s guard, so it moves the card. */
  lemma SubmittedOrderMoves(orderInput: string, current: nat, total: nat)
    requires current < total
    requires OrderSubmitted(orderInput, current, total).ChangeOrder?
    ensures OrderChangeTarget(current, OrderSubmitted(orderInput, current, total).newOrder, total)
         == Some(Move(current, OrderSubmitted(orderInput, current, total).newOrder))
  {
  }

  /** One row write of a renumbering. */
  datatype OrderUpdate = OrderUpdate(id: CardId, display_order: int)

  /** `newCards.map((card, index) => ({ id: card.id, display_order: index }))` */
  function Updates(newCards: seq<Card>): (r: seq<OrderUpdate>)
    ensures |r| == |newCards|
    ensures forall i :: 0 <= i < |r| ==> r[i].id == newCards[i].id && r[i].display_order == i
    ensures (forall i, j :: 0 <= i < j < |newCards| ==> newCards[i].id != newCards[j].id) ==> DistinctUpdateIds(r)
  {
    seq(|newCards|, i requires 0 <= i < |newCards| => OrderUpdate(newCards[i].id, i))
  }

  /** The writes a move plans: the moved list, renumbered by position. */
  function Plan(cards: seq<Card>, m: Move): (r: seq<OrderUpdate>)
    requires m.from < |cards| && m.to < |cards|
    ensures |r| == |cards|
    ensures r[m.to] == OrderUpdate(cards[m.from].id, m.to)
    ensures forall i :: 0 <= i < |r| ==> r[i] == OrderUpdate(cards[MovedFrom(m.from, m.to, i)].id, i)
  {
    Updates(ArrayMove(cards, m.from, m.to))
  }

  /** The number of writes issued before an exception at write `throwAt`, if any. */
  function Issued(planned: nat, throwAt: Option<nat>): (n: nat)
    ensures n <= planned
  {
    if throwAt.Some? && throwAt.value < planned then throwAt.value else planned
  }

  /** The table after the writes `ups`, issued in order; writes to ids in `refused` fail and change nothing. */
  function ApplyWrites(rows: seq<Card>, ups: seq<OrderUpdate>, refused: set<CardId>): (r: seq<Card>)
    ensures |r| == |rows|
    decreases |ups|
  {
    if ups == [] then rows
    else
      var last := ups[|ups| - 1];
      var before := ApplyWrites(rows, ups[..|ups| - 1], refused);
      if last.id in refused then before else WriteOrder(before, last.id, last.display_order)
  }

  /** Issuing one more write of the plan applies it to the table the earlier writes left. */
  lemma ApplyWritesNext(rows: seq<Card>, ups: seq<OrderUpdate>, i: nat, refused: set<CardId>)
    requires i < |ups|
    ensures ApplyWrites(rows, ups[..i + 1], refused) ==
      var before := ApplyWrites(rows, ups[..i], refused);
      if ups[i].id in refused then before else WriteOrder(before, ups[i].id, ups[i].display_order)
  {
    assert ups[..i + 1][..i] == ups[..i];
  }

  predicate DistinctUpdateIds(ups: seq<OrderUpdate>) {
    forall i, j :: 0 <= i < j < |ups| ==> ups[i].id != ups[j].id
  }

  /** Some write of `ups` names `id`. */
  predicate Targets(ups: seq<OrderUpdate>, id: CardId) {
    exists i :: 0 <= i < |ups| && ups[i].id == id
  }

  /**
   * What a sequence of writes to distinct ids does to each row: a row whose id
   * is written, and not refused, takes that write's order and keeps every
   * other column; every other row is unchanged.
   */
  lemma {:induction false} ApplyWritesEffect(rows: seq<Card>, ups: seq<OrderUpdate>, refused: set<CardId>)
    requires DistinctUpdateIds(ups)
    ensures forall j, i :: 0 <= j < |rows| && 0 <= i < |ups| && rows[j].id == ups[i].id && ups[i].id !in refused ==>
      ApplyWrites(rows, ups, refused)[j] == rows[j].(display_order := ups[i].display_order)
    ensures forall j :: 0 <= j < |rows| && (rows[j].id in refused || !Targets(ups, rows[j].id)) ==>
      ApplyWrites(rows, ups, refused)[j] == rows[j]
    decreases |ups|
  {
    if ups != [] {
      var n := |ups| - 1;
      var init := ups[..n];
      ApplyWritesEffect(rows, init, refused);
      forall j, i | 0 <= j < |rows| && 0 <= i < n && rows[j].id == ups[i].id
        ensures rows[j].id == init[i].id && Targets(init, rows[j].id)
      {
      }
    }
  }

  /** `id` is the id of a card of the list. */
  predicate Listed(cards: seq<Card>, id: CardId) {
    exists i :: 0 <= i < |cards| && cards[i].id == id
  }

  /**
   * The first `k` writes of a move, with the writes to `refused` ids failing:
   * a row of one of the first `k` cards of the moved list takes that card's
   * new index unless its write failed, and every other row (later cards, cards
   * of other pages) is unchanged.
   */
  lemma ReorderWrites(rows: seq<Card>, cards: seq<Card>, m: Move, k: nat, refused: set<CardId>)
    requires m.from < |cards| && m.to < |cards| && DistinctIds(cards) && k <= |cards|
    ensures var newCards := ArrayMove(cards, m.from, m.to);
      var after := ApplyWrites(rows, Plan(cards, m)[..k], refused);
      && (forall j, i :: 0 <= j < |rows| && 0 <= i < k && rows[j].id == newCards[i].id && rows[j].id !in refused ==>
            after[j] == rows[j].(display_order := i))
      && (forall j, i :: 0 <= j < |rows| && k <= i < |newCards| && rows[j].id == newCards[i].id ==>
            after[j] == rows[j])
      && (forall j :: 0 <= j < |rows| && (rows[j].id in refused || !Listed(cards, rows[j].id)) ==>
            after[j] == rows[j])
  {
    var newCards := ArrayMove(cards, m.from, m.to);
    ArrayMoveDistinct(cards, m.from, m.to);
    var ups := Plan(cards, m)[..k];
    ApplyWritesEffect(rows, ups, refused);
    forall j, i | 0 <= j < |rows| && 0 <= i < k && rows[j].id == newCards[i].id && rows[j].id !in refused
      ensures ApplyWrites(rows, ups, refused)[j] == rows[j].(display_order := i)
    {
      assert ups[i] == OrderUpdate(newCards[i].id, i);
    }
    forall j, i | 0 <= j < |rows| && k <= i < |newCards| && rows[j].id == newCards[i].id
      ensures !Targets(ups, rows[j].id)
    {
      forall i' | 0 <= i' < k ensures ups[i'].id != rows[j].id {
        assert ups[i'].id == newCards[i'].id;
      }
    }
    forall j | 0 <= j < |rows| && !Listed(cards, rows[j].id) ensures !Targets(ups, rows[j].id) {
      forall i | 0 <= i < k ensures ups[i].id != rows[j].id {
        assert ups[i].id == cards[MovedFrom(m.from, m.to, i)].id;
      }
    }
  }

  /**
   * A completed move: whatever the stored orders were, gaps and duplicates
   * included, the row of the card at index `i` of the moved list now has
   * `display_order == i`, so the list's orders are exactly 0..N-1 in list order;
   * rows of cards not on the list are untouched.
   */
  lemma ReorderRenumbers(rows: seq<Card>, cards: seq<Card>, m: Move)
    requires m.from < |cards| && m.to < |cards| && DistinctIds(cards)
    ensures var newCards := ArrayMove(cards, m.from, m.to);
      var after := ApplyWrites(rows, Plan(cards, m), {});
      && (forall j, i :: 0 <= j < |rows| && 0 <= i < |newCards| && rows[j].id == newCards[i].id ==>
            after[j] == rows[j].(display_order := i))
      && (forall j :: 0 <= j < |rows| && !Listed(cards, rows[j].id) ==> after[j] == rows[j])
  {
    ReorderWrites(rows, cards, m, |cards|, {});
    assert Plan(cards, m)[..|cards|] == Plan(cards, m);
  }

  /** What the user sees after a reorder. */
  datatype ReorderOutcome =
    | NotMoved          // a guard turned the request away: no write, no refresh
    | Refreshed         // every write was issued, then `onUpdate()` re-read the page
    | Alerted           // a write threw: the alert is shown and the page is not re-read

  /**
   * `updateCardOrder(oldIndex, newIndex)`: every card of the moved list gets
   * its new index as `display_order`, one write per card, in list order. The
   * error each write returns is not looked at; a thrown exception (at write
   * `throwAt`) ends the loop with an alert.
   */
  method UpdateCardOrder(table: CardTable, cards: seq<Card>, oldIndex: nat, newIndex: nat,
                         refused: set<CardId>, throwAt: Option<nat>)
    returns (outcome: ReorderOutcome)
    requires oldIndex < |cards| && newIndex < |cards|
    modifies table
    ensures var plan := Plan(cards, Move(oldIndex, newIndex));
      table.rows == ApplyWrites(old(table.rows), plan[..Issued(|plan|, throwAt)], refused)
    ensures outcome == if Issued(|cards|, throwAt) == |cards| then Refreshed else Alerted
  {
    var newCards := ArrayMove(cards, oldIndex, newIndex);
    var updates := Updates(newCards);
    var completed := IssueWrites(table, updates, refused, throwAt);
    outcome := if completed then Refreshed else Alerted;
  }

  /**
   * The loop of `updateCardOrder`: the writes are issued one by one, in order,
   * until the exception at write `throwAt`, if any.
   */
  method IssueWrites(table: CardTable, updates: seq<OrderUpdate>, refused: set<CardId>, throwAt: Option<nat>)
    returns (completed: bool)
    modifies table
    ensures table.rows == ApplyWrites(old(table.rows), updates[..Issued(|updates|, throwAt)], refused)
    ensures completed <==> Issued(|updates|, throwAt) == |updates|
  {
    ghost var before := table.rows;
    var i := 0;
    while i < |updates|
      invariant 0 <= i <= |updates|
      invariant throwAt.Some? ==> i <= throwAt.value
      invariant table.rows == ApplyWrites(before, updates[..i], refused)
    {
      if throwAt == Some(i) {
        assert Issued(|updates|, throwAt) == i;
        return false;
      }
      var _ := table.UpdateOrder(updates[i].id, updates[i].display_order, updates[i].id in refused);
      ApplyWritesNext(before, updates, i, refused);
      i := i + 1;
    }
    assert updates[..i] == updates;
    completed := true;
  }

  /** The handlers: a move the guard accepts is performed, anything else changes nothing. */
  method PerformMove(table: CardTable, cards: seq<Card>, m: Option<Move>,
                     refused: set<CardId>, throwAt: Option<nat>)
    returns (outcome: ReorderOutcome)
    requires m.Some? ==> m.value.from < |cards| && m.value.to < |cards|
    modifies table
    ensures m.None? ==> outcome == NotMoved && table.rows == old(table.rows)
    ensures m.Some? ==> var plan := Plan(cards, m.value);
      table.rows == ApplyWrites(old(table.rows), plan[..Issued(|plan|, throwAt)], refused)
      && outcome == if Issued(|cards|, throwAt) == |cards| then Refreshed else Alerted
  {
    if m.None? {
      return NotMoved;
    }
    outcome := UpdateCardOrder(table, cards, m.value.from, m.value.to, refused, throwAt);
  }

  /** `handleMoveUp`: the first card does not move. */
  method HandleMoveUp(table: CardTable, cards: seq<Card>, cardIndex: nat,
                      refused: set<CardId>, throwAt: Option<nat>)
    returns (outcome: ReorderOutcome)
    requires cardIndex < |cards|
    modifies table
    ensures cardIndex == 0 ==> outcome == NotMoved && table.rows == old(table.rows)
    ensures cardIndex > 0 ==> var plan := Plan(cards, Move(cardIndex, cardIndex - 1));
      table.rows == ApplyWrites(old(table.rows), plan[..Issued(|plan|, throwAt)], refused)
      && outcome == if Issued(|cards|, throwAt) == |cards| then Refreshed else Alerted
  {
    outcome := PerformMove(table, cards, MoveUpTarget(cardIndex, |cards|), refused, throwAt);
  }

  /** `handleMoveDown`: the last card does not move. */
  method HandleMoveDown(table: CardTable, cards: seq<Card>, cardIndex: nat,
                        refused: set<CardId>, throwAt: Option<nat>)
    returns (outcome: ReorderOutcome)
    requires cardIndex < |cards|
    modifies table
    ensures cardIndex == |cards| - 1 ==> outcome == NotMoved && table.rows == old(table.rows)
    ensures cardIndex < |cards| - 1 ==> var plan := Plan(cards, Move(cardIndex, cardIndex + 1));
      table.rows == ApplyWrites(old(table.rows), plan[..Issued(|plan|, throwAt)], refused)
      && outcome == if Issued(|cards|, throwAt) == |cards| then Refreshed else Alerted
  {
    outcome := PerformMove(table, cards, MoveDownTarget(cardIndex, |cards|), refused, throwAt);
  }

  /** `handleOrderChange`: a target outside the list, or the card's own index, changes nothing. */
  method HandleOrderChange(table: CardTable, cards: seq<Card>, cardIndex: nat, newOrder: int,
                           refused: set<CardId>, throwAt: Option<nat>)
    returns (outcome: ReorderOutcome)
    requires cardIndex < |cards|
    modifies table
    ensures !(0 <= newOrder < |cards|) || newOrder == cardIndex ==>
      outcome == NotMoved && table.rows == old(table.rows)
    ensures 0 <= newOrder < |cards| && newOrder != cardIndex ==> var plan := Plan(cards, Move(cardIndex, newOrder));
      table.rows == ApplyWrites(old(table.rows), plan[..Issued(|plan|, throwAt)], refused)
      && outcome == if Issued(|cards|, throwAt) == |cards| then Refreshed else Alerted
  {
    outcome := PerformMove(table, cards, OrderChangeTarget(cardIndex, newOrder, |cards|), refused, throwAt);
  }

  /** `handleDragEnd`: a drop on nothing or on the dragged card itself changes nothing. */
  method HandleDragEnd(table: CardTable, cards: seq<Card>, active: CardId, over: Option<CardId>,
                       refused: set<CardId>, throwAt: Option<nat>)
    returns (outcome: ReorderOutcome)
    requires exists i :: 0 <= i < |cards| && cards[i].id == active
    requires over.Some? ==> exists i :: 0 <= i < |cards| && cards[i].id == over.value
    modifies table
    ensures over.None? || over.value == active ==> outcome == NotMoved && table.rows == old(table.rows)
    ensures over.Some? && over.value != active ==>
      var plan := Plan(cards, Move(IndexOf(cards, active), IndexOf(cards, over.value)));
      table.rows == ApplyWrites(old(table.rows), plan[..Issued(|plan|, throwAt)], refused)
      && outcome == if Issued(|cards|, throwAt) == |cards| then Refreshed else Alerted
  {
    outcome := PerformMove(table, cards, DragTarget(cards, active, over), refused, throwAt);
  }
}
