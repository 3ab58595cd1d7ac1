/** Card lifecycle within a column: listing, append at the end with a fixed gap,
    update with a move to a slot of any column (bisection between the neighbours),
    archive and unarchive, and permanent delete with a unit compaction of the cards
    above. Every call is gated by membership of the board that owns the column,
    failing 404. */
module CardService {
  import opened Results
  import opened TaskModel
  import Ordering

  /** The spacing of appended positions and the position of the first card. */
  const POSITION_GAP: real := 65536.0

  /** The payload of a create request. */
  datatype CardCreate = CardCreate(title: string, description: Option<string>, columnId: Id)

  /** The payload of an update request. `position` is accepted but never read. */
  datatype CardUpdate = CardUpdate(
    title: Option<string>,
    description: Option<string>,
    newIndex: Option<int>,
    columnId: Option<Id>,
    position: Option<real>)

  /** The join column -> board -> membership finds a row for `u`. */
  predicate CanReachColumn(s: Store, col: Id, u: Id)
  {
    col in s.columns && s.columns[col].boardId in s.boards && IsMember(s, s.columns[col].boardId, u)
  }

  /** Membership gate of every card operation; an unknown column and a missing
      membership are reported alike. */
  function CheckColumnBoardMember(s: Store, col: Id, u: Id): (r: Option<Error>)
    ensures r == None <==> CanReachColumn(s, col, u)
    ensures r != None ==> r == Some(NotFound)
  {
    if CanReachColumn(s, col, u) then None else Some(NotFound)
  }

  /** Listing key: ascending position. */
  function ByPosition(cards: map<Id, Card>): int -> real
  {
    k => if k in cards then cards[k].position else 0.0
  }

  /** The unarchived cards of column `col`. */
  function VisibleCardsOf(cards: map<Id, Card>, col: Id): (ids: set<Id>)
    ensures forall k :: k in ids <==> k in cards && cards[k].columnId == col && !cards[k].isArchived
  {
    set k | k in cards && cards[k].columnId == col && !cards[k].isArchived
  }

  /** The unarchived cards of a column by ascending position for a member of its
      board; an empty list, not an error, for anyone else. */
  function GetCardsInColumn(s: Store, u: Id, col: Id): (r: seq<Id>)
    ensures !CanReachColumn(s, col, u) ==> r == []
    ensures CanReachColumn(s, col, u) ==> forall k :: k in r <==> k in VisibleCardsOf(s.cards, col)
    ensures forall i :: 0 <= i < |r| ==>
      r[i] in s.cards && s.cards[r[i]].columnId == col && !s.cards[r[i]].isArchived
    ensures forall i, j :: 0 <= i < j < |r| ==>
      r[i] != r[j] && s.cards[r[i]].position <= s.cards[r[j]].position
  {
    if !CanReachColumn(s, col, u) then []
    else
      var r := Ordering.OrderBy(VisibleCardsOf(s.cards, col), ByPosition(s.cards));
      assert forall i, j :: 0 <= i < j < |r| ==> Ordering.Precedes(ByPosition(s.cards), r[i], r[j]);
      r
  }

  /** The positions held by the cards of column `col`, archived ones included. */
  function PositionsIn(cards: map<Id, Card>, col: Id): (ps: set<real>)
    ensures forall k :: k in CardsOf(cards, col) ==> cards[k].position in ps
    ensures forall p :: p in ps ==> exists k :: k in CardsOf(cards, col) && cards[k].position == p
  {
    set k | k in CardsOf(cards, col) :: cards[k].position
  }

  /** The position a new card of column `col` gets: one gap above the highest, or one
      gap when the column is empty. */
  function AppendPosition(cards: map<Id, Card>, col: Id): (p: real)
    ensures CardsOf(cards, col) == {} ==> p == POSITION_GAP
    ensures CardsOf(cards, col) != {} ==>
      && (forall k :: k in CardsOf(cards, col) ==> cards[k].position <= p - POSITION_GAP)
      && (exists k :: k in CardsOf(cards, col) && cards[k].position == p - POSITION_GAP)
  {
    var ps := PositionsIn(cards, col);
    if ps == {} then
      assert forall k :: k !in CardsOf(cards, col);
      POSITION_GAP
    else
      Ordering.MaxReal(ps) + POSITION_GAP
  }

  /** Appends an unarchived card to an existing column the caller can reach. */
  function CreateCard(s: Store, data: CardCreate, u: Id): (r: Result<(Store, Id)>)
    ensures r.Fail? <==> !CanReachColumn(s, data.columnId, u)
    ensures r.Fail? ==> r.error == NotFound
    ensures r.Ok? ==>
      var (s', k) := r.value;
      && s'.cards.Keys == s.cards.Keys + {k}
      && s'.cards[k] == Card(data.title, data.description, AppendPosition(s.cards, data.columnId), false, data.columnId)
      && (forall j :: j in s.cards && j != k ==> s'.cards[j] == s.cards[j])
      && s'.boards == s.boards && s'.members == s.members && s'.columns == s.columns
      && s'.labels == s.labels && s'.assignments == s.assignments
      && s'.cardLabels == s.cardLabels
  {
    if data.columnId !in s.columns then Fail(NotFound)
    else if CheckColumnBoardMember(s, data.columnId, u).Some? then Fail(NotFound)
    else
      var k := s.nextCardId;
      var card := Card(data.title, data.description, AppendPosition(s.cards, data.columnId), false, data.columnId);
      Ok((s.(cards := s.cards[k := card], nextCardId := k + 1), k))
  }

  /** A new card lies strictly above every other card of its column and is listed last. */
  lemma CreateCardListedLast(s: Store, data: CardCreate, u: Id)
    requires CreateCard(s, data, u).Ok?
    ensures var (s', k) := CreateCard(s, data, u).value;
      && (forall j :: j in CardsOf(s'.cards, data.columnId) && j != k ==> s'.cards[j].position < s'.cards[k].position)
      && var listed := GetCardsInColumn(s', u, data.columnId);
      && |listed| > 0 && listed[|listed| - 1] == k
  {
    var (s', k) := CreateCard(s, data, u).value;
    var col := data.columnId;
    var p := s'.cards[k].position;
    forall j | j in CardsOf(s'.cards, col) && j != k
      ensures s'.cards[j].position < p
    {
      assert j in CardsOf(s.cards, col);
    }
    assert CanReachColumn(s', col, u);
    HighestIsListedLast(s', u, col, k);
  }

  /** An unarchived card strictly above every other card of its column comes last in
      the column's listing. */
  lemma HighestIsListedLast(s: Store, u: Id, col: Id, k: Id)
    requires CanReachColumn(s, col, u)
    requires k in s.cards && s.cards[k].columnId == col && !s.cards[k].isArchived
    requires forall j :: j in CardsOf(s.cards, col) && j != k ==> s.cards[j].position < s.cards[k].position
    ensures var listed := GetCardsInColumn(s, u, col);
      |listed| > 0 && listed[|listed| - 1] == k
  {
    var listed := GetCardsInColumn(s, u, col);
    assert k in VisibleCardsOf(s.cards, col);
    var last := |listed| - 1;
    var i :| 0 <= i < |listed| && listed[i] == k;
    var m := listed[last];
    assert m in CardsOf(s.cards, col);
  }

  /** On a consistent store a new card takes a fresh id and the store stays consistent. */
  lemma CreateCardPreservesValid(s: Store, data: CardCreate, u: Id)
    requires Valid(s)
    requires CreateCard(s, data, u).Ok?
    ensures var (s', k) := CreateCard(s, data, u).value;
      k !in s.cards && Valid(s')
  {
  }

  // Move allocation

  /** `xs` ascends strictly. */
  predicate StrictlyIncreasing(xs: seq<real>)
  {
    forall i, j :: 0 <= i < j < |xs| ==> xs[i] < xs[j]
  }

  /** Python's `xs[i]`: a negative index counts from the end. */
  function PyIndex(xs: seq<real>, i: int): real
    requires -|xs| <= i < |xs|
  {
    if i >= 0 then xs[i] else xs[|xs| + i]
  }

  /** The position for a card moved to slot `i` of a column whose other cards hold the
      ascending positions `sibs`: one gap when there are none, half the first at
      slot 0, one gap past the last at or beyond the end, else the midpoint of the
      two neighbours of the slot. An index so negative that Python's indexing fails
      raises an uncaught error. */
  function AllocateAtIndex(sibs: seq<real>, i: int): (r: Result<real>)
    ensures r.Fail? <==> |sibs| > 0 && i < 1 - |sibs|
    ensures r.Fail? ==> r.error == ServerError
    ensures |sibs| == 0 ==> r == Ok(POSITION_GAP)
    ensures |sibs| > 0 && i == 0 ==> r == Ok(sibs[0] / 2.0)
    ensures |sibs| > 0 && i >= |sibs| ==> r == Ok(sibs[|sibs| - 1] + POSITION_GAP)
    ensures 0 < i < |sibs| ==> r == Ok((sibs[i - 1] + sibs[i]) / 2.0)
  {
    if |sibs| == 0 then Ok(POSITION_GAP)
    else if i == 0 then Ok(sibs[0] / 2.0)
    else if i >= |sibs| then Ok(sibs[|sibs| - 1] + POSITION_GAP)
    else if i < 1 - |sibs| then Fail(ServerError)
    else Ok((PyIndex(sibs, i - 1) + PyIndex(sibs, i)) / 2.0)
  }

  /** A negative slot that does not fail counts from the end, as Python indexing does. */
  lemma NegativeIndexCountsFromEnd(sibs: seq<real>, i: int)
    requires 1 - |sibs| <= i < 0
    ensures AllocateAtIndex(sibs, i) == AllocateAtIndex(sibs, |sibs| + i)
  {
  }

  /** Over strictly ascending positive siblings, a card sent to slot `i >= 0` gets a
      position strictly between its requested neighbours, so it lands at rank
      min(i, number of siblings). */
  lemma AllocationLandsAtRank(sibs: seq<real>, i: int)
    requires StrictlyIncreasing(sibs)
    requires |sibs| > 0 ==> sibs[0] > 0.0
    requires i >= 0
    ensures AllocateAtIndex(sibs, i).Ok?
    ensures var p := AllocateAtIndex(sibs, i).value;
      var k := if i < |sibs| then i else |sibs|;
      && (forall j :: 0 <= j < k ==> sibs[j] < p)
      && (forall j :: k <= j < |sibs| ==> p < sibs[j])
  {
    var p := AllocateAtIndex(sibs, i).value;
    if 0 < i < |sibs| {
      assert sibs[i - 1] < p < sibs[i];
      forall j | 0 <= j < i
        ensures sibs[j] < p
      {
        if j < i - 1 {
          assert sibs[j] < sibs[i - 1];
        }
      }
      forall j | i <= j < |sibs|
        ensures p < sibs[j]
      {
        if j > i {
          assert sibs[i] < sibs[j];
        }
      }
    } else if |sibs| > 0 && i == 0 {
      forall j | 0 <= j < |sibs|
        ensures p < sibs[j]
      {
        if j > 0 {
          assert sibs[0] < sibs[j];
        }
      }
    } else if |sibs| > 0 {
      forall j | 0 <= j < |sibs|
        ensures sibs[j] < p
      {
        if j < |sibs| - 1 {
          assert sibs[j] < sibs[|sibs| - 1];
        }
      }
    }
  }

  /** The positions of the listed cards, in order. */
  function PositionsOf(cards: map<Id, Card>, ids: seq<Id>): (ps: seq<real>)
    requires forall i :: 0 <= i < |ids| ==> ids[i] in cards
    ensures |ps| == |ids|
    ensures forall i :: 0 <= i < |ids| ==> ps[i] == cards[ids[i]].position
  {
    if ids == [] then [] else [cards[ids[0]].position] + PositionsOf(cards, ids[1..])
  }

  /** The other cards of column `col`, archived ones included, by ascending position. */
  function SiblingsOf(cards: map<Id, Card>, col: Id, self: Id): (r: seq<Id>)
    ensures forall k :: k in r <==> k in cards && cards[k].columnId == col && k != self
    ensures forall i :: 0 <= i < |r| ==> r[i] in cards
    ensures Ordering.OrderedBy(r, ByPosition(cards))
  {
    Ordering.OrderBy(CardsOf(cards, col) - {self}, ByPosition(cards))
  }

  /** The column a card ends up in: the requested one, else its own. */
  function TargetColumn(card: Card, upd: CardUpdate): Id
  {
    if upd.columnId.Some? then upd.columnId.value else card.columnId
  }

  /** An update moves the card when it names a slot, or names a column other than the
      card's own; a column id of 0 is falsy in Python and names nothing. */
  predicate IsMove(card: Card, upd: CardUpdate)
  {
    upd.newIndex.Some? || (upd.columnId.Some? && upd.columnId.value != 0 && upd.columnId.value != card.columnId)
  }

  /** The slot a move asks for: the given index, else the front. */
  function TargetIndex(upd: CardUpdate): int
  {
    if upd.newIndex.Some? then upd.newIndex.value else 0
  }

  /** The position a move of card `id` to its target slot allocates. */
  function MovePosition(s: Store, id: Id, upd: CardUpdate): Result<real>
    requires id in s.cards
  {
    var target := TargetColumn(s.cards[id], upd);
    AllocateAtIndex(PositionsOf(s.cards, SiblingsOf(s.cards, target, id)), TargetIndex(upd))
  }

  /** Edits title and description where given and, on a move, puts the card in its
      target column at the allocated position. Authorization is checked against the
      target column only. */
  function UpdateCard(s: Store, id: Id, upd: CardUpdate, u: Id): (r: Result<Store>)
    ensures id !in s.cards ==> r == Fail(NotFound)
    ensures id in s.cards && !CanReachColumn(s, TargetColumn(s.cards[id], upd), u) ==> r == Fail(NotFound)
    ensures r.Ok? <==>
      && id in s.cards
      && CanReachColumn(s, TargetColumn(s.cards[id], upd), u)
      && (IsMove(s.cards[id], upd) ==> MovePosition(s, id, upd).Ok?)
    ensures r.Fail? && id in s.cards && CanReachColumn(s, TargetColumn(s.cards[id], upd), u) ==>
      r.error == ServerError
    ensures r.Ok? ==> id in s.cards && r.value.cards.Keys == s.cards.Keys
    ensures r.Ok? ==>
      var s' := r.value;
      var card := s.cards[id];
      var card' := s'.cards[id];
      && (forall k :: k in s.cards && k != id ==> s'.cards[k] == s.cards[k])
      && card'.title == (if upd.title.Some? then upd.title.value else card.title)
      && card'.description == (if upd.description.Some? then upd.description else card.description)
      && card'.isArchived == card.isArchived
      && (IsMove(card, upd) ==>
            card'.columnId == TargetColumn(card, upd) && card'.position == MovePosition(s, id, upd).value)
      && (!IsMove(card, upd) ==> card'.columnId == card.columnId && card'.position == card.position)
      && s'.boards == s.boards && s'.members == s.members && s'.columns == s.columns
      && s'.labels == s.labels && s'.assignments == s.assignments
      && s'.cardLabels == s.cardLabels
  {
    if id !in s.cards then Fail(NotFound)
    else
      var card := s.cards[id];
      var target := TargetColumn(card, upd);
      if CheckColumnBoardMember(s, target, u).Some? then Fail(NotFound)
      else
        var edited := card.(
          title := if upd.title.Some? then upd.title.value else card.title,
          description := if upd.description.Some? then upd.description else card.description);
        if IsMove(card, upd) then
          var alloc := MovePosition(s, id, upd);
          if alloc.Fail? then Fail(alloc.error)
          else Ok(s.(cards := s.cards[id := edited.(columnId := target, position := alloc.value)]))
        else
          Ok(s.(cards := s.cards[id := edited]))
  }

  /** The payload's `position` field has no effect. */
  lemma PositionFieldIgnored(s: Store, id: Id, upd: CardUpdate, u: Id, q: Option<real>)
    ensures UpdateCard(s, id, upd, u) == UpdateCard(s, id, upd.(position := q), u)
  {
    var upd' := upd.(position := q);
    assert upd' == CardUpdate(upd.title, upd.description, upd.newIndex, upd.columnId, q);
    if id in s.cards {
      var card := s.cards[id];
      assert TargetColumn(card, upd) == TargetColumn(card, upd');
      assert IsMove(card, upd) == IsMove(card, upd');
      assert TargetIndex(upd) == TargetIndex(upd');
    }
  }

  /** Membership of the destination board is all a move needs: a member of the
      destination who is not a member of the card's own board can still move it. */
  lemma MoveAuthorizedByDestinationOnly(s: Store, id: Id, upd: CardUpdate, u: Id)
    requires id in s.cards && upd.columnId.Some? && upd.columnId.value != 0
    requires upd.newIndex.None?
    requires CanReachColumn(s, upd.columnId.value, u)
    ensures UpdateCard(s, id, upd, u).Ok?
    ensures UpdateCard(s, id, upd, u).value.cards[id].columnId == upd.columnId.value
  {
  }

  /** The cards of column `col` other than `self` hold distinct positive positions. */
  predicate DistinctPositiveOthers(cards: map<Id, Card>, col: Id, self: Id)
  {
    forall a, b :: a in CardsOf(cards, col) && b in CardsOf(cards, col) && a != self && b != self ==>
      cards[a].position > 0.0 && (a != b ==> cards[a].position != cards[b].position)
  }

  /** When the other cards of a column hold distinct positive positions, their
      positions in listing order ascend strictly from above zero. */
  lemma SiblingsAscend(cards: map<Id, Card>, col: Id, self: Id)
    requires DistinctPositiveOthers(cards, col, self)
    ensures var ps := PositionsOf(cards, SiblingsOf(cards, col, self));
      StrictlyIncreasing(ps) && (|ps| > 0 ==> ps[0] > 0.0)
  {
    var sibs := SiblingsOf(cards, col, self);
    var ps := PositionsOf(cards, sibs);
    forall i, j | 0 <= i < j < |ps|
      ensures ps[i] < ps[j]
    {
      assert Ordering.Precedes(ByPosition(cards), sibs[i], sibs[j]);
      assert sibs[i] in CardsOf(cards, col) && sibs[j] in CardsOf(cards, col);
    }
    if |ps| > 0 {
      assert sibs[0] in CardsOf(cards, col);
    }
  }

  /** Card `id` lies above the first `k` cards of `sibs` and below the rest. */
  predicate AtRank(cards: map<Id, Card>, sibs: seq<Id>, id: Id, k: int)
  {
    && id in cards
    && (forall j :: 0 <= j < |sibs| ==> sibs[j] in cards)
    && (forall j :: 0 <= j < k && j < |sibs| ==> cards[sibs[j]].position < cards[id].position)
    && (forall j :: k <= j < |sibs| && 0 <= j ==> cards[id].position < cards[sibs[j]].position)
  }

  /** A card moved to slot `i >= 0` of a column whose other cards hold distinct positive
      positions lands at rank min(i, n): the first min(i, n) other cards, in listing
      order, lie below it and the rest above it. A move to another column without a
      slot goes to slot 0. */
  lemma MoveLandsAtRank(s: Store, id: Id, upd: CardUpdate, u: Id)
    requires id in s.cards && CanReachColumn(s, TargetColumn(s.cards[id], upd), u)
    requires IsMove(s.cards[id], upd) && TargetIndex(upd) >= 0
    requires DistinctPositiveOthers(s.cards, TargetColumn(s.cards[id], upd), id)
    ensures UpdateCard(s, id, upd, u).Ok?
    ensures var s' := UpdateCard(s, id, upd, u).value;
      var sibs := SiblingsOf(s.cards, TargetColumn(s.cards[id], upd), id);
      var i := TargetIndex(upd);
      && s'.cards[id].columnId == TargetColumn(s.cards[id], upd)
      && AtRank(s'.cards, sibs, id, if i < |sibs| then i else |sibs|)
  {
    MovePlacement(s, id, upd, u);
    var s' := UpdateCard(s, id, upd, u).value;
    PlacedAtRank(s.cards, s'.cards, TargetColumn(s.cards[id], upd), id, TargetIndex(upd));
  }

  /** The map-level core of `MoveLandsAtRank`: card `id` placed at the position
      allocated for slot `i` among its siblings, with every other card unchanged. */
  lemma PlacedAtRank(cards: map<Id, Card>, cards': map<Id, Card>, target: Id, id: Id, i: int)
    requires i >= 0
    requires DistinctPositiveOthers(cards, target, id)
    requires id in cards'
    requires forall k :: k in cards && k != id ==> k in cards' && cards'[k] == cards[k]
    requires AllocateAtIndex(PositionsOf(cards, SiblingsOf(cards, target, id)), i).Ok?
    requires cards'[id].position == AllocateAtIndex(PositionsOf(cards, SiblingsOf(cards, target, id)), i).value
    ensures var sibs := SiblingsOf(cards, target, id);
      AtRank(cards', sibs, id, if i < |sibs| then i else |sibs|)
  {
    var sibs := SiblingsOf(cards, target, id);
    var ps := PositionsOf(cards, sibs);
    SiblingsAscend(cards, target, id);
    forall j | 0 <= j < |sibs|
      ensures sibs[j] in cards' && cards'[sibs[j]].position == ps[j]
    {
      assert sibs[j] != id;
    }
    AllocatedAtRank(cards', sibs, ps, id, i);
  }

  /** A card holding the position allocated for slot `i` among cards holding the
      strictly ascending positive positions `ps` lies at rank min(i, n) among them. */
  lemma AllocatedAtRank(cards': map<Id, Card>, sibs: seq<Id>, ps: seq<real>, id: Id, i: int)
    requires i >= 0 && |sibs| == |ps|
    requires StrictlyIncreasing(ps) && (|ps| > 0 ==> ps[0] > 0.0)
    requires forall j :: 0 <= j < |sibs| ==> sibs[j] in cards' && cards'[sibs[j]].position == ps[j]
    requires id in cards' && AllocateAtIndex(ps, i).Ok? && cards'[id].position == AllocateAtIndex(ps, i).value
    ensures AtRank(cards', sibs, id, if i < |sibs| then i else |sibs|)
  {
    AllocationLandsAtRank(ps, i);
  }

  /** Where a moved card ends up, and that no other card changes. */
  lemma MovePlacement(s: Store, id: Id, upd: CardUpdate, u: Id)
    requires UpdateCard(s, id, upd, u).Ok?
    requires IsMove(s.cards[id], upd)
    ensures var s' := UpdateCard(s, id, upd, u).value;
      && s'.cards[id].columnId == TargetColumn(s.cards[id], upd)
      && s'.cards[id].position == MovePosition(s, id, upd).value
      && forall k :: k in s.cards && k != id ==> k in s'.cards && s'.cards[k] == s.cards[k]
  {
  }

  // Archive, unarchive, permanent delete

  /** The cards after one at position `d` of column `col` is gone: those above it move
      down by one unit. */
  function CompactAbove(cards: map<Id, Card>, col: Id, d: real): (m: map<Id, Card>)
    ensures m.Keys == cards.Keys
    ensures forall k :: k in cards && cards[k].columnId == col && cards[k].position > d ==>
      m[k] == cards[k].(position := cards[k].position - 1.0)
    ensures forall k :: k in cards && (cards[k].columnId != col || cards[k].position <= d) ==>
      m[k] == cards[k]
  {
    map k | k in cards ::
      if cards[k].columnId == col && cards[k].position > d then
        cards[k].(position := cards[k].position - 1.0)
      else cards[k]
  }

  /** Without `permanent` an unarchived card is archived; with it an archived card is
      deleted with its assignments, and every card above it in its column moves down
      by exactly 1. */
  function DeleteCard(s: Store, id: Id, u: Id, permanent: bool): (r: Result<Store>)
    ensures id !in s.cards ==> r == Fail(NotFound)
    ensures id in s.cards && !CanReachColumn(s, s.cards[id].columnId, u) ==> r == Fail(NotFound)
    ensures r.Ok? <==>
      id in s.cards && CanReachColumn(s, s.cards[id].columnId, u) && permanent == s.cards[id].isArchived
    ensures id in s.cards && CanReachColumn(s, s.cards[id].columnId, u) && permanent != s.cards[id].isArchived ==>
      r == Fail(BadRequest)
    ensures r.Ok? && !permanent ==>
      r.value == s.(cards := s.cards[id := s.cards[id].(isArchived := true)])
    ensures r.Ok? && permanent ==>
      var s' := r.value;
      var col, d := s.cards[id].columnId, s.cards[id].position;
      && s'.cards.Keys == s.cards.Keys - {id}
      && (forall k :: k in s'.cards && s.cards[k].columnId == col && s.cards[k].position > d ==>
            s'.cards[k] == s.cards[k].(position := s.cards[k].position - 1.0))
      && (forall k :: k in s'.cards && (s.cards[k].columnId != col || s.cards[k].position <= d) ==>
            s'.cards[k] == s.cards[k])
      && (forall p :: p in s'.assignments <==> p in s.assignments && p.0 != id)
      && (forall p :: p in s'.assignments ==> s'.assignments[p] == s.assignments[p])
      && (forall p :: p in s'.cardLabels <==> p in s.cardLabels && p.0 != id)
      && s'.boards == s.boards && s'.members == s.members && s'.columns == s.columns
      && s'.labels == s.labels
  {
    if id !in s.cards then Fail(NotFound)
    else
      var card := s.cards[id];
      if CheckColumnBoardMember(s, card.columnId, u).Some? then Fail(NotFound)
      else if permanent then
        if !card.isArchived then Fail(BadRequest)
        else
          var t := DeleteCardCascade(s, id);
          Ok(t.(cards := CompactAbove(t.cards, card.columnId, card.position)))
      else if card.isArchived then Fail(BadRequest)
      else Ok(s.(cards := s.cards[id := card.(isArchived := true)]))
  }

  /** Restores an archived card; column and position are untouched. */
  function UnarchiveCard(s: Store, id: Id, u: Id): (r: Result<Store>)
    ensures id !in s.cards ==> r == Fail(NotFound)
    ensures id in s.cards && !CanReachColumn(s, s.cards[id].columnId, u) ==> r == Fail(NotFound)
    ensures r.Ok? <==> id in s.cards && CanReachColumn(s, s.cards[id].columnId, u) && s.cards[id].isArchived
    ensures id in s.cards && CanReachColumn(s, s.cards[id].columnId, u) && !s.cards[id].isArchived ==>
      r == Fail(BadRequest)
    ensures r.Ok? ==> r.value == s.(cards := s.cards[id := s.cards[id].(isArchived := false)])
  {
    if id !in s.cards then Fail(NotFound)
    else
      var card := s.cards[id];
      if CheckColumnBoardMember(s, card.columnId, u).Some? then Fail(NotFound)
      else if !card.isArchived then Fail(BadRequest)
      else Ok(s.(cards := s.cards[id := card.(isArchived := false)]))
  }

  /** An archived card drops out of every listing; unarchiving it brings the store back. */
  lemma ArchiveHidesCard(s: Store, id: Id, u: Id, v: Id, col: Id)
    requires DeleteCard(s, id, u, false).Ok?
    ensures var s' := DeleteCard(s, id, u, false).value;
      && id !in GetCardsInColumn(s', v, col)
      && UnarchiveCard(s', id, u) == Ok(s)
      && DeleteCard(s', id, u, false) == Fail(BadRequest)
  {
    var s' := DeleteCard(s, id, u, false).value;
    assert s'.cards[id := s'.cards[id].(isArchived := false)] == s.cards;
  }

  /** Unit compaction keeps the order of the remaining cards of the column when their
      positions are distinct and every card above the deleted one lies at least one
      unit above it. */
  lemma CompactionKeepsOrderWhenGapsWide(s: Store, id: Id, u: Id)
    requires DeleteCard(s, id, u, true).Ok?
    requires var col := s.cards[id].columnId;
      forall a, b :: a in CardsOf(s.cards, col) && b in CardsOf(s.cards, col) && a != b ==>
        s.cards[a].position != s.cards[b].position
    requires var col, d := s.cards[id].columnId, s.cards[id].position;
      forall a :: a in CardsOf(s.cards, col) && s.cards[a].position > d ==> s.cards[a].position >= d + 1.0
    ensures var s' := DeleteCard(s, id, u, true).value;
      var col := s.cards[id].columnId;
      forall a, b :: a in CardsOf(s'.cards, col) && b in CardsOf(s'.cards, col) ==>
        (s.cards[a].position < s.cards[b].position <==> s'.cards[a].position < s'.cards[b].position)
  {
    var s' := DeleteCard(s, id, u, true).value;
    var col, d := s.cards[id].columnId, s.cards[id].position;
    forall a, b | a in CardsOf(s'.cards, col) && b in CardsOf(s'.cards, col)
      ensures s.cards[a].position < s.cards[b].position <==> s'.cards[a].position < s'.cards[b].position
    {
      assert a in CardsOf(s.cards, col) && b in CardsOf(s.cards, col);
      assert a != id && b != id;
    }
  }

  // Referential integrity

  /** An update keeps every card in an existing column. */
  lemma UpdateCardPreservesValid(s: Store, id: Id, upd: CardUpdate, u: Id)
    requires Valid(s)
    requires UpdateCard(s, id, upd, u).Ok?
    ensures Valid(UpdateCard(s, id, upd, u).value)
  {
    var s' := UpdateCard(s, id, upd, u).value;
    assert s'.cards[id].columnId in s.columns;
    assert forall k :: k in s'.cards ==> s'.cards[k].columnId in s'.columns;
  }

  /** Archiving, unarchiving and permanent deletion leave no card or link dangling. */
  lemma DeleteCardKeepsValid(s: Store, id: Id, u: Id, permanent: bool)
    requires Valid(s)
    requires DeleteCard(s, id, u, permanent).Ok?
    ensures Valid(DeleteCard(s, id, u, permanent).value)
  {
    if permanent {
      DeleteCardPreservesValid(s, id);
    }
  }

  lemma UnarchiveCardPreservesValid(s: Store, id: Id, u: Id)
    requires Valid(s)
    requires UnarchiveCard(s, id, u).Ok?
    ensures Valid(UnarchiveCard(s, id, u).value)
  {
  }
}
