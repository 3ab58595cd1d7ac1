/** Column lifecycle within a board: append at the next dense rank, rename and move
    with a block shift of the ranks in between, archive and unarchive, and permanent
    delete with compaction of the ranks above. Every call is gated by membership of
    the column's board, failing 403. */
module ColumnService {
  import opened Results
  import opened TaskModel
  import Ordering

  /** The payload of an update request; a given position is never negative. */
  datatype ColumnUpdate = ColumnUpdate(title: Option<string>, position: Option<nat>)

  /** Membership gate of every column operation. */
  function CheckBoardMember(s: Store, b: Id, u: Id): (r: Option<Error>)
    ensures r == None <==> IsMember(s, b, u)
    ensures r != None ==> r == Some(Forbidden)
  {
    if IsMember(s, b, u) then None else Some(Forbidden)
  }

  /** The positions held by the columns of board `b`, archived ones included. */
  function RanksOf(columns: map<Id, Column>, b: Id): (ps: set<int>)
    ensures forall c :: c in ColumnsOf(columns, b) ==> columns[c].position in ps
    ensures forall p :: p in ps ==> exists c :: c in ColumnsOf(columns, b) && columns[c].position == p
  {
    set c | c in ColumnsOf(columns, b) :: columns[c].position
  }

  /** The position a new column of board `b` gets: one above the highest, or 0. */
  function AppendRank(columns: map<Id, Column>, b: Id): (p: int)
    ensures ColumnsOf(columns, b) == {} ==> p == 0
    ensures ColumnsOf(columns, b) != {} ==>
      && (forall c :: c in ColumnsOf(columns, b) ==> columns[c].position < p)
      && (exists c :: c in ColumnsOf(columns, b) && columns[c].position == p - 1)
  {
    var ps := RanksOf(columns, b);
    if ps == {} then
      assert forall c :: c !in ColumnsOf(columns, b);
      0
    else
      Ordering.MaxInt(ps) + 1
  }

  /** Appends an unarchived column to board `b` at `AppendRank`. */
  function CreateColumn(s: Store, title: string, b: Id, u: Id): (r: Result<(Store, Id)>)
    ensures r.Fail? <==> !IsMember(s, b, u)
    ensures r.Fail? ==> r.error == Forbidden
    ensures r.Ok? ==>
      var (s', c) := r.value;
      && s'.columns.Keys == s.columns.Keys + {c}
      && s'.columns[c] == Column(title, AppendRank(s.columns, b), false, b)
      && (forall k :: k in s.columns && k != c ==> s'.columns[k] == s.columns[k])
      && s'.boards == s.boards && s'.members == s.members && s'.cards == s.cards
      && s'.labels == s.labels && s'.assignments == s.assignments
      && s'.cardLabels == s.cardLabels
  {
    if CheckBoardMember(s, b, u).Some? then Fail(Forbidden)
    else
      var c := s.nextColumnId;
      var column := Column(title, AppendRank(s.columns, b), false, b);
      Ok((s.(columns := s.columns[c := column], nextColumnId := c + 1), c))
  }

  /** `p` lies in the block that shifts when a column moves from `oldPos` to `newPos`. */
  predicate InShiftWindow(p: int, oldPos: int, newPos: int)
  {
    (oldPos < newPos && oldPos < p <= newPos) || (newPos < oldPos && newPos <= p < oldPos)
  }

  /** Where a column at `p` ends up when another column of its board moves from `oldPos`
      to `newPos`: one down when it lay above the old slot, one up when it lay below. */
  function Shifted(p: int, oldPos: int, newPos: int): (q: int)
    ensures InShiftWindow(p, oldPos, newPos) && oldPos < newPos ==> q == p - 1
    ensures InShiftWindow(p, oldPos, newPos) && newPos < oldPos ==> q == p + 1
    ensures !InShiftWindow(p, oldPos, newPos) ==> q == p
  {
    if oldPos < newPos && oldPos < p <= newPos then p - 1
    else if newPos < oldPos && newPos <= p < oldPos then p + 1
    else p
  }

  /** The columns after column `c` moved to `newPos`, the others of its board shifted. */
  function Reposition(columns: map<Id, Column>, c: Id, newPos: int): (m: map<Id, Column>)
    requires c in columns
    ensures m.Keys == columns.Keys
    ensures m[c] == columns[c].(position := newPos)
    ensures forall k :: k in columns && k != c && columns[k].boardId == columns[c].boardId ==>
      m[k] == columns[k].(position := Shifted(columns[k].position, columns[c].position, newPos))
    ensures forall k :: k in columns && k != c && columns[k].boardId != columns[c].boardId ==>
      m[k] == columns[k]
  {
    var col := columns[c];
    map k | k in columns ::
      if k == c then col.(position := newPos)
      else if columns[k].boardId == col.boardId then
        columns[k].(position := Shifted(columns[k].position, col.position, newPos))
      else columns[k]
  }

  /** The columns after a column at `d` of board `b` is gone: those above it move down one. */
  function CompactAbove(columns: map<Id, Column>, b: Id, d: int): (m: map<Id, Column>)
    ensures m.Keys == columns.Keys
    ensures forall k :: k in columns && columns[k].boardId == b && columns[k].position > d ==>
      m[k] == columns[k].(position := columns[k].position - 1)
    ensures forall k :: k in columns && (columns[k].boardId != b || columns[k].position <= d) ==>
      m[k] == columns[k]
  {
    map k | k in columns ::
      if columns[k].boardId == b && columns[k].position > d then
        columns[k].(position := columns[k].position - 1)
      else columns[k]
  }

  /** Renames and moves a column. A move to a different position shifts the block of
      columns between the two slots by one towards the old slot. */
  function UpdateColumn(s: Store, c: Id, data: ColumnUpdate, u: Id): (r: Result<Store>)
    ensures c !in s.columns ==> r == Fail(NotFound)
    ensures c in s.columns && !IsMember(s, s.columns[c].boardId, u) ==> r == Fail(Forbidden)
    ensures r.Ok? <==> c in s.columns && IsMember(s, s.columns[c].boardId, u)
    ensures r.Ok? ==>
      var s' := r.value;
      var col := s.columns[c];
      var newPos := if data.position.Some? then data.position.value else col.position;
      && s'.columns.Keys == s.columns.Keys
      && s'.columns[c].title == (if data.title.Some? then data.title.value else col.title)
      && s'.columns[c].position == newPos
      && s'.columns[c].isArchived == col.isArchived && s'.columns[c].boardId == col.boardId
      && (forall k ::
            (k in s.columns && k != c && s.columns[k].boardId == col.boardId
             && col.position < s.columns[k].position <= newPos) ==>
            s'.columns[k] == s.columns[k].(position := s.columns[k].position - 1))
      && (forall k ::
            (k in s.columns && k != c && s.columns[k].boardId == col.boardId
             && newPos <= s.columns[k].position < col.position) ==>
            s'.columns[k] == s.columns[k].(position := s.columns[k].position + 1))
      && (forall k ::
            (k in s.columns && k != c
             && (s.columns[k].boardId != col.boardId
                 || !InShiftWindow(s.columns[k].position, col.position, newPos))) ==>
            s'.columns[k] == s.columns[k])
      && s'.boards == s.boards && s'.members == s.members && s'.cards == s.cards
      && s'.labels == s.labels && s'.assignments == s.assignments
      && s'.cardLabels == s.cardLabels
  {
    if c !in s.columns then Fail(NotFound)
    else
      var col := s.columns[c];
      if CheckBoardMember(s, col.boardId, u).Some? then Fail(Forbidden)
      else
        var title := if data.title.Some? then data.title.value else col.title;
        if data.position.Some? && data.position.value != col.position then
          Ok(s.(columns := Reposition(s.columns[c := col.(title := title)], c, data.position.value)))
        else
          Ok(s.(columns := s.columns[c := col.(title := title)]))
  }

  /** Without `permanent` an unarchived column is archived; with it an archived column
      is deleted with its cards, and every column above it in its board moves down one. */
  function DeleteColumn(s: Store, c: Id, u: Id, permanent: bool): (r: Result<Store>)
    ensures c !in s.columns ==> r == Fail(NotFound)
    ensures c in s.columns && !IsMember(s, s.columns[c].boardId, u) ==> r == Fail(Forbidden)
    ensures r.Ok? <==>
      c in s.columns && IsMember(s, s.columns[c].boardId, u) && permanent == s.columns[c].isArchived
    ensures c in s.columns && IsMember(s, s.columns[c].boardId, u) && permanent != s.columns[c].isArchived ==>
      r == Fail(BadRequest)
    ensures r.Ok? && !permanent ==>
      r.value == s.(columns := s.columns[c := s.columns[c].(isArchived := true)])
    ensures r.Ok? && permanent ==>
      var s' := r.value;
      var b, d := s.columns[c].boardId, s.columns[c].position;
      && s'.columns.Keys == s.columns.Keys - {c}
      && (forall k :: k in s'.columns && s.columns[k].boardId == b && s.columns[k].position > d ==>
            s'.columns[k] == s.columns[k].(position := s.columns[k].position - 1))
      && (forall k :: k in s'.columns && (s.columns[k].boardId != b || s.columns[k].position <= d) ==>
            s'.columns[k] == s.columns[k])
      && (forall k :: k in s'.cards <==> k in s.cards && s.cards[k].columnId != c)
      && (forall k :: k in s'.cards ==> s'.cards[k] == s.cards[k])
      && (forall p :: p in s'.assignments <==> p in s.assignments && p.0 !in CardsOf(s.cards, c))
      && (forall p :: p in s'.assignments ==> s'.assignments[p] == s.assignments[p])
      && (forall p :: p in s'.cardLabels <==> p in s.cardLabels && p.0 !in CardsOf(s.cards, c))
      && s'.boards == s.boards && s'.members == s.members && s'.labels == s.labels
  {
    if c !in s.columns then Fail(NotFound)
    else
      var col := s.columns[c];
      if CheckBoardMember(s, col.boardId, u).Some? then Fail(Forbidden)
      else if permanent then
        if !col.isArchived then Fail(BadRequest)
        else
          var t := DeleteColumnCascade(s, c);
          Ok(t.(columns := CompactAbove(t.columns, col.boardId, col.position)))
      else if col.isArchived then Fail(BadRequest)
      else Ok(s.(columns := s.columns[c := col.(isArchived := true)]))
  }

  /** Restores an archived column; its position is untouched. */
  function UnarchiveColumn(s: Store, c: Id, u: Id): (r: Result<Store>)
    ensures c !in s.columns ==> r == Fail(NotFound)
    ensures c in s.columns && !IsMember(s, s.columns[c].boardId, u) ==> r == Fail(Forbidden)
    ensures r.Ok? <==> c in s.columns && IsMember(s, s.columns[c].boardId, u) && s.columns[c].isArchived
    ensures c in s.columns && IsMember(s, s.columns[c].boardId, u) && !s.columns[c].isArchived ==>
      r == Fail(BadRequest)
    ensures r.Ok? ==> r.value == s.(columns := s.columns[c := s.columns[c].(isArchived := false)])
  {
    if c !in s.columns then Fail(NotFound)
    else
      var col := s.columns[c];
      if CheckBoardMember(s, col.boardId, u).Some? then Fail(Forbidden)
      else if !col.isArchived then Fail(BadRequest)
      else Ok(s.(columns := s.columns[c := col.(isArchived := false)]))
  }

  /** Archiving, then unarchiving, restores the store exactly. */
  lemma ArchiveThenUnarchive(s: Store, c: Id, u: Id)
    requires DeleteColumn(s, c, u, false).Ok?
    ensures UnarchiveColumn(DeleteColumn(s, c, u, false).value, c, u) == Ok(s)
    ensures DeleteColumn(DeleteColumn(s, c, u, false).value, c, u, false) == Fail(BadRequest)
  {
    var s1 := DeleteColumn(s, c, u, false).value;
    assert s1.columns[c := s1.columns[c].(isArchived := false)] == s.columns;
  }

  // Dense ranks

  /** The columns of board `b` hold the positions 0 .. n-1, one each, where n is the
      number of its columns. */
  predicate DenseRanks(columns: map<Id, Column>, b: Id)
  {
    && (forall c :: c in ColumnsOf(columns, b) ==> 0 <= columns[c].position < |ColumnsOf(columns, b)|)
    && (forall c, d :: c in ColumnsOf(columns, b) && d in ColumnsOf(columns, b) && c != d ==>
          columns[c].position != columns[d].position)
  }

  lemma {:induction false} InjectiveImageSize(ids: set<Id>, columns: map<Id, Column>)
    requires ids <= columns.Keys
    requires forall c, d :: c in ids && d in ids && c != d ==> columns[c].position != columns[d].position
    ensures |set c | c in ids :: columns[c].position| == |ids|
  {
    if ids != {} {
      var x := Ordering.Pick(ids);
      InjectiveImageSize(ids - {x}, columns);
      var image := set c | c in ids :: columns[c].position;
      var rest := set c | c in ids - {x} :: columns[c].position;
      assert image == rest + {columns[x].position};
      assert columns[x].position !in rest;
    }
  }

  /** Dense ranks are a permutation of 0 .. n-1: every rank below n is taken. */
  lemma DenseIsPermutation(columns: map<Id, Column>, b: Id)
    requires DenseRanks(columns, b)
    ensures RanksOf(columns, b) == Ordering.Range(|ColumnsOf(columns, b)|)
  {
    var ids := ColumnsOf(columns, b);
    InjectiveImageSize(ids, columns);
    assert RanksOf(columns, b) == set c | c in ids :: columns[c].position;
    Ordering.SubsetOfSameSize(RanksOf(columns, b), Ordering.Range(|ids|));
  }

  /** A set of columns holds no more distinct ranks than it has columns. */
  lemma {:induction false} ImageSizeAtMost(ids: set<Id>, columns: map<Id, Column>)
    requires ids <= columns.Keys
    ensures |set c | c in ids :: columns[c].position| <= |ids|
  {
    if ids != {} {
      var x := Ordering.Pick(ids);
      ImageSizeAtMost(ids - {x}, columns);
      var image := set c | c in ids :: columns[c].position;
      var rest := set c | c in ids - {x} :: columns[c].position;
      assert image == rest + {columns[x].position};
    }
  }

  /** Conversely, ranks that are exactly 0 .. n-1 on n columns are dense: two columns
      sharing a rank would leave a rank below n untaken. */
  lemma PermutationIsDense(columns: map<Id, Column>, b: Id)
    requires RanksOf(columns, b) == Ordering.Range(|ColumnsOf(columns, b)|)
    ensures DenseRanks(columns, b)
  {
    var ids := ColumnsOf(columns, b);
    forall c, d | c in ids && d in ids && c != d
      ensures columns[c].position != columns[d].position
    {
      SharedRankShrinksImage(ids, columns, c, d);
      assert (set e | e in ids :: columns[e].position) == RanksOf(columns, b);
    }
  }

  /** Two columns of `ids` sharing a rank leave fewer ranks than columns. */
  lemma SharedRankShrinksImage(ids: set<Id>, columns: map<Id, Column>, c: Id, d: Id)
    requires ids <= columns.Keys && c in ids && d in ids && c != d
    ensures columns[c].position == columns[d].position ==>
      |set e | e in ids :: columns[e].position| < |ids|
  {
    var fewer := ids - {d};
    ImageSizeAtMost(fewer, columns);
    var image := set e | e in ids :: columns[e].position;
    var rest := set e | e in fewer :: columns[e].position;
    assert image == rest + {columns[d].position};
    assert columns[c].position in rest;
  }

  /** Adding a column of board `b` at rank n keeps dense ranks dense. */
  lemma AppendKeepsDense(columns: map<Id, Column>, b: Id, c: Id, col: Column)
    requires c !in columns && col.boardId == b
    requires DenseRanks(columns, b)
    requires col.position == |ColumnsOf(columns, b)|
    ensures DenseRanks(columns[c := col], b)
  {
    assert ColumnsOf(columns[c := col], b) == ColumnsOf(columns, b) + {c};
  }

  /** On dense ranks a new column lands at rank n and the ranks stay dense. */
  lemma CreateKeepsDense(s: Store, title: string, b: Id, u: Id)
    requires Valid(s) && DenseRanks(s.columns, b)
    requires CreateColumn(s, title, b, u).Ok?
    ensures var (s', c) := CreateColumn(s, title, b, u).value;
      && s'.columns[c].position == |ColumnsOf(s.columns, b)|
      && DenseRanks(s'.columns, b)
  {
    var (s', c) := CreateColumn(s, title, b, u).value;
    AppendRankOfDense(s.columns, b);
    assert c !in s.columns;
    AppendKeepsDense(s.columns, b, c, s'.columns[c]);
  }

  /** On dense ranks the append rank is the number of columns. */
  lemma AppendRankOfDense(columns: map<Id, Column>, b: Id)
    requires DenseRanks(columns, b)
    ensures AppendRank(columns, b) == |ColumnsOf(columns, b)|
  {
    var n := |ColumnsOf(columns, b)|;
    if n > 0 {
      DenseIsPermutation(columns, b);
      assert n - 1 in RanksOf(columns, b);
    }
  }

  /** Changing fields other than the position keeps dense ranks dense. */
  lemma RetitleKeepsDense(columns: map<Id, Column>, b: Id, c: Id, col: Column)
    requires c in columns && col.boardId == columns[c].boardId && col.position == columns[c].position
    requires DenseRanks(columns, b)
    ensures DenseRanks(columns[c := col], b)
  {
    assert ColumnsOf(columns[c := col], b) == ColumnsOf(columns, b);
  }

  /** A move of a column of board `b` to a rank inside 0 .. n-1 keeps dense ranks dense. */
  lemma RepositionKeepsDense(columns: map<Id, Column>, b: Id, c: Id, newPos: int)
    requires c in columns && columns[c].boardId == b
    requires DenseRanks(columns, b)
    requires 0 <= newPos < |ColumnsOf(columns, b)|
    ensures DenseRanks(Reposition(columns, c, newPos), b)
  {
    var m := Reposition(columns, c, newPos);
    var ids := ColumnsOf(columns, b);
    assert ColumnsOf(m, b) == ids;
    var oldPos := columns[c].position;
    forall k | k in ids
      ensures 0 <= m[k].position < |ids|
    {
    }
    forall k, j | k in ids && j in ids && k != j
      ensures m[k].position != m[j].position
    {
      if k != c && j != c {
        assert columns[k].position != oldPos && columns[j].position != oldPos;
      } else if k == c {
        assert columns[j].position != oldPos;
      } else {
        assert columns[k].position != oldPos;
      }
    }
  }

  /** The columns after an update of column `c` by a member. */
  function UpdatedColumns(columns: map<Id, Column>, c: Id, data: ColumnUpdate): map<Id, Column>
    requires c in columns
  {
    var col := columns[c];
    var renamed := columns[c := col.(title := if data.title.Some? then data.title.value else col.title)];
    if data.position.Some? && data.position.value != col.position then Reposition(renamed, c, data.position.value)
    else renamed
  }

  lemma UpdateColumnIsUpdatedColumns(s: Store, c: Id, data: ColumnUpdate, u: Id)
    requires UpdateColumn(s, c, data, u).Ok?
    ensures c in s.columns && UpdateColumn(s, c, data, u).value.columns == UpdatedColumns(s.columns, c, data)
  {
  }

  /** A rename, with or without a move inside 0 .. n-1, keeps dense ranks dense. */
  lemma UpdatedColumnsKeepDense(columns: map<Id, Column>, c: Id, data: ColumnUpdate)
    requires c in columns
    requires DenseRanks(columns, columns[c].boardId)
    requires data.position.Some? ==> data.position.value < |ColumnsOf(columns, columns[c].boardId)|
    ensures DenseRanks(UpdatedColumns(columns, c, data), columns[c].boardId)
  {
    var b := columns[c].boardId;
    var col := columns[c];
    var title := if data.title.Some? then data.title.value else col.title;
    var renamed := columns[c := col.(title := title)];
    RetitleKeepsDense(columns, b, c, col.(title := title));
    assert ColumnsOf(renamed, b) == ColumnsOf(columns, b);
    if data.position.Some? && data.position.value != col.position {
      RepositionKeepsDense(renamed, b, c, data.position.value);
    }
  }

  /** On dense ranks, a move to a position inside 0 .. n-1 keeps the ranks dense. */
  lemma MoveKeepsDense(s: Store, c: Id, data: ColumnUpdate, u: Id)
    requires UpdateColumn(s, c, data, u).Ok?
    requires DenseRanks(s.columns, s.columns[c].boardId)
    requires data.position.Some? ==> data.position.value < |ColumnsOf(s.columns, s.columns[c].boardId)|
    ensures DenseRanks(UpdateColumn(s, c, data, u).value.columns, s.columns[c].boardId)
  {
    UpdateColumnIsUpdatedColumns(s, c, data, u);
    UpdatedColumnsKeepDense(s.columns, c, data);
  }

  /** Removing a column of board `b` and compacting the ranks above keeps dense ranks dense. */
  lemma CompactKeepsDense(columns: map<Id, Column>, b: Id, c: Id)
    requires c in columns && columns[c].boardId == b
    requires DenseRanks(columns, b)
    ensures DenseRanks(CompactAbove(columns - {c}, b, columns[c].position), b)
  {
    var d := columns[c].position;
    var m := CompactAbove(columns - {c}, b, d);
    var ids := ColumnsOf(columns, b);
    assert ColumnsOf(m, b) == ids - {c};
    forall k | k in ids - {c}
      ensures 0 <= m[k].position < |ids| - 1
    {
      assert columns[k].position != d;
    }
    forall k, j | k in ids - {c} && j in ids - {c} && k != j
      ensures m[k].position != m[j].position
    {
      assert columns[k].position != d && columns[j].position != d;
    }
  }

  /** On dense ranks, permanently deleting a column keeps its board's ranks dense. */
  lemma DeleteKeepsDense(s: Store, c: Id, u: Id)
    requires DeleteColumn(s, c, u, true).Ok?
    requires DenseRanks(s.columns, s.columns[c].boardId)
    ensures DenseRanks(DeleteColumn(s, c, u, true).value.columns, s.columns[c].boardId)
  {
    CompactKeepsDense(s.columns, s.columns[c].boardId, c);
  }

  /** Archiving and unarchiving leave every position alone. */
  lemma ArchiveKeepsDense(s: Store, c: Id, u: Id, b: Id)
    requires DenseRanks(s.columns, b)
    ensures DeleteColumn(s, c, u, false).Ok? ==> DenseRanks(DeleteColumn(s, c, u, false).value.columns, b)
    ensures UnarchiveColumn(s, c, u).Ok? ==> DenseRanks(UnarchiveColumn(s, c, u).value.columns, b)
  {
    if DeleteColumn(s, c, u, false).Ok? {
      RetitleKeepsDense(s.columns, b, c, s.columns[c].(isArchived := true));
    }
    if UnarchiveColumn(s, c, u).Ok? {
      RetitleKeepsDense(s.columns, b, c, s.columns[c].(isArchived := false));
    }
  }
}
