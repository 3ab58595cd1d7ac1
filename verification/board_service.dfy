/** Board lifecycle: create with an owner membership, list the caller's open boards,
    read a board subject to its visibility, and the owner-only two-phase
    close-then-delete. */
module BoardService {
  import opened Results
  import opened TaskModel
  import Ordering

  /** The payload of a create request. */
  datatype BoardCreate = BoardCreate(title: string, visibility: Visibility, background: Option<string>)

  /** A create payload that gives only the title; the other fields take their defaults. */
  function TitleOnly(title: string): (data: BoardCreate)
    ensures data.title == title
    ensures data.visibility == Private && data.background == None
  {
    BoardCreate(title, DEFAULT_VISIBILITY, None)
  }

  /** Inserts the board owned by `user`, open, stamped `now`, together with the
      caller's "admin" membership. Both rows are written in one commit. */
  function Create(s: Store, data: BoardCreate, user: Id, now: int): (r: (Store, Id))
    ensures r.0.boards.Keys == s.boards.Keys + {r.1}
    ensures r.0.boards[r.1] == Board(data.title, user, data.visibility, data.background, false, now)
    ensures forall b :: b in s.boards && b != r.1 ==> r.0.boards[b] == s.boards[b]
    ensures r.0.members == s.members[(r.1, user) := Membership(ADMIN_ROLE)]
    ensures r.0.columns == s.columns && r.0.cards == s.cards && r.0.labels == s.labels
    ensures r.0.assignments == s.assignments && r.0.cardLabels == s.cardLabels
  {
    var b := s.nextBoardId;
    var board := Board(data.title, user, data.visibility, data.background, false, now);
    (s.(boards := s.boards[b := board],
        members := s.members[(b, user) := Membership(ADMIN_ROLE)],
        nextBoardId := b + 1),
     b)
  }

  /** On a consistent store the new board takes a fresh id and has exactly one
      membership, the creator's; the membership table grows by one row. */
  lemma CreateAddsOnlyOwnerMembership(s: Store, data: BoardCreate, user: Id, now: int)
    requires Valid(s)
    ensures var (s', b) := Create(s, data, user, now);
      && b !in s.boards
      && |s'.members| == |s.members| + 1
      && (forall p :: p in s'.members && p.0 == b <==> p == (b, user))
  {
    var (s', b) := Create(s, data, user, now);
    assert (b, user) !in s.members;
  }

  /** Creating a board keeps the store consistent. */
  lemma CreatePreservesValid(s: Store, data: BoardCreate, user: Id, now: int)
    requires Valid(s)
    ensures Valid(Create(s, data, user, now).0)
  {
  }

  /** The open boards `u` is a member of. */
  function OpenBoardsOf(s: Store, u: Id): (ids: set<Id>)
    ensures forall b :: b in ids <==> b in s.boards && IsMember(s, b, u) && !s.boards[b].isClosed
  {
    set b | b in s.boards && IsMember(s, b, u) && !s.boards[b].isClosed
  }

  /** Listing key for newest first: the larger the creation time, the smaller the key. */
  function NewestFirst(boards: map<Id, Board>): int -> real
  {
    b => if b in boards then -(boards[b].createdAt as real) else 0.0
  }

  /** A listing ordered newest first holds distinct boards by non-increasing creation time. */
  lemma NewestFirstDescends(boards: map<Id, Board>, r: seq<Id>)
    requires forall i :: 0 <= i < |r| ==> r[i] in boards
    requires Ordering.OrderedBy(r, NewestFirst(boards))
    ensures forall i, j :: 0 <= i < j < |r| ==> r[i] != r[j] && boards[r[i]].createdAt >= boards[r[j]].createdAt
  {
    forall i, j | 0 <= i < j < |r|
      ensures r[i] != r[j] && boards[r[i]].createdAt >= boards[r[j]].createdAt
    {
      assert Ordering.Precedes(NewestFirst(boards), r[i], r[j]);
    }
  }

  /** The caller's open boards, newest first, from offset `skip`, at most `limit`. */
  function GetMyBoards(s: Store, u: Id, skip: nat, limit: nat): (r: seq<Id>)
    ensures |r| <= limit
    ensures forall i :: 0 <= i < |r| ==>
      r[i] in s.boards && IsMember(s, r[i], u) && !s.boards[r[i]].isClosed
    ensures forall i, j :: 0 <= i < j < |r| ==>
      r[i] != r[j] && s.boards[r[i]].createdAt >= s.boards[r[j]].createdAt
    ensures skip == 0 && |OpenBoardsOf(s, u)| <= limit ==>
      forall b :: b in r <==> b in OpenBoardsOf(s, u)
  {
    var mine := OpenBoardsOf(s, u);
    var all := Ordering.OrderBy(mine, NewestFirst(s.boards));
    var r := Ordering.Page(all, skip, limit);
    Ordering.PageKeepsOrder(all, NewestFirst(s.boards), skip, limit);
    assert forall i :: 0 <= i < |r| ==> r[i] in mine;
    NewestFirstDescends(s.boards, r);
    assert skip == 0 && |mine| <= limit ==> r == all;
    r
  }

  /** Consecutive pages of the listing concatenate to the page spanning both. */
  lemma MyBoardsPagesConcatenate(s: Store, u: Id, skip: nat, a: nat, b: nat)
    ensures GetMyBoards(s, u, skip, a) + GetMyBoards(s, u, skip + a, b) == GetMyBoards(s, u, skip, a + b)
  {
    var all := Ordering.OrderBy(OpenBoardsOf(s, u), NewestFirst(s.boards));
    Ordering.PagesConcatenate(all, skip, a, b);
  }

  /** A board is returned when it exists and is public or the caller is a member;
      otherwise an unknown id fails 404 and a known one fails 403. */
  function GetBoardDetail(s: Store, b: Id, u: Id): (r: Result<Board>)
    ensures r.Ok? <==> b in s.boards && (s.boards[b].visibility == Public || IsMember(s, b, u))
    ensures r.Ok? ==> r.value == s.boards[b]
    ensures b !in s.boards ==> r == Fail(NotFound)
    ensures b in s.boards && r.Fail? ==> r.error == Forbidden
  {
    if b !in s.boards then Fail(NotFound)
    else if s.boards[b].visibility == Public then Ok(s.boards[b])
    else if !IsMember(s, b, u) then Fail(Forbidden)
    else Ok(s.boards[b])
  }

  /** A board created with the default visibility is hidden from everyone but its
      members. */
  lemma DefaultBoardHiddenFromOthers(s: Store, title: string, owner: Id, other: Id, now: int)
    requires owner != other
    requires (s.nextBoardId, other) !in s.members
    ensures var (s', b) := Create(s, TitleOnly(title), owner, now);
      && GetBoardDetail(s', b, other) == Fail(Forbidden)
      && GetBoardDetail(s', b, owner).Ok?
  {
  }

  /** Owner-only deletion. Without `permanent` an open board is closed; with it a
      closed board is deleted together with everything it owns. */
  function DeleteBoard(s: Store, b: Id, u: Id, permanent: bool): (r: Result<Store>)
    ensures b !in s.boards ==> r == Fail(NotFound)
    ensures b in s.boards && s.boards[b].ownerId != u ==> r == Fail(Forbidden)
    ensures r.Ok? <==> b in s.boards && s.boards[b].ownerId == u && permanent == s.boards[b].isClosed
    ensures b in s.boards && s.boards[b].ownerId == u && permanent != s.boards[b].isClosed ==>
      r == Fail(BadRequest)
    ensures r.Ok? && permanent ==> r.value == DeleteBoardCascade(s, b)
    ensures r.Ok? && !permanent ==>
      r.value == s.(boards := s.boards[b := s.boards[b].(isClosed := true)])
  {
    if b !in s.boards then Fail(NotFound)
    else
      var board := s.boards[b];
      if board.ownerId != u then Fail(Forbidden)
      else if permanent then
        if !board.isClosed then Fail(BadRequest)
        else Ok(DeleteBoardCascade(s, b))
      else if board.isClosed then Fail(BadRequest)
      else Ok(s.(boards := s.boards[b := board.(isClosed := true)]))
  }

  /** Being an "admin" member is not enough: anyone but the owner is refused, in
      both modes, and nothing changes. */
  lemma OnlyOwnerDeletes(s: Store, b: Id, u: Id, permanent: bool)
    requires b in s.boards && IsMember(s, b, u) && s.members[(b, u)].role == ADMIN_ROLE
    requires s.boards[b].ownerId != u
    ensures DeleteBoard(s, b, u, permanent) == Fail(Forbidden)
  {
  }

  /** A closed board disappears from every member's listing and stays readable by
      id to its members. */
  lemma CloseHidesBoard(s: Store, b: Id, u: Id, v: Id, skip: nat, limit: nat)
    requires DeleteBoard(s, b, u, false).Ok?
    ensures var s' := DeleteBoard(s, b, u, false).value;
      && b !in GetMyBoards(s', v, skip, limit)
      && (IsMember(s, b, v) ==> GetBoardDetail(s', b, v).Ok?)
      && DeleteBoard(s', b, u, false) == Fail(BadRequest)
  {
    var s' := DeleteBoard(s, b, u, false).value;
    assert b !in OpenBoardsOf(s', v);
  }

  /** Deletion is two-phase: an open board cannot be deleted permanently; once closed
      it can, and afterwards nothing that belonged to it is left and the store stays
      consistent. */
  lemma CloseThenDelete(s: Store, b: Id, u: Id)
    requires Valid(s)
    requires b in s.boards && s.boards[b].ownerId == u && !s.boards[b].isClosed
    ensures DeleteBoard(s, b, u, true) == Fail(BadRequest)
    ensures var s1 := DeleteBoard(s, b, u, false).value;
      && Valid(s1)
      && DeleteBoard(s1, b, u, true).Ok?
      && var s2 := DeleteBoard(s1, b, u, true).value;
      && Valid(s2)
      && b !in s2.boards
      && (forall p :: p in s2.members ==> p.0 != b)
      && (forall c :: c in s2.columns ==> s2.columns[c].boardId != b)
      && (forall l :: l in s2.labels ==> s2.labels[l].boardId != b)
      && (forall k :: k in s2.cards ==> s2.columns[s2.cards[k].columnId].boardId != b)
  {
    var s1 := DeleteBoard(s, b, u, false).value;
    assert Valid(s1);
    DeleteBoardPreservesValid(s1, b);
  }
}
