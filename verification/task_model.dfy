/** The Kanban records of the task service, the store that holds them, the store's
    referential integrity, and the cascades that deleting a board, column or card
    triggers. */
module TaskModel {
  import opened Results

  /** Row ids and user ids are plain integers. */
  type Id = int

  /** Who may read a board without being a member: only `Public` opens it to everyone. */
  datatype Visibility = Private | Public | Workspace | Organization

  /** The visibility a board gets when its creator does not choose one. */
  const DEFAULT_VISIBILITY: Visibility := Private

  /** The role given to a board's creator. */
  const ADMIN_ROLE: string := "admin"
  /** The column default of a membership row's role. */
  const MEMBER_ROLE: string := "member"
  /** The column default of an assignment row's role. */
  const ASSIGNEE_ROLE: string := "assignee"

  datatype Board = Board(
    title: string,
    ownerId: Id,
    visibility: Visibility,
    background: Option<string>,
    isClosed: bool,
    /** Creation time, as supplied by the database clock. */
    createdAt: int)

  /** A membership row; its key is the (board id, user id) pair. */
  datatype Membership = Membership(role: string)

  /** A column of a board; positions are dense ranks 0, 1, 2, ... within the board. */
  datatype Column = Column(title: string, position: int, isArchived: bool, boardId: Id)

  /** A card of a column; positions are gap-spaced ordering keys within the column. */
  datatype Card = Card(
    title: string,
    description: Option<string>,
    position: real,
    isArchived: bool,
    columnId: Id)

  /** An assignment row; its key is the (card id, user id) pair. */
  datatype Assignment = Assignment(role: string)

  datatype Label = Label(title: Option<string>, color: string, boardId: Id)

  /** The task service's tables. `cardLabels` holds (card id, label id) pairs. The three
      counters are the id sequences the database draws new keys from. */
  datatype Store = Store(
    boards: map<Id, Board>,
    members: map<(Id, Id), Membership>,
    columns: map<Id, Column>,
    cards: map<Id, Card>,
    assignments: map<(Id, Id), Assignment>,
    labels: map<Id, Label>,
    cardLabels: set<(Id, Id)>,
    nextBoardId: Id,
    nextColumnId: Id,
    nextCardId: Id)

  /** The foreign keys hold and every key was drawn from its id sequence. */
  predicate Valid(s: Store)
  {
    && (forall p :: p in s.members ==> p.0 in s.boards)
    && (forall c :: c in s.columns ==> s.columns[c].boardId in s.boards)
    && (forall k :: k in s.cards ==> s.cards[k].columnId in s.columns)
    && (forall p :: p in s.assignments ==> p.0 in s.cards)
    && (forall l :: l in s.labels ==> s.labels[l].boardId in s.boards)
    && (forall p :: p in s.cardLabels ==> p.0 in s.cards && p.1 in s.labels)
    && (forall b :: b in s.boards ==> b < s.nextBoardId)
    && (forall c :: c in s.columns ==> c < s.nextColumnId)
    && (forall k :: k in s.cards ==> k < s.nextCardId)
  }

  /** The columns of board `b`, archived ones included. */
  function ColumnsOf(columns: map<Id, Column>, b: Id): (ids: set<Id>)
    ensures forall c :: c in ids <==> c in columns && columns[c].boardId == b
  {
    set c | c in columns && columns[c].boardId == b
  }

  /** The cards of column `col`, archived ones included. */
  function CardsOf(cards: map<Id, Card>, col: Id): (ids: set<Id>)
    ensures forall k :: k in ids <==> k in cards && cards[k].columnId == col
  {
    set k | k in cards && cards[k].columnId == col
  }

  /** `u` holds a membership row for board `b`. */
  predicate IsMember(s: Store, b: Id, u: Id)
  {
    (b, u) in s.members
  }

  /** The cards `gone` are deleted, and with them every assignment row and label link
      that hangs off them; nothing else changes. */
  function DropCards(s: Store, gone: set<Id>): (s': Store)
    ensures s'.cards.Keys == s.cards.Keys - gone
    ensures forall k :: k in s'.cards ==> s'.cards[k] == s.cards[k]
    ensures forall p :: p in s'.assignments <==> p in s.assignments && p.0 !in gone
    ensures forall p :: p in s'.assignments ==> s'.assignments[p] == s.assignments[p]
    ensures forall p :: p in s'.cardLabels <==> p in s.cardLabels && p.0 !in gone
    ensures s'.boards == s.boards && s'.members == s.members
    ensures s'.columns == s.columns && s'.labels == s.labels
    ensures s'.nextBoardId == s.nextBoardId && s'.nextColumnId == s.nextColumnId
    ensures s'.nextCardId == s.nextCardId
  {
    s.(cards := map k | k in s.cards && k !in gone :: s.cards[k],
       assignments := map p | p in s.assignments && p.0 !in gone :: s.assignments[p],
       cardLabels := set p | p in s.cardLabels && p.0 !in gone)
  }

  /** Deleting a card deletes its assignments and label links. */
  function DeleteCardCascade(s: Store, k: Id): (s': Store)
    ensures k !in s'.cards
    ensures s'.cards.Keys == s.cards.Keys - {k}
    ensures forall j :: j in s'.cards ==> s'.cards[j] == s.cards[j]
    ensures forall p :: p in s'.assignments <==> p in s.assignments && p.0 != k
    ensures forall p :: p in s'.assignments ==> s'.assignments[p] == s.assignments[p]
    ensures forall p :: p in s'.cardLabels <==> p in s.cardLabels && p.0 != k
    ensures s'.boards == s.boards && s'.members == s.members
    ensures s'.columns == s.columns && s'.labels == s.labels
    ensures s'.nextBoardId == s.nextBoardId && s'.nextColumnId == s.nextColumnId
    ensures s'.nextCardId == s.nextCardId
  {
    DropCards(s, {k})
  }

  /** Deleting a column deletes its cards, and through them their assignments and
      label links. */
  function DeleteColumnCascade(s: Store, c: Id): (s': Store)
    ensures s'.columns.Keys == s.columns.Keys - {c}
    ensures forall j :: j in s'.columns ==> s'.columns[j] == s.columns[j]
    ensures forall k :: k in s'.cards <==> k in s.cards && s.cards[k].columnId != c
    ensures forall k :: k in s'.cards ==> s'.cards[k] == s.cards[k]
    ensures forall p :: p in s'.assignments <==> p in s.assignments && p.0 !in CardsOf(s.cards, c)
    ensures forall p :: p in s'.assignments ==> s'.assignments[p] == s.assignments[p]
    ensures forall p :: p in s'.cardLabels <==> p in s.cardLabels && p.0 !in CardsOf(s.cards, c)
    ensures s'.boards == s.boards && s'.members == s.members && s'.labels == s.labels
    ensures s'.nextBoardId == s.nextBoardId && s'.nextColumnId == s.nextColumnId
    ensures s'.nextCardId == s.nextCardId
  {
    DropCards(s, CardsOf(s.cards, c)).(columns := s.columns - {c})
  }

  /** The cards of the columns of board `b`. */
  function CardsOfBoard(s: Store, b: Id): (ids: set<Id>)
    ensures forall k :: k in ids <==>
      k in s.cards && s.cards[k].columnId in s.columns && s.columns[s.cards[k].columnId].boardId == b
  {
    set k | k in s.cards && s.cards[k].columnId in ColumnsOf(s.columns, b)
  }

  /** The labels of board `b`. */
  function LabelsOf(labels: map<Id, Label>, b: Id): (ids: set<Id>)
    ensures forall l :: l in ids <==> l in labels && labels[l].boardId == b
  {
    set l | l in labels && labels[l].boardId == b
  }

  /** Deleting a board deletes its columns, labels and memberships, the cards of those
      columns, and everything hanging off those cards and labels. */
  function DeleteBoardCascade(s: Store, b: Id): (s': Store)
    ensures s'.boards.Keys == s.boards.Keys - {b}
    ensures forall j :: j in s'.boards ==> s'.boards[j] == s.boards[j]
    ensures forall p :: p in s'.members <==> p in s.members && p.0 != b
    ensures forall p :: p in s'.members ==> s'.members[p] == s.members[p]
    ensures forall c :: c in s'.columns <==> c in s.columns && s.columns[c].boardId != b
    ensures forall c :: c in s'.columns ==> s'.columns[c] == s.columns[c]
    ensures s'.cards.Keys == s.cards.Keys - CardsOfBoard(s, b)
    ensures forall k :: k in s'.cards ==> s'.cards[k] == s.cards[k]
    ensures s'.labels.Keys == s.labels.Keys - LabelsOf(s.labels, b)
    ensures forall l :: l in s'.labels ==> s'.labels[l] == s.labels[l]
    ensures forall p :: p in s'.assignments <==> p in s.assignments && p.0 !in CardsOfBoard(s, b)
    ensures forall p :: p in s'.assignments ==> s'.assignments[p] == s.assignments[p]
    ensures forall p :: p in s'.cardLabels <==>
      p in s.cardLabels && p.0 !in CardsOfBoard(s, b) && p.1 !in LabelsOf(s.labels, b)
    ensures s'.nextBoardId == s.nextBoardId && s'.nextColumnId == s.nextColumnId
    ensures s'.nextCardId == s.nextCardId
  {
    var goneColumns := ColumnsOf(s.columns, b);
    var goneCards := CardsOfBoard(s, b);
    var goneLabels := LabelsOf(s.labels, b);
    var t := DropCards(s, goneCards);
    t.(boards := s.boards - {b},
       members := map p | p in s.members && p.0 != b :: s.members[p],
       columns := s.columns - goneColumns,
       labels := s.labels - goneLabels,
       cardLabels := set p | p in t.cardLabels && p.1 !in goneLabels)
  }

  /** Deleting a card leaves no assignment or label link dangling. */
  lemma DeleteCardPreservesValid(s: Store, k: Id)
    requires Valid(s)
    ensures Valid(DeleteCardCascade(s, k))
  {
  }

  /** Deleting a column leaves no card, assignment or label link dangling. */
  lemma DeleteColumnPreservesValid(s: Store, c: Id)
    requires Valid(s)
    ensures Valid(DeleteColumnCascade(s, c))
  {
  }

  /** Deleting a board leaves no membership, column, card, label or link dangling. */
  lemma DeleteBoardPreservesValid(s: Store, b: Id)
    requires Valid(s)
    ensures Valid(DeleteBoardCascade(s, b))
  {
  }
}
