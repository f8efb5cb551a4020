/**
 The whole run: where one `converge` leaves the server, and that a server that was left so is
 not changed by another.
 */
module BoardConvergence {
  import opened Base
  import opened MetabaseServer
  import opened MetabaseBoards
  import opened BoardLaws

  // ---------------------------------------------------------------- database ---

  /** The database a run connects to. */
  ghost predicate DatabaseIsLive(s: Server, details: Connection, database: Id) {
    && MartsDatabase(s) == Some(database)
    && database in s.databases.items
    && s.databases.items[database] == Item(MARTS_DB_NAME, false, details)
  }

  /** Nothing but the marts connection changes; it is created only if none has its name. */
  ghost predicate OnlyMarts(s: Server, t: Server, database: Id) {
    && t.cards == s.cards && t.dashboards == s.dashboards && t.nextDashcard == s.nextDashcard
    && t.databases.Valid()
    && (forall i :: i in s.databases.items && i != database ==>
        i in t.databases.items && t.databases.items[i] == s.databases.items[i])
    && (forall i :: i in t.databases.items && i !in s.databases.items ==> i == database)
    && (if MartsDatabase(s).Some? then MartsDatabase(s) == Some(database) else database !in s.databases.items)
  }

  lemma EnsureLaw(s: Server, details: Connection)
    requires Valid(s)
    ensures var e := EnsureMartsDatabase(s, details);
            Valid(e.server) && OnlyMarts(s, e.server, e.id) && DatabaseIsLive(e.server, details, e.id)
  {
    hide FirstUpTo;
    var e := EnsureMartsDatabase(s, details);
    var a, b := s.databases, e.server.databases;
    MartsDatabaseExists(s);
    FirstIsFirst(a.Names(), a.next, MARTS_DB_NAME);
    FirstIsFirst(b.Names(), b.next, MARTS_DB_NAME);
    assert Bears(b.Names(), e.id, MARTS_DB_NAME);
    if MartsDatabase(s).Some? {
      assert b.Names() == a.Names();
    } else {
      var i := MartsDatabase(e.server).value;
      assert i != e.id ==> Bears(a.Names(), i, MARTS_DB_NAME);
    }
  }

  // ---------------------------------------------------------------- converged ---

  /** Every board is shown on the server, and every card holds its last definition. */
  ghost predicate Converged(s: Server, boards: seq<Board>, details: Connection) {
    exists database ::
      DatabaseIsLive(s, details, database) && BoardsAreShown(s, boards) && LastCardsAreLive(s.cards, boards, database)
  }

  /** The server without what the boards are about. */
  function ShelvesOf(t: Server, s: Server): Server {
    t.(cards := s.cards, dashboards := s.dashboards, nextDashcard := s.nextDashcard)
  }

  /**
   One run shows every board, when the card names that boards share are live. It deletes,
   archives and renames nothing on a shelf, rewrites only the objects the definitions' names
   find, creates only for names that find nothing, and keeps the id of every placement that
   was there.
   */
  lemma ConvergeLaw(s: Server, boards: seq<Board>, details: Connection)
    requires Valid(s) && WellNamed(boards) && SharedAreLive(s.cards.Index(), boards)
    ensures var t := Converge(s, boards, details);
            && Valid(t) && Converged(t, boards, details)
            && Frame(s.cards, t.cards, CardNames(boards)) && Frame(s.dashboards, t.dashboards, BoardNames(boards))
            && DashcardIdsKept(s, t, boards)
            && exists database :: OnlyMarts(s, ShelvesOf(t, s), database)
  {
    hide Shelf.Index, Frame, OnlyMarts, ConvergeBoards, EnsureMartsDatabase, MartsDatabase;
    hide BoardIsShown, IdsKept, SharedAreLive;
    var e := EnsureMartsDatabase(s, details);
    EnsureLaw(s, details);
    UntouchedByMarts(s, e.server, e.id);
    CardIndexIsSnapshot(e.server.cards);
    ConvergeBoardsLaw(e.server, boards, e.id);
    var t := Converge(s, boards, details);
    SameDatabases(e.server, t, details, e.id);
    assert ShelvesOf(t, s) == e.server;
    forall b | b in boards ensures IdsKept(PriorDashcards(s, b.name), PriorDashcards(t, b.name), s.nextDashcard) {
      assert PriorDashcards(e.server, b.name) == PriorDashcards(s, b.name);
    }
    assert DatabaseIsLive(t, details, e.id) && BoardsAreShown(t, boards) && LastCardsAreLive(t.cards, boards, e.id);
  }

  lemma SharedInMore(some: map<string, Id>, index: map<string, Id>, boards: seq<Board>)
    requires SharedAreLive(some, boards) && forall name :: name in some ==> name in index
    ensures SharedAreLive(index, boards)
  {
    hide SpecNames;
    forall i, j, name |
      (0 <= i < j < |boards| && name in SpecNames(boards[i].cards) && name in SpecNames(boards[j].cards))
      ensures name in index
    {
      assert name in some;
    }
  }

  /** Where no two boards share a card name, every card holds its own board's definition. */
  lemma DistinctCardsAreOwn(s: Server, boards: seq<Board>, details: Connection, b: Board)
    requires Valid(s) && Distinct(boards) && b in boards
    ensures SharedAreLive(s.cards.Index(), boards)
    ensures exists database ::
              DatabaseIsLive(Converge(s, boards, details), details, database) &&
              CardsAreLive(Converge(s, boards, details).cards, b.cards, database)
  {
    hide Shelf.Index, Frame, Converge, OnlyMarts, DatabaseIsLive, CardIsLive, BoardsAreShown;
    SharedInMore(map[], s.cards.Index(), boards);
    ConvergeLaw(s, boards, details);
    var t := Converge(s, boards, details);
    var database :| DatabaseIsLive(t, details, database) && BoardsAreShown(t, boards) &&
                    LastCardsAreLive(t.cards, boards, database);
    forall k | 0 <= k < |b.cards| ensures CardIsLive(t.cards, b.cards[k], database) {
      LastSpecIsOwn(boards, b, k);
    }
    assert CardsAreLive(t.cards, b.cards, database);
  }

  lemma UntouchedByMarts(s: Server, t: Server, database: Id)
    requires OnlyMarts(s, t, database)
    ensures t.cards == s.cards && t.dashboards == s.dashboards && t.nextDashcard == s.nextDashcard
  {
  }

  lemma SameDatabases(s: Server, t: Server, details: Connection, database: Id)
    requires s.databases == t.databases && DatabaseIsLive(s, details, database)
    ensures DatabaseIsLive(t, details, database)
  {
  }

  // --------------------------------------------------------------- second run ---

  lemma PutSame<T>(a: Shelf<T>, id: Id, name: string, body: T)
    requires id in a.items && a.items[id] == Item(name, a.items[id].archived, body)
    ensures a.Put(id, name, body) == a
  {
    assert a.items[id := Item(name, a.items[id].archived, body)] == a.items;
  }

  /** Cards whose names are all live: the ids are the snapshot's, and none is handed out. */
  lemma {:induction false} KnownCards(cards: Shelf<CardBody>, specs: seq<CardSpec>, database: Id,
                                      existing: map<string, Id>)
    requires Snapshot(existing, cards)
    requires forall k :: 0 <= k < |specs| ==> specs[k].name in existing
    ensures var p := UpsertCards(cards, specs, database, existing);
            p.cards.next == cards.next && forall k :: 0 <= k < |specs| ==> p.ids[k] == existing[specs[k].name]
  {
    if specs != [] {
      var n := |specs| - 1;
      assert forall k :: 0 <= k < n ==> specs[..n][k] == specs[k];
      KnownCards(cards, specs[..n], database, existing);
    }
  }

  /** The cards of distinct definitions are distinct, so each dashcard is its card's prior. */
  lemma IdsDiffer(cards: Shelf<CardBody>, specs: seq<CardSpec>, ids: seq<Id>, j: nat, k: nat)
    requires DistinctSpecs(specs) && IdsFound(cards, specs, ids) && j < k < |specs|
    ensures ids[j] != ids[k]
  {
    hide Shelf.Index;
    NamesDiffer(specs, j, k);
    IndexBears(cards, specs[j].name);
    IndexBears(cards, specs[k].name);
  }

  ghost predicate CardsDiffer(dashcards: seq<Dashcard>) {
    forall j, k :: 0 <= j < k < |dashcards| ==> dashcards[j].card != dashcards[k].card
  }

  lemma {:induction false} PriorIsItself(dashcards: seq<Dashcard>, k: nat)
    requires CardsDiffer(dashcards) && k < |dashcards|
    ensures dashcards[k].card in ByCard(dashcards) && ByCard(dashcards)[dashcards[k].card] == dashcards[k].id
  {
    var n := |dashcards| - 1;
    if k < n { PriorIsItself(dashcards[..n], k); }
  }

  lemma {:induction false} SettleSame(wanted: seq<Wanted>, dashcards: seq<Dashcard>, next: Id)
    requires |wanted| == |dashcards|
    requires forall k :: 0 <= k < |wanted| ==>
               wanted[k] == Wanted(dashcards[k].id, dashcards[k].card, dashcards[k].place) &&
                 dashcards[k].settings == ""
    ensures Settle(wanted, next) == Settled(dashcards, next)
  {
    if wanted != [] {
      var n := |wanted| - 1;
      SettleSame(wanted[..n], dashcards[..n], next);
      assert dashcards == dashcards[..n] + [dashcards[n]];
    }
  }

  lemma DashboardAgain(s: Server, board: Board, ids: seq<Id>)
    requires forall j, k :: 0 <= j < k < |ids| ==> ids[j] != ids[k]
    requires |ids| == |board.cards| && DashboardIsLive(s, board, ids)
    ensures UpsertDashboard(s, board, ids) == s
  {
    hide Shelf.Index, ByCard, Settle;
    var dashcards := PriorDashcards(s, board.name);
    var wanted := WantedDashcards(ByCard(dashcards), board.cards, ids);
    forall k | 0 <= k < |wanted| ensures wanted[k] == Wanted(dashcards[k].id, dashcards[k].card, dashcards[k].place) {
      PriorIsItself(dashcards, k);
    }
    SettleSame(wanted, dashcards, s.nextDashcard);
    PutSame(s.dashboards, s.dashboards.Index()[board.name], board.name, DashboardBody(board.description, dashcards));
  }

  /** On a server that shows every board, converging them again touches nothing but cards. */
  lemma {:induction false} BoardsAgain(s: Server, boards: seq<Board>, database: Id)
    requires WellNamed(boards) && BoardsAreShown(s, boards) && Snapshot(s.cards.Index(), s.cards)
    ensures var t := ConvergeBoards(s, boards, database, s.cards.Index());
            t == s.(cards := t.cards) && t.cards.next == s.cards.next
  {
    hide Shelf.Index, IdsFound, DashboardIsLive, UpsertDashboard, UpsertCards;
    if boards != [] {
      var init, board := boards[..|boards| - 1], boards[|boards| - 1];
      var existing := s.cards.Index();
      BoardsAgain(s, init, database);
      var mid := ConvergeBoards(s, init, database, existing);
      assert BoardIsShown(s, board);
      var ids :| IdsFound(s.cards, board.cards, ids) && DashboardIsLive(s, board, ids);
      var placed := UpsertCards(mid.cards, board.cards, database, existing);
      FoundAgain(s.cards, mid.cards, board.cards, database, ids);
      SameDashboards(s, mid.(cards := placed.cards), board, ids);
      DashboardAgain(mid.(cards := placed.cards), board, ids);
    }
  }

  lemma FoundAgain(a: Shelf<CardBody>, b: Shelf<CardBody>, specs: seq<CardSpec>, database: Id, ids: seq<Id>)
    requires Snapshot(a.Index(), b) && DistinctSpecs(specs) && IdsFound(a, specs, ids)
    ensures var p := UpsertCards(b, specs, database, a.Index()); p.ids == ids && p.cards.next == b.next
    ensures |ids| == |specs| && forall j, k :: 0 <= j < k < |ids| ==> ids[j] != ids[k]
  {
    hide Shelf.Index, UpsertCards;
    assert forall k :: 0 <= k < |specs| ==> Lookup(a.Index(), specs[k].name) == Some(ids[k]);
    KnownCards(b, specs, database, a.Index());
    forall j, k | 0 <= j < k < |ids| ensures ids[j] != ids[k] {
      IdsDiffer(a, specs, ids, j, k);
    }
  }

  lemma SameDashboards(s: Server, t: Server, board: Board, ids: seq<Id>)
    requires s.dashboards == t.dashboards && DashboardIsLive(s, board, ids)
    ensures DashboardIsLive(t, board, ids)
  {
  }

  /** Cards that hold their last definitions before and after a run are the same cards. */
  lemma SameCards(a: Shelf<CardBody>, b: Shelf<CardBody>, boards: seq<Board>, database: Id)
    requires Frame(a, b, CardNames(boards)) && a.next == b.next
    requires LastCardsAreLive(a, boards, database) && LastCardsAreLive(b, boards, database)
    ensures a == b
  {
    hide Shelf.Index;
    forall i | i in a.items ensures i in b.items && b.items[i] == a.items[i] {
      assert Kept(a, b, i, CardNames(boards));
      var name := a.items[i].name;
      LastSpecIs(boards, name);
      if name in CardNames(boards) {
        assert CardIsLive(a, LastSpec(boards, name).value, database);
        assert CardIsLive(b, LastSpec(boards, name).value, database);
      }
    }
    forall i | i in b.items ensures i in a.items {
      LastSpecIs(boards, b.items[i].name);
      assert i !in a.items ==> Created(a, b, i, CardNames(boards));
    }
    assert a.items == b.items;
  }

  lemma CardNamesAreLive(cards: Shelf<CardBody>, boards: seq<Board>, database: Id)
    requires LastCardsAreLive(cards, boards, database)
    ensures SharedAreLive(cards.Index(), boards)
  {
    hide Shelf.Index;
    forall i, j, name |
      (0 <= i < j < |boards| && name in SpecNames(boards[i].cards) && name in SpecNames(boards[j].cards))
      ensures name in cards.Index()
    {
      BoardNameIn(boards, boards[i]);
      LastSpecIs(boards, name);
    }
  }

  /** Converging a converged server changes nothing: no id, no field, no counter. */
  lemma ConvergedIsFixed(s: Server, boards: seq<Board>, details: Connection)
    requires Valid(s) && WellNamed(boards) && Converged(s, boards, details)
    ensures Converge(s, boards, details) == s
  {
    hide Shelf.Index, ConvergeBoards, MartsDatabase, BoardIsShown, LastCardsAreLive, SharedAreLive, Frame;
    var database :| DatabaseIsLive(s, details, database) && BoardsAreShown(s, boards) &&
                    LastCardsAreLive(s.cards, boards, database);
    PutSame(s.databases, database, MARTS_DB_NAME, details);
    CardIndexIsSnapshot(s.cards);
    CardNamesAreLive(s.cards, boards, database);
    ConvergeBoardsLaw(s, boards, database);
    BoardsAgain(s, boards, database);
    SameCards(s.cards, ConvergeBoards(s, boards, database, s.cards.Index()).cards, boards, database);
  }
}
