/**
 Reading the boards back after a run: exactly when `verify` is green, and what it does not
 notice.
 */
module BoardVerify {
  import opened Base
  import opened MetabaseServer
  import opened MetabaseBoards
  import opened BoardLaws
  import opened BoardConvergence
  import opened SharedCards

  // ------------------------------------------------------- the cards' database ---

  ghost predicate OnDatabase(cards: Shelf<CardBody>, id: Id, database: Id) {
    id in cards.items && cards.items[id].body.database == Some(database)
  }

  /** Cards that were on the database still are. */
  ghost predicate StayOn(a: Shelf<CardBody>, b: Shelf<CardBody>, database: Id) {
    forall i :: OnDatabase(a, i, database) ==> OnDatabase(b, i, database)
  }

  lemma {:induction false} CardsAreOn(cards: Shelf<CardBody>, specs: seq<CardSpec>, database: Id,
                                      existing: map<string, Id>)
    requires Snapshot(existing, cards)
    ensures var p := UpsertCards(cards, specs, database, existing);
            && StayOn(cards, p.cards, database)
            && forall k :: 0 <= k < |specs| ==> OnDatabase(p.cards, p.ids[k], database)
  {
    if specs != [] { CardsAreOn(cards, specs[..|specs| - 1], database, existing); }
  }

  /** A board's dashboard is there and shows as many cards as the board has, all on the database. */
  ghost predicate IsOn(s: Server, board: Board, database: Id) {
    var dashcards := PriorDashcards(s, board.name);
    && board.name in s.dashboards.Index() && |dashcards| == |board.cards|
    && forall k :: 0 <= k < |dashcards| ==> OnDatabase(s.cards, dashcards[k].card, database)
  }

  lemma BoardIsOn(s: Server, board: Board, database: Id, existing: map<string, Id>)
    requires Snapshot(existing, s.cards) && s.dashboards.Valid()
    ensures var placed := UpsertCards(s.cards, board.cards, database, existing);
            var t := UpsertDashboard(s.(cards := placed.cards), board, placed.ids);
            IsOn(t, board, database) && StayOn(s.cards, t.cards, database)
  {
    hide Shelf.Index, Frame, StayOn, OnDatabase, IdsKept, UpsertCards, UpsertDashboard;
    var placed := UpsertCards(s.cards, board.cards, database, existing);
    CardsAreOn(s.cards, board.cards, database, existing);
    UpsertDashboardLaw(s.(cards := placed.cards), board, placed.ids);
  }

  lemma StaysOn(s: Server, t: Server, names: set<string>, b: Board, database: Id)
    requires IsOn(s, b, database) && StayOn(s.cards, t.cards, database)
    requires Frame(s.dashboards, t.dashboards, names) && b.name !in names
    ensures IsOn(t, b, database)
  {
    hide Shelf.Index, Frame, OnDatabase, PriorDashcards;
    PriorStays(s, t, names, b.name);
    KeptIndex(s.dashboards, t.dashboards, names, b.name);
  }

  lemma {:induction false} BoardsAreOn(s: Server, boards: seq<Board>, database: Id, existing: map<string, Id>)
    requires Holds(s.cards, existing) && Snapshot(existing, s.cards) && s.dashboards.Valid() && WellNamed(boards)
    ensures var t := ConvergeBoards(s, boards, database, existing);
            forall b :: b in boards ==> IsOn(t, b, database)
  {
    hide Shelf.Index, Frame, Holds, Grown, IsOn, StayOn, Traced, ShownByName, ShownApart, UpsertCards, UpsertDashboard;
    if boards != [] {
      var init, board := boards[..|boards| - 1], boards[|boards| - 1];
      var mid, t := ConvergeBoards(s, init, database, existing), ConvergeBoards(s, boards, database, existing);
      BoardsAreOn(s, init, database, existing);
      StaleBoards(s, init, database, existing);
      StaleBoard(mid, board, database, existing);
      BoardIsOn(mid, board, database, existing);
      forall b | b in boards ensures IsOn(t, b, database) {
        if b in init {
          BoardNameIn(init, b);
          StaysOn(mid, t, {board.name}, b, database);
        }
      }
    }
  }

  // ------------------------------------------------------------------- verify ---

  /** At most one connection bears the warehouse's name. */
  ghost predicate OneMarts(s: Server) {
    var names := s.databases.Names();
    forall i: Id, j: Id :: Bears(names, i, MARTS_DB_NAME) && Bears(names, j, MARTS_DB_NAME) ==> i == j
  }

  predicate NoClaims(specs: seq<CardSpec>) {
    forall k :: 0 <= k < |specs| ==> !ClaimsModelQuality(specs[k].name)
  }

  /** The board has a card, and the query of the card it shows first returns rows. */
  ghost predicate FirstCardAnswers(s: Server, b: Board, answering: set<Id>) {
    b.cards != [] && CardAt(s, b, 0).Some? && CardAt(s, b, 0).value in answering
  }

  predicate NamesMetric(name: string, i: nat) {
    i + 6 <= |name| && (name[i..i + 6] == "KPI-09" || name[i..i + 6] == "KPI-10")
  }

  /** What a card may not claim, letter by letter. */
  lemma ClaimsIff(name: string)
    ensures ClaimsModelQuality(name) <==> exists i :: NamesMetric(name, i)
  {
    if i: nat :| i <= |name| && OccursAt(name, "KPI-09", i) {
      assert NamesMetric(name, i);
    }
    if i: nat :| i <= |name| && OccursAt(name, "KPI-10", i) {
      assert NamesMetric(name, i);
    }
    if i: nat :| NamesMetric(name, i) {
      assert OccursAt(name, "KPI-09", i) || OccursAt(name, "KPI-10", i);
    }
  }

  /** How many of its three checks a shown board fails; without a card there is none to ask. */
  lemma ShownBoardFails(s: Server, b: Board, database: Id, marts: Id, answering: set<Id>)
    requires ShownByName(s, b) && IsOn(s, b, database)
    ensures VerifyBoard(s, b, marts, answering) ==
            if b.cards == [] then Err(NoFirstCard(b.name))
            else Ok((if database == marts then 0 else 1) + (if NoClaims(b.cards) then 0 else 1) +
                    (if FirstCardAnswers(s, b, answering) then 0 else 1))
  {
    hide Shelf.Index, ClaimsModelQuality;
    var dashcards := PriorDashcards(s, b.name);
    forall k | 0 <= k < |dashcards|
      ensures dashcards[k].card in s.cards.items
      ensures WrongDatabase(s, dashcards[k], marts) <==> database != marts
      ensures Offends(s, dashcards[k]) <==> ClaimsModelQuality(b.cards[k].name)
    {
      assert OnDatabase(s.cards, dashcards[k].card, database);
      assert Bearing(s.cards, CardAt(s, b, k).value, b.cards[k].name);
    }
    if b.cards != [] {
      assert database != marts ==> WrongDatabase(s, dashcards[0], marts);
      if !NoClaims(b.cards) {
        var k :| 0 <= k < |b.cards| && ClaimsModelQuality(b.cards[k].name);
        assert Offends(s, dashcards[k]);
      }
    }
  }

  lemma {:induction false} GreenIffEachIs(s: Server, boards: seq<Board>, marts: Id, answering: set<Id>)
    ensures VerifyBoards(s, boards, marts, answering) == Ok(0) <==>
            forall b :: b in boards ==> VerifyBoard(s, b, marts, answering) == Ok(0)
  {
    hide VerifyBoard;
    if boards != [] {
      var init, last := boards[..|boards| - 1], boards[|boards| - 1];
      assert boards == init + [last];
      GreenIffEachIs(s, init, marts, answering);
    }
  }

  /** Of what is known of a card: it is on the database if on any, and claims no metric. */
  ghost predicate CardIsFine(s: Server, dc: Dashcard, marts: Id) {
    dc.card in s.cards.items ==>
      && s.cards.items[dc.card].body.database in {Some(marts), None}
      && forall i: nat :: !NamesMetric(s.cards.items[dc.card].name, i)
  }

  /** The board is there with as many cards as defined, all of them fine, and its first one answers. */
  ghost predicate ReadsRight(s: Server, b: Board, marts: Id, answering: set<Id>) {
    var dashcards := PriorDashcards(s, b.name);
    && b.name in s.dashboards.Index() && |dashcards| == |b.cards| > 0
    && dashcards[0].card in s.cards.items && dashcards[0].card in answering
    && forall k :: 0 <= k < |dashcards| ==> CardIsFine(s, dashcards[k], marts)
  }

  lemma FineIff(s: Server, dc: Dashcard, marts: Id)
    ensures CardIsFine(s, dc, marts) <==> !WrongDatabase(s, dc, marts) && !Offends(s, dc)
  {
    if dc.card in s.cards.items { ClaimsIff(s.cards.items[dc.card].name); }
  }

  lemma ReadsRightIff(s: Server, b: Board, marts: Id, answering: set<Id>)
    ensures VerifyBoard(s, b, marts, answering) == Ok(0) <==> ReadsRight(s, b, marts, answering)
  {
    hide Shelf.Index, WrongDatabase, Offends, CardIsFine, PriorDashcards;
    var dashcards := PriorDashcards(s, b.name);
    forall k | 0 <= k < |dashcards|
      ensures CardIsFine(s, dashcards[k], marts) <==>
              !WrongDatabase(s, dashcards[k], marts) && !Offends(s, dashcards[k])
    {
      FineIff(s, dashcards[k], marts);
    }
  }

  /**
   On any server, just converged or not, `verify` reports no failure exactly when a connection
   has the name and every board reads right on the last such connection.
   */
  lemma GreenIff(s: Server, boards: seq<Board>, answering: set<Id>)
    ensures Verify(s, boards, answering) == Ok(0) <==>
            "marts" in s.databases.Index() &&
            forall b :: b in boards ==> ReadsRight(s, b, s.databases.Index()["marts"], answering)
  {
    hide Shelf.Index, VerifyBoard, VerifyBoards, ReadsRight;
    if MARTS_DB_NAME in s.databases.Index() {
      var marts := s.databases.Index()[MARTS_DB_NAME];
      GreenIffEachIs(s, boards, marts, answering);
      forall b ensures VerifyBoard(s, b, marts, answering) == Ok(0) <==> ReadsRight(s, b, marts, answering) {
        ReadsRightIff(s, b, marts, answering);
      }
    }
  }

  /** Without the connection `verify` counts one failure; a board that is absent or of another size counts one. */
  lemma {:induction false} MissingBoardsFail(s: Server, boards: seq<Board>, marts: Id, answering: set<Id>)
    requires forall b :: b in boards ==>
               b.name !in s.dashboards.Index() || |PriorDashcards(s, b.name)| != |b.cards|
    ensures VerifyBoards(s, boards, marts, answering) == Ok(|boards|)
    ensures "marts" !in s.databases.Index() ==> Verify(s, boards, answering) == Ok(1)
  {
    hide Shelf.Index, PriorDashcards;
    if boards != [] {
      MissingBoardsFail(s, boards[..|boards| - 1], marts, answering);
      assert boards[|boards| - 1] in boards;
    }
  }

  /** The first and the last of that name are the same exactly when there is one. */
  lemma FirstIsLastIff(s: Server, database: Id)
    requires s.databases.Valid() && MartsDatabase(s) == Some(database)
    ensures MARTS_DB_NAME in s.databases.Index()
    ensures s.databases.Index()[MARTS_DB_NAME] == database <==> OneMarts(s)
  {
    hide FirstUpTo, IndexUpTo;
    var names := s.databases.Names();
    FirstIsFirst(names, s.databases.next, MARTS_DB_NAME);
    IndexIsLast(names, s.databases.next, MARTS_DB_NAME);
    assert Bears(names, database, MARTS_DB_NAME);
    assert Bears(names, s.databases.Index()[MARTS_DB_NAME], MARTS_DB_NAME);
  }

  /** The run neither adds a second connection of that name nor takes one away. */
  lemma OneMartsStays(s: Server, e: Server, details: Connection, database: Id)
    requires Valid(s) && OnlyMarts(s, e, database) && DatabaseIsLive(e, details, database) && Valid(e)
    ensures OneMarts(e) <==> OneMarts(s)
  {
    hide FirstUpTo, IndexUpTo;
    var a, b := s.databases.Names(), e.databases.Names();
    MartsDatabaseExists(s);
    FirstIsFirst(a, s.databases.next, MARTS_DB_NAME);
    if MartsDatabase(s).Some? {
      assert a == b by {
        forall i ensures i in a <==> i in b {
          if i in a && i != database { assert i in e.databases.items; }
        }
      }
    } else {
      forall i: Id, j: Id | Bears(b, i, MARTS_DB_NAME) && Bears(b, j, MARTS_DB_NAME) ensures i == j {
        assert i != database ==> Bears(a, i, MARTS_DB_NAME);
        assert j != database ==> Bears(a, j, MARTS_DB_NAME);
      }
      forall i: Id ensures !Bears(a, i, MARTS_DB_NAME) {
        assert i in s.databases.items ==> i < s.databases.next;
      }
    }
  }

  /**
   After a run over any boards, `verify` reports no failure exactly when one connection bears
   the warehouse's name, every board has a card, no card name claims KPI-09 or KPI-10, and
   the first card that each board shows returns rows. Two connections of that name are
   converged to the first and checked against the last, so then it can never be green.
   */
  lemma VerifyIsGreenIff(s: Server, boards: seq<Board>, details: Connection, answering: set<Id>)
    requires Valid(s) && WellNamed(boards) && boards != []
    ensures var t := Converge(s, boards, details);
            Verify(t, boards, answering) == Ok(0) <==>
            OneMarts(s) && forall b :: b in boards ==> NoClaims(b.cards) && FirstCardAnswers(t, b, answering)
  {
    hide Shelf.Index, Converge, ShownByName, IsOn, OneMarts, NoClaims, FirstCardAnswers, VerifyBoard, VerifyBoards;
    var t := Converge(s, boards, details);
    var database := AfterRun(s, boards, details);
    var marts := t.databases.Index()[MARTS_DB_NAME];
    GreenIffEachIs(t, boards, marts, answering);
    forall b | b in boards
      ensures VerifyBoard(t, b, marts, answering) == Ok(0) <==>
              database == marts && NoClaims(b.cards) && FirstCardAnswers(t, b, answering)
    {
      ShownBoardFails(t, b, database, marts, answering);
      AnswersHasCard(t, b, answering);
    }
    assert boards[0] in boards;
  }

  lemma AnswersHasCard(s: Server, b: Board, answering: set<Id>)
    ensures FirstCardAnswers(s, b, answering) ==> b.cards != []
  {
  }

  /** What a run leaves for `verify` to read: every board shown, its cards on the first connection. */
  lemma AfterRun(s: Server, boards: seq<Board>, details: Connection) returns (database: Id)
    requires Valid(s) && WellNamed(boards)
    ensures var t := Converge(s, boards, details);
            && MARTS_DB_NAME in t.databases.Index()
            && (t.databases.Index()[MARTS_DB_NAME] == database <==> OneMarts(s))
            && forall b :: b in boards ==> ShownByName(t, b) && IsOn(t, b, database)
  {
    hide Shelf.Index, Frame, OnlyMarts, ConvergeBoards, EnsureMartsDatabase, MartsDatabase, Holds, Grown, Traced;
    hide Apart, ShownByName, IsOn, OneMarts;
    var e := EnsureMartsDatabase(s, details);
    database := e.id;
    EnsureLaw(s, details);
    UntouchedByMarts(s, e.server, e.id);
    OneMartsStays(s, e.server, details, e.id);
    CardIndexIsSnapshot(e.server.cards);
    IndexHolds(e.server.cards);
    StaleBoards(e.server, boards, e.id, e.server.cards.Index());
    BoardsAreOn(e.server, boards, e.id, e.server.cards.Index());
    var t := Converge(s, boards, details);
    SameDatabases(e.server, t, details, e.id);
    FirstIsLastIff(t, e.id);
    SameOneMarts(e.server, t);
  }

  // ------------------------------------------------------------ how many fail ---

  ghost function Claiming(boards: seq<Board>): set<nat> {
    set i: nat | i < |boards| && !NoClaims(boards[i].cards)
  }

  ghost function Silent(t: Server, boards: seq<Board>, answering: set<Id>): set<nat> {
    set i: nat | i < |boards| && !FirstCardAnswers(t, boards[i], answering)
  }

  ghost predicate EachHasCards(boards: seq<Board>) {
    forall b :: b in boards ==> b.cards != []
  }

  lemma OneMoreClaims(boards: seq<Board>)
    requires boards != []
    ensures var n := |boards| - 1;
            |Claiming(boards)| == |Claiming(boards[..n])| + if NoClaims(boards[n].cards) then 0 else 1
  {
    hide NoClaims;
    var n := |boards| - 1;
    assert Claiming(boards) == Claiming(boards[..n]) + if NoClaims(boards[n].cards) then {} else {n};
  }

  lemma OneMoreSilent(t: Server, boards: seq<Board>, answering: set<Id>)
    requires boards != []
    ensures var n := |boards| - 1;
            |Silent(t, boards, answering)| ==
            |Silent(t, boards[..n], answering)| + if FirstCardAnswers(t, boards[n], answering) then 0 else 1
  {
    hide FirstCardAnswers;
    var n := |boards| - 1;
    assert Silent(t, boards, answering) ==
           Silent(t, boards[..n], answering) + if FirstCardAnswers(t, boards[n], answering) then {} else {n};
  }

  lemma {:induction false} FailuresAre(t: Server, boards: seq<Board>, database: Id, marts: Id, answering: set<Id>)
    requires forall b :: b in boards ==> ShownByName(t, b) && IsOn(t, b, database)
    ensures var r := VerifyBoards(t, boards, marts, answering);
            && (r.Ok? <==> EachHasCards(boards))
            && (r.Ok? ==> r.value == (if database == marts then 0 else |boards|) + |Claiming(boards)| +
                                     |Silent(t, boards, answering)|)
  {
    hide ShownByName, IsOn, NoClaims, FirstCardAnswers, VerifyBoard;
    if boards == [] {
      assert Claiming(boards) == {} && Silent(t, boards, answering) == {};
    } else {
      hide Claiming, Silent;
      var init, last := boards[..|boards| - 1], boards[|boards| - 1];
      assert boards == init + [last];
      FailuresAre(t, init, database, marts, answering);
      ShownBoardFails(t, last, database, marts, answering);
      OneMoreClaims(boards);
      OneMoreSilent(t, boards, answering);
    }
  }

  /**
   How many failures `verify` counts after a run: each board that claims a model metric, each
   whose first card returns nothing, and every board if two connections bear the name. It
   crashes on a board without cards instead.
   */
  lemma VerifyCounts(s: Server, boards: seq<Board>, details: Connection, answering: set<Id>)
    requires Valid(s) && WellNamed(boards)
    ensures var t := Converge(s, boards, details);
            var r := Verify(t, boards, answering);
            && (r.Err? <==> exists b :: b in boards && b.cards == [])
            && (r.Ok? ==> r.value == (if OneMarts(s) then 0 else |boards|) + |Claiming(boards)| +
                                     |Silent(t, boards, answering)|)
  {
    hide Shelf.Index, Converge, ShownByName, IsOn, OneMarts, VerifyBoards, Claiming, Silent;
    var t := Converge(s, boards, details);
    var database := AfterRun(s, boards, details);
    FailuresAre(t, boards, database, t.databases.Index()[MARTS_DB_NAME], answering);
  }

  lemma SameOneMarts(s: Server, t: Server)
    requires s.databases == t.databases
    ensures OneMarts(s) <==> OneMarts(t)
  {
  }

  /** Where shared names are live, the card a board shows first is the one its name finds. */
  lemma FirstCardIsFound(s: Server, boards: seq<Board>, details: Connection, b: Board, answering: set<Id>)
    requires Valid(s) && WellNamed(boards) && SharedAreLive(s.cards.Index(), boards) && b in boards
    ensures var t := Converge(s, boards, details);
            FirstCardAnswers(t, b, answering) <==>
            && b.cards != [] && b.cards[0].name in t.cards.Index()
            && t.cards.Index()[b.cards[0].name] in answering
  {
    hide Shelf.Index, Converge, CardAt, SharedAreLive, WellNamed;
    if b.cards != [] { AfterConvergeIsFound(s, boards, details, b, 0); }
  }

  /**
   What `verify` does not notice: on a server that lacks a card two boards share it is green
   under the same conditions, although the next run changes the server.
   */
  lemma GreenIsNotSettled(s: Server, boards: seq<Board>, details: Connection, answering: set<Id>)
    requires Valid(s) && WellNamed(boards) && !SharedAreLive(s.cards.Index(), boards)
    requires OneMarts(s) && forall b :: b in boards ==> NoClaims(b.cards)
    requires forall b :: b in boards ==> FirstCardAnswers(Converge(s, boards, details), b, answering)
    ensures var t := Converge(s, boards, details);
            Verify(t, boards, answering) == Ok(0) && Converge(t, boards, details) != t
  {
    hide Shelf.Index, Converge, WellNamed, OneMarts, NoClaims, FirstCardAnswers, Verify;
    assert boards != [];
    VerifyIsGreenIff(s, boards, details, answering);
    ConvergeIsIdempotentIff(s, boards, details);
  }
}
