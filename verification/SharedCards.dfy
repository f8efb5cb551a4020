/**
 Cards that several boards use. The run looks names up in a snapshot it took before it wrote
 anything, so boards that share a card the server does not have each get their own, and the
 next run moves them to one: converging twice is converging once exactly when every shared
 name was live before.
 */
module SharedCards {
  import opened Base
  import opened MetabaseServer
  import opened MetabaseBoards
  import opened BoardLaws
  import opened BoardConvergence

  // -------------------------------------------------------- a snapshot gone stale ---

  ghost predicate Bearing(cards: Shelf<CardBody>, id: Id, name: string) {
    id in cards.items && cards.items[id].name == name && !cards.items[id].archived
  }

  /** What the snapshot found is still there under its name; it may miss newer cards. */
  ghost predicate Holds(cards: Shelf<CardBody>, existing: map<string, Id>) {
    cards.Valid() && forall name :: name in existing ==> Bearing(cards, existing[name], name)
  }

  ghost predicate Grown(a: Shelf<CardBody>, b: Shelf<CardBody>) {
    && a.next <= b.next
    && forall i :: i in a.items ==>
         i in b.items && b.items[i].name == a.items[i].name && b.items[i].archived == a.items[i].archived
  }

  /** The id the snapshot has for a name, or one handed out since. */
  ghost predicate FoundOrNew(existing: map<string, Id>, next: Id, name: string, id: Id) {
    if name in existing then id == existing[name] else next <= id
  }

  lemma StaleUpsert(a: Shelf<CardBody>, name: string, body: CardBody, existing: map<string, Id>)
    requires Holds(a, existing)
    ensures Lookup(existing, name).Some? ==> Lookup(existing, name).value in a.items
    ensures var u := Upsert(a, Lookup(existing, name), name, body);
            && Holds(u.shelf, existing) && Grown(a, u.shelf) && Bearing(u.shelf, u.id, name)
            && u.id == (if name in existing then existing[name] else a.next)
  {
    assert name in existing ==> Bearing(a, existing[name], name);
  }

  lemma GrownThen(a: Shelf<CardBody>, b: Shelf<CardBody>, c: Shelf<CardBody>)
    requires Grown(a, b) && Grown(b, c)
    ensures Grown(a, c)
  {
  }

  lemma {:induction false} StaleCards(cards: Shelf<CardBody>, specs: seq<CardSpec>, database: Id,
                                      existing: map<string, Id>)
    requires Holds(cards, existing) && Snapshot(existing, cards)
    ensures var p := UpsertCards(cards, specs, database, existing);
            && Holds(p.cards, existing) && Grown(cards, p.cards)
            && (forall k :: 0 <= k < |specs| ==> Bearing(p.cards, p.ids[k], specs[k].name))
            && (forall k :: 0 <= k < |specs| ==> FoundOrNew(existing, cards.next, specs[k].name, p.ids[k]))
  {
    hide Holds, Grown, Bearing;
    if specs != [] {
      var n := |specs| - 1;
      var before := UpsertCards(cards, specs[..n], database, existing);
      StaleCards(cards, specs[..n], database, existing);
      StaleUpsert(before.cards, specs[n].name, CardPayload(specs[n], database), existing);
      var p := UpsertCards(cards, specs, database, existing);
      GrownThen(cards, before.cards, p.cards);
      forall k | 0 <= k < |specs|
        ensures Bearing(p.cards, p.ids[k], specs[k].name) && FoundOrNew(existing, cards.next, specs[k].name, p.ids[k])
      {
        if k < n {
          assert specs[..n][k] == specs[k];
          BearingStays(before.cards, p.cards, before.ids[k], specs[k].name);
        } else {
          NextGrows(cards, before.cards);
        }
      }
    } else {
      NothingGrown(cards);
    }
  }

  lemma BearingStays(a: Shelf<CardBody>, b: Shelf<CardBody>, id: Id, name: string)
    requires Grown(a, b) && Bearing(a, id, name)
    ensures Bearing(b, id, name)
  {
  }

  lemma NextGrows(a: Shelf<CardBody>, b: Shelf<CardBody>)
    requires Grown(a, b)
    ensures a.next <= b.next
  {
  }

  lemma NothingGrown(a: Shelf<CardBody>)
    ensures Grown(a, a)
  {
  }

  /** The card that a board's dashboard shows for its k-th definition. */
  function CardAt(s: Server, board: Board, k: nat): Option<Id> {
    var dashcards := PriorDashcards(s, board.name);
    if k < |dashcards| then Some(dashcards[k].card) else None
  }

  /** Each definition of a board is shown as some card of its name. */
  ghost predicate ShownByName(s: Server, board: Board) {
    forall k :: 0 <= k < |board.cards| ==>
      CardAt(s, board, k).Some? && Bearing(s.cards, CardAt(s, board, k).value, board.cards[k].name)
  }

  /**
   Where a board's dashcards come from: cards by the snapshot, ids by what was placed before,
   places by the definition, and settings from nowhere.
   */
  ghost predicate Traced(s: Server, t: Server, board: Board, existing: map<string, Id>) {
    var before, after := PriorDashcards(s, board.name), PriorDashcards(t, board.name);
    && |after| == |board.cards| && IdsKept(before, after, s.nextDashcard)
    && (forall k :: 0 <= k < |after| ==> FoundOrNew(existing, s.cards.next, board.cards[k].name, after[k].card))
    && (forall k :: 0 <= k < |after| ==> after[k].place == board.cards[k].place && after[k].settings == "")
  }

  lemma StaleBoard(s: Server, board: Board, database: Id, existing: map<string, Id>)
    requires Holds(s.cards, existing) && Snapshot(existing, s.cards) && s.dashboards.Valid()
    ensures var placed := UpsertCards(s.cards, board.cards, database, existing);
            var t := UpsertDashboard(s.(cards := placed.cards), board, placed.ids);
            && Holds(t.cards, existing) && Grown(s.cards, t.cards) && s.nextDashcard <= t.nextDashcard
            && t.databases == s.databases && t.dashboards.Valid() && Frame(s.dashboards, t.dashboards, {board.name})
            && ShownByName(t, board) && Traced(s, t, board, existing)
  {
    hide Shelf.Index, Frame, Holds, Grown, IdsKept, FoundOrNew, UpsertCards, UpsertDashboard;
    var placed := UpsertCards(s.cards, board.cards, database, existing);
    StaleCards(s.cards, board.cards, database, existing);
    UpsertDashboardLaw(s.(cards := placed.cards), board, placed.ids);
    assert PriorDashcards(s.(cards := placed.cards), board.name) == PriorDashcards(s, board.name);
  }

  /** Two boards that share a name the snapshot does not know show different cards for it. */
  ghost predicate Apart(s: Server, boards: seq<Board>, existing: map<string, Id>) {
    forall i, j, k, l ::
      (0 <= i < j < |boards| && 0 <= k < |boards[i].cards| && 0 <= l < |boards[j].cards| &&
       boards[i].cards[k].name == boards[j].cards[l].name && boards[i].cards[k].name !in existing) ==>
        CardAt(s, boards[i], k) != CardAt(s, boards[j], l)
  }

  ghost predicate ShownApart(s: Server, boards: seq<Board>, existing: map<string, Id>) {
    Apart(s, boards, existing) && forall b :: b in boards ==> ShownByName(s, b)
  }

  lemma {:induction false} StaleBoards(s: Server, boards: seq<Board>, database: Id, existing: map<string, Id>)
    requires Holds(s.cards, existing) && Snapshot(existing, s.cards) && s.dashboards.Valid() && WellNamed(boards)
    ensures var t := ConvergeBoards(s, boards, database, existing);
            && Holds(t.cards, existing) && Grown(s.cards, t.cards) && s.nextDashcard <= t.nextDashcard
            && t.databases == s.databases && t.dashboards.Valid()
            && Frame(s.dashboards, t.dashboards, BoardNames(boards))
            && ShownApart(t, boards, existing) && forall b :: b in boards ==> Traced(s, t, b, existing)
  {
    hide Holds, Frame, Grown, UpsertCards, UpsertDashboard, ShownApart, ShownByName, Traced;
    if boards == [] {
      NothingShown(s, existing);
      NothingGrown(s.cards);
      FrameSame(s.dashboards);
    } else {
      var init, board := boards[..|boards| - 1], boards[|boards| - 1];
      var mid, t := ConvergeBoards(s, init, database, existing), ConvergeBoards(s, boards, database, existing);
      StaleBoards(s, init, database, existing);
      StaleBoard(mid, board, database, existing);
      GrownThen(s.cards, mid.cards, t.cards);
      NextGrows(s.cards, mid.cards);
      FrameOfValid(s, mid, t, init, board);
      OneMoreApart(mid, t, boards, existing);
      PriorStays(s, mid, BoardNames(init), board.name);
      forall b | b in boards ensures Traced(s, t, b, existing) {
        if b in init {
          BoardNameIn(init, b);
          PriorStays(mid, t, {board.name}, b.name);
          TracedStays(s, mid, t, b, existing);
        } else {
          TracedThen(s, mid, t, board, existing);
        }
      }
    }
  }

  lemma FrameOfValid(s: Server, mid: Server, t: Server, init: seq<Board>, board: Board)
    requires s.dashboards.Valid() && Frame(s.dashboards, mid.dashboards, BoardNames(init))
    requires Frame(mid.dashboards, t.dashboards, {board.name})
    ensures Frame(s.dashboards, t.dashboards, BoardNames(init) + {board.name})
  {
    hide Frame;
    FrameThen(s.dashboards, mid.dashboards, t.dashboards, BoardNames(init), {board.name});
  }

  lemma TracedStays(s: Server, mid: Server, t: Server, b: Board, existing: map<string, Id>)
    requires Traced(s, mid, b, existing) && PriorDashcards(t, b.name) == PriorDashcards(mid, b.name)
    ensures Traced(s, t, b, existing)
  {
    hide PriorDashcards;
  }

  lemma TracedThen(s: Server, mid: Server, t: Server, b: Board, existing: map<string, Id>)
    requires Traced(mid, t, b, existing) && PriorDashcards(mid, b.name) == PriorDashcards(s, b.name)
    requires s.nextDashcard <= mid.nextDashcard && s.cards.next <= mid.cards.next
    ensures Traced(s, t, b, existing)
  {
    hide PriorDashcards;
  }

  lemma NothingShown(s: Server, existing: map<string, Id>)
    ensures ShownApart(s, [], existing)
  {
  }

  lemma OneMoreApart(mid: Server, t: Server, boards: seq<Board>, existing: map<string, Id>)
    requires boards != [] && WellNamed(boards) && ShownApart(mid, boards[..|boards| - 1], existing)
    requires Holds(mid.cards, existing) && Grown(mid.cards, t.cards)
    requires var board := boards[|boards| - 1];
             && Frame(mid.dashboards, t.dashboards, {board.name})
             && ShownByName(t, board) && Traced(mid, t, board, existing)
    ensures ShownApart(t, boards, existing)
  {
    hide Frame, CardAt, ShownByName, Traced, Bearing;
    var n := |boards| - 1;
    var init, board := boards[..n], boards[n];
    forall b, k: nat | b in init ensures CardAt(t, b, k) == CardAt(mid, b, k) {
      SameCardAt(mid, t, init, board, b, k);
    }
    forall b | b in boards ensures ShownByName(t, b) {
      if b in init { StaysShownByName(mid, t, b); }
    }
    forall i, j, k, l |
      (0 <= i < j < |boards| && 0 <= k < |boards[i].cards| && 0 <= l < |boards[j].cards| &&
       boards[i].cards[k].name == boards[j].cards[l].name && boards[i].cards[k].name !in existing)
      ensures CardAt(t, boards[i], k) != CardAt(t, boards[j], l)
    {
      assert init[i] == boards[i] && boards[i] in init;
      if j < n {
        assert init[j] == boards[j] && boards[j] in init;
        assert CardAt(mid, init[i], k) != CardAt(mid, init[j], l);
      } else {
        OlderCard(mid, boards[i], k, existing);
        NewerCard(mid, t, board, l, existing);
      }
    }
  }

  lemma StaysShownByName(mid: Server, t: Server, b: Board)
    requires ShownByName(mid, b) && Grown(mid.cards, t.cards)
    requires forall k: nat :: CardAt(t, b, k) == CardAt(mid, b, k)
    ensures ShownByName(t, b)
  {
    hide CardAt;
  }

  lemma OlderCard(mid: Server, b: Board, k: nat, existing: map<string, Id>)
    requires ShownByName(mid, b) && Holds(mid.cards, existing) && k < |b.cards|
    ensures CardAt(mid, b, k).Some? && CardAt(mid, b, k).value < mid.cards.next
  {
    hide CardAt;
  }

  lemma NewerCard(mid: Server, t: Server, b: Board, l: nat, existing: map<string, Id>)
    requires Traced(mid, t, b, existing) && l < |b.cards| && b.cards[l].name !in existing
    ensures CardAt(t, b, l).Some? && mid.cards.next <= CardAt(t, b, l).value
  {
    hide PriorDashcards, IdsKept;
    assert FoundOrNew(existing, mid.cards.next, b.cards[l].name, PriorDashcards(t, b.name)[l].card);
  }

  lemma SameCardAt(s: Server, t: Server, init: seq<Board>, board: Board, b: Board, k: nat)
    requires b in init && board.name !in BoardNames(init) && Frame(s.dashboards, t.dashboards, {board.name})
    ensures CardAt(t, b, k) == CardAt(s, b, k)
  {
    hide Frame;
    BoardNameIn(init, b);
    PriorStays(s, t, {board.name}, b.name);
  }

  // ------------------------------------------------------------- the equivalence ---

  lemma IndexHolds(cards: Shelf<CardBody>)
    requires cards.Valid()
    ensures Holds(cards, cards.Index())
  {
    hide Shelf.Index;
    forall name | name in cards.Index() ensures Bearing(cards, cards.Index()[name], name) {
      IndexBears(cards, name);
    }
  }

  // ------------------------------------------- what stale lookups leave alone ---

  lemma PutFrame(a: Shelf<CardBody>, b: Shelf<CardBody>, names: set<string>, name: string, body: CardBody)
    requires Frame(a, b, names) && name in a.Index() && Bearing(b, a.Index()[name], name)
    ensures Frame(a, b.Put(a.Index()[name], name, body), names + {name})
  {
    hide IndexUpTo;
    var c := b.Put(a.Index()[name], name, body);
    assert c.Names() == b.Names();
    assert c.Index() == b.Index();
    hide Shelf.Index, Shelf.Names;
    forall i | i in a.items ensures Kept(a, c, i, names + {name}) {
      assert Kept(a, b, i, names);
    }
    forall i | i in c.items && i !in a.items ensures Created(a, c, i, names + {name}) {
      assert Created(a, b, i, names);
    }
  }

  lemma PostFrame(a: Shelf<CardBody>, b: Shelf<CardBody>, names: set<string>, name: string, body: CardBody)
    requires a.Valid() && b.Valid() && Frame(a, b, names) && name !in a.Index()
    ensures Frame(a, b.Post(name, body), names + {name})
  {
    hide IndexUpTo;
    var c := b.Post(name, body);
    assert c.Names() == b.Names()[b.next := name];
    PostIndex(b.Names(), b.next, name);
    assert c.Index() == b.Index()[name := b.next];
    hide Shelf.Index, Shelf.Names;
    forall i | i in a.items ensures Kept(a, c, i, names + {name}) {
      assert Kept(a, b, i, names);
    }
    forall i | i in c.items && i !in a.items ensures Created(a, c, i, names + {name}) {
      assert i in b.items ==> Created(a, b, i, names);
    }
  }

  /** An upsert by a stale snapshot, against the shelf that the snapshot was taken of. */
  lemma StaleFrame(a: Shelf<CardBody>, b: Shelf<CardBody>, names: set<string>, name: string, body: CardBody)
    requires a.Valid() && Frame(a, b, names) && Holds(b, a.Index())
    ensures Lookup(a.Index(), name).Some? ==> Lookup(a.Index(), name).value in b.items
    ensures Frame(a, Upsert(b, Lookup(a.Index(), name), name, body).shelf, names + {name})
  {
    hide Shelf.Index, Frame;
    if name in a.Index() {
      assert Bearing(b, a.Index()[name], name);
      PutFrame(a, b, names, name, body);
    } else {
      PostFrame(a, b, names, name, body);
    }
  }

  lemma {:induction false} StaleFrameCards(a: Shelf<CardBody>, cards: Shelf<CardBody>, names: set<string>,
                                           specs: seq<CardSpec>, database: Id)
    requires a.Valid() && Frame(a, cards, names) && Holds(cards, a.Index()) && Snapshot(a.Index(), cards)
    ensures Frame(a, UpsertCards(cards, specs, database, a.Index()).cards, names + SpecNames(specs))
  {
    hide Shelf.Index, Frame, Holds;
    if specs != [] {
      var init, spec := specs[..|specs| - 1], specs[|specs| - 1];
      var before := UpsertCards(cards, init, database, a.Index());
      StaleFrameCards(a, cards, names, init, database);
      StaleCards(cards, init, database, a.Index());
      StaleFrame(a, before.cards, names + SpecNames(init), spec.name, CardPayload(spec, database));
      assert names + SpecNames(init) + {spec.name} == names + SpecNames(specs);
    } else {
      assert names + {} == names;
    }
  }

  /** Whatever the boards, no card changes but those that their definitions' names find. */
  lemma {:induction false} StaleFrameBoards(s: Server, boards: seq<Board>, database: Id)
    requires s.cards.Valid() && Holds(s.cards, s.cards.Index()) && Snapshot(s.cards.Index(), s.cards)
    ensures var t := ConvergeBoards(s, boards, database, s.cards.Index());
            Frame(s.cards, t.cards, CardNames(boards)) && Holds(t.cards, s.cards.Index())
  {
    hide Shelf.Index, Frame, Holds, UpsertCards, UpsertDashboard;
    if boards == [] {
      FrameSame(s.cards);
    } else {
      var init, board := boards[..|boards| - 1], boards[|boards| - 1];
      var existing := s.cards.Index();
      var mid := ConvergeBoards(s, init, database, existing);
      StaleFrameBoards(s, init, database);
      StaleFrameCards(s.cards, mid.cards, CardNames(init), board.cards, database);
      StaleCards(mid.cards, board.cards, database, existing);
      var placed := UpsertCards(mid.cards, board.cards, database, existing);
      KeepsCards(mid.(cards := placed.cards), board, placed.ids);
    }
  }

  lemma KeepsCards(s: Server, board: Board, ids: seq<Id>)
    requires |ids| == |board.cards|
    ensures UpsertDashboard(s, board, ids).cards == s.cards
  {
  }

  /** What a run leaves for boards that share any names at all. */
  lemma StaleConverge(s: Server, boards: seq<Board>, details: Connection)
    requires Valid(s) && WellNamed(boards)
    ensures var t := Converge(s, boards, details);
            && Valid(t) && ShownApart(t, boards, s.cards.Index()) && Grown(s.cards, t.cards)
            && Frame(s.cards, t.cards, CardNames(boards)) && Frame(s.dashboards, t.dashboards, BoardNames(boards))
            && (exists database :: OnlyMarts(s, ShelvesOf(t, s), database))
            && forall b :: b in boards ==> Traced(s, t, b, s.cards.Index())
  {
    hide Shelf.Index, Holds, ConvergeBoards, EnsureMartsDatabase, OnlyMarts, DatabaseIsLive, ShownApart;
    hide Grown, Frame, Traced;
    var e := EnsureMartsDatabase(s, details);
    EnsureLaw(s, details);
    UntouchedByMarts(s, e.server, e.id);
    CardIndexIsSnapshot(e.server.cards);
    IndexHolds(e.server.cards);
    StaleBoards(e.server, boards, e.id, e.server.cards.Index());
    StaleFrameBoards(e.server, boards, e.id);
    var t := Converge(s, boards, details);
    assert ShelvesOf(t, s) == e.server;
    HoldsIsValid(t.cards, s.cards.Index());
    forall b | b in boards ensures Traced(s, t, b, s.cards.Index()) {
      TracedFrom(s, e.server, t, b, s.cards.Index());
    }
  }

  lemma TracedFrom(s: Server, e: Server, t: Server, b: Board, existing: map<string, Id>)
    requires e.cards == s.cards && e.dashboards == s.dashboards && e.nextDashcard == s.nextDashcard
    requires Traced(e, t, b, existing)
    ensures Traced(s, t, b, existing)
  {
    hide FoundOrNew, IdsKept, Shelf.Index;
  }

  lemma HoldsIsValid(cards: Shelf<CardBody>, existing: map<string, Id>)
    requires Holds(cards, existing)
    ensures cards.Valid()
  {
  }

  /** After any run every name of every board is live. */
  lemma ShownIsLive(t: Server, boards: seq<Board>)
    requires t.cards.Valid() && forall b :: b in boards ==> ShownByName(t, b)
    ensures SharedAreLive(t.cards.Index(), boards)
  {
    hide Shelf.Index, CardAt;
    forall i, j, name |
      (0 <= i < j < |boards| && name in SpecNames(boards[i].cards) && name in SpecNames(boards[j].cards))
      ensures name in t.cards.Index()
    {
      var k := SpecNameFrom(boards[i].cards, name);
      assert ShownByName(t, boards[i]);
      BearsIndex(t.cards, CardAt(t, boards[i], k).value);
    }
  }

  /** A board that is shown shows, for each definition, the card its name finds. */
  lemma ShownIsFound(s: Server, board: Board, k: nat)
    requires BoardIsShown(s, board) && k < |board.cards|
    ensures CardAt(s, board, k) == Lookup(s.cards.Index(), board.cards[k].name) && CardAt(s, board, k).Some?
  {
    hide Shelf.Index;
    var ids :| IdsFound(s.cards, board.cards, ids) && DashboardIsLive(s, board, ids);
    assert Lookup(s.cards.Index(), board.cards[k].name) == Some(ids[k]);
  }

  lemma AfterConvergeIsFound(s: Server, boards: seq<Board>, details: Connection, b: Board, k: nat)
    requires Valid(s) && WellNamed(boards) && SharedAreLive(s.cards.Index(), boards)
    requires b in boards && k < |b.cards|
    ensures var t := Converge(s, boards, details);
            CardAt(t, b, k) == Lookup(t.cards.Index(), b.cards[k].name)
  {
    hide Shelf.Index, Converge, BoardIsShown, LastCardsAreLive, OnlyMarts, DatabaseIsLive, Frame;
    ConvergeLaw(s, boards, details);
    ShownIsFound(Converge(s, boards, details), b, k);
  }

  /**
   Of two boards that share a name the server has not, each gets its own card, and the second
   run moves them to one.
   */
  lemma SharedNameMovesOn(s: Server, boards: seq<Board>, details: Connection, i: nat, j: nat, name: string)
    requires Valid(s) && WellNamed(boards) && i < j < |boards| && name !in s.cards.Index()
    requires name in SpecNames(boards[i].cards) && name in SpecNames(boards[j].cards)
    ensures var t := Converge(s, boards, details);
            && Converge(t, boards, details) != t
            && forall k, l :: (0 <= k < |boards[i].cards| && 0 <= l < |boards[j].cards| &&
                               boards[i].cards[k].name == name == boards[j].cards[l].name) ==>
                 CardAt(t, boards[i], k) != CardAt(t, boards[j], l)
  {
    hide Shelf.Index, Converge, CardAt, ShownByName, SharedAreLive, Frame, OnlyMarts, Grown, Traced;
    var t := Converge(s, boards, details);
    StaleConverge(s, boards, details);
    ShownIsLive(t, boards);
    var k := SpecNameFrom(boards[i].cards, name);
    var l := SpecNameFrom(boards[j].cards, name);
    AfterConvergeIsFound(t, boards, details, boards[i], k);
    AfterConvergeIsFound(t, boards, details, boards[j], l);
    assert CardAt(t, boards[i], k) != CardAt(t, boards[j], l);
  }

  /**
   Running `converge` twice is running it once if and only if every card name that two of the
   boards use was live before the first run.
   */
  lemma ConvergeIsIdempotentIff(s: Server, boards: seq<Board>, details: Connection)
    requires Valid(s) && WellNamed(boards)
    ensures var t := Converge(s, boards, details);
            Converge(t, boards, details) == t <==> SharedAreLive(s.cards.Index(), boards)
  {
    hide Shelf.Index, Converge, Converged, Frame, OnlyMarts;
    var t := Converge(s, boards, details);
    if SharedAreLive(s.cards.Index(), boards) {
      ConvergeLaw(s, boards, details);
      ConvergedIsFixed(t, boards, details);
    } else {
      var i, j, name :| 0 <= i < j < |boards| && name in SpecNames(boards[i].cards) &&
                        name in SpecNames(boards[j].cards) && name !in s.cards.Index();
      SharedNameMovesOn(s, boards, details, i, j, name);
    }
  }

  /** So boards that share no name at all are idempotent on every server. */
  lemma ConvergeIsIdempotent(s: Server, boards: seq<Board>, details: Connection)
    requires Valid(s) && Distinct(boards)
    ensures Converge(Converge(s, boards, details), boards, details) == Converge(s, boards, details)
  {
    hide Shelf.Index, Converge;
    SharedInMore(map[], s.cards.Index(), boards);
    ConvergeIsIdempotentIff(s, boards, details);
  }

  /** And a third run is never needed: two runs settle any boards on any server. */
  lemma SecondRunSettles(s: Server, boards: seq<Board>, details: Connection)
    requires Valid(s) && WellNamed(boards)
    ensures var u := Converge(Converge(s, boards, details), boards, details);
            Converge(u, boards, details) == u
  {
    hide Shelf.Index, Converge, ShownByName, SharedAreLive;
    StaleConverge(s, boards, details);
    ShownIsLive(Converge(s, boards, details), boards);
    ConvergeIsIdempotentIff(Converge(s, boards, details), boards, details);
  }
}
