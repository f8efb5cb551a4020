/**
 What a run leaves in the cards, field by field: every card that a board shows holds a
 definition, and which one when boards share its name.
 */
module CardDefinitions {
  import opened Base
  import opened MetabaseServer
  import opened MetabaseBoards
  import opened BoardLaws
  import opened BoardConvergence
  import opened SharedCards

  /** The card is live under the definition's name and asks its query of the database. */
  ghost predicate HoldsDefinition(cards: Shelf<CardBody>, id: Id, spec: CardSpec, database: Id) {
    && id in cards.items && cards.items[id].name == spec.name && !cards.items[id].archived
    && var body := cards.items[id].body;
       && body.display == spec.display && body.sql == spec.sql && body.settings == spec.settings
       && body.database == Some(database) && body.collection == None
  }

  /** The one `marts` connection, live under its name with the given details. */
  ghost predicate Connects(t: Server, details: Connection, database: Id) {
    && database in t.databases.items && t.databases.items[database].name == "marts"
    && !t.databases.items[database].archived && t.databases.items[database].body == details
  }

  /** Each card name finds a card that holds the definition written to it last. */
  ghost predicate LastDefinitionsHold(cards: Shelf<CardBody>, boards: seq<Board>, database: Id) {
    forall name :: LastSpec(boards, name).Some? ==>
      name in cards.Index() && HoldsDefinition(cards, cards.Index()[name], LastSpec(boards, name).value, database)
  }

  /** Where shared names are live, every name finds a card with its last definition. */
  lemma DefinitionsHold(s: Server, boards: seq<Board>, details: Connection)
    requires Valid(s) && WellNamed(boards) && SharedAreLive(s.cards.Index(), boards)
    ensures var t := Converge(s, boards, details);
            exists database :: Connects(t, details, database) && LastDefinitionsHold(t.cards, boards, database)
  {
    hide Shelf.Index, Converge, Frame, OnlyMarts, BoardIsShown, MartsDatabase, SharedAreLive;
    ConvergeLaw(s, boards, details);
    var t := Converge(s, boards, details);
    var database :| DatabaseIsLive(t, details, database) && BoardsAreShown(t, boards) &&
                    LastCardsAreLive(t.cards, boards, database);
    forall name | LastSpec(boards, name).Some?
      ensures name in t.cards.Index() &&
              HoldsDefinition(t.cards, t.cards.Index()[name], LastSpec(boards, name).value, database)
    {
      LastSpecIs(boards, name);
      assert CardIsLive(t.cards, LastSpec(boards, name).value, database);
    }
    assert Connects(t, details, database) && LastDefinitionsHold(t.cards, boards, database);
  }

  // ------------------------------------------------------- any boards at all ---

  /** No definition's name finds the card in the snapshot. */
  predicate IsOther(a: Shelf<CardBody>, i: Id, specs: seq<CardSpec>, existing: map<string, Id>) {
    i in a.items && (a.items[i].name !in SpecNames(specs) || Lookup(existing, a.items[i].name) != Some(i))
  }

  /** Writing the definitions touches no card but those that their names find. */
  ghost predicate OthersStay(a: Shelf<CardBody>, b: Shelf<CardBody>, specs: seq<CardSpec>, existing: map<string, Id>) {
    forall i :: IsOther(a, i, specs, existing) ==> i in b.items && b.items[i] == a.items[i]
  }

  ghost predicate AllHold(cards: Shelf<CardBody>, specs: seq<CardSpec>, ids: seq<Id>, database: Id) {
    |ids| == |specs| && forall k :: 0 <= k < |specs| ==> HoldsDefinition(cards, ids[k], specs[k], database)
  }

  lemma OneWrite(a: Shelf<CardBody>, spec: CardSpec, database: Id, existing: map<string, Id>)
    requires Holds(a, existing)
    ensures Lookup(existing, spec.name).Some? ==> Lookup(existing, spec.name).value in a.items
    ensures var u := Upsert(a, Lookup(existing, spec.name), spec.name, CardPayload(spec, database));
            && HoldsDefinition(u.shelf, u.id, spec, database)
            && (forall i :: i in a.items && (a.items[i].name != spec.name || Lookup(existing, spec.name) != Some(i)) ==>
                  i in u.shelf.items && u.shelf.items[i] == a.items[i])
            && (u.id in a.items ==> a.items[u.id].name == spec.name && Lookup(existing, spec.name) == Some(u.id))
  {
    assert spec.name in existing ==> Bearing(a, existing[spec.name], spec.name);
  }

  lemma {:induction false} CardsHold(cards: Shelf<CardBody>, specs: seq<CardSpec>, database: Id,
                                     existing: map<string, Id>)
    requires Holds(cards, existing) && Snapshot(existing, cards) && DistinctSpecs(specs)
    ensures var p := UpsertCards(cards, specs, database, existing);
            AllHold(p.cards, specs, p.ids, database) && OthersStay(cards, p.cards, specs, existing)
  {
    if specs != [] {
      hide Holds, CardPayload, HoldsDefinition, AllHold, OthersStay, Upsert;
      var n := |specs| - 1;
      var init, spec := specs[..n], specs[n];
      var before := UpsertCards(cards, init, database, existing);
      CardsHold(cards, init, database, existing);
      StaleCards(cards, init, database, existing);
      OneWrite(before.cards, spec, database, existing);
      var u := Upsert(before.cards, Lookup(existing, spec.name), spec.name, CardPayload(spec, database));
      OthersThen(cards, before.cards, u.shelf, specs, existing);
      AllThen(before.cards, u.shelf, specs, before.ids, u.id, database);
    }
  }

  lemma OthersThen(a: Shelf<CardBody>, b: Shelf<CardBody>, c: Shelf<CardBody>, specs: seq<CardSpec>,
                   existing: map<string, Id>)
    requires specs != [] && OthersStay(a, b, specs[..|specs| - 1], existing) && Grown(a, b)
    requires var spec := specs[|specs| - 1];
             forall i :: i in b.items && (b.items[i].name != spec.name || Lookup(existing, spec.name) != Some(i)) ==>
               i in c.items && c.items[i] == b.items[i]
    ensures OthersStay(a, c, specs, existing)
  {
  }

  /** Cards of other names stay as they were written. */
  lemma AllThen(b: Shelf<CardBody>, c: Shelf<CardBody>, specs: seq<CardSpec>, ids: seq<Id>, id: Id, database: Id)
    requires specs != [] && DistinctSpecs(specs) && AllHold(b, specs[..|specs| - 1], ids, database)
    requires HoldsDefinition(c, id, specs[|specs| - 1], database)
    requires forall i :: i in b.items && b.items[i].name != specs[|specs| - 1].name ==>
               i in c.items && c.items[i] == b.items[i]
    ensures AllHold(c, specs, ids + [id], database)
  {
    hide HoldsDefinition, DistinctSpecs;
    var n := |specs| - 1;
    forall k | 0 <= k < n ensures HoldsDefinition(c, ids[k], specs[k], database) {
      assert HoldsDefinition(b, ids[k], specs[..n][k], database);
      NamesDiffer(specs, k, n);
      HoldsName(b, ids[k], specs[k], database);
      SameCardHolds(b, c, ids[k], specs[k], database);
    }
  }

  lemma SameCardHolds(a: Shelf<CardBody>, b: Shelf<CardBody>, id: Id, spec: CardSpec, database: Id)
    requires HoldsDefinition(a, id, spec, database) && id in b.items && b.items[id] == a.items[id]
    ensures HoldsDefinition(b, id, spec, database)
  {
  }

  /**
   The definition that the card a board shows in its k-th place holds: the last one of its name
   if the server had a card of that name, and otherwise the board's own.
   */
  function HeldSpec(boards: seq<Board>, b: Board, k: nat, existing: map<string, Id>): CardSpec
    requires k < |b.cards|
  {
    var last := LastSpec(boards, b.cards[k].name);
    if b.cards[k].name in existing && last.Some? then last.value else b.cards[k]
  }

  ghost predicate CardHolds(t: Server, boards: seq<Board>, b: Board, k: nat, existing: map<string, Id>, database: Id)
    requires k < |b.cards|
  {
    CardAt(t, b, k).Some? && HoldsDefinition(t.cards, CardAt(t, b, k).value, HeldSpec(boards, b, k, existing), database)
  }

  /** The dashboard of a board is live under its name and says what it is about. */
  ghost predicate Describes(t: Server, b: Board) {
    && b.name in t.dashboards.Index() && t.dashboards.Index()[b.name] in t.dashboards.items
    && var item := t.dashboards.items[t.dashboards.Index()[b.name]];
       item.name == b.name && !item.archived && item.body.description == b.description
  }

  ghost predicate BoardHolds(t: Server, boards: seq<Board>, b: Board, existing: map<string, Id>, database: Id) {
    Describes(t, b) && forall k :: 0 <= k < |b.cards| ==> CardHolds(t, boards, b, k, existing, database)
  }

  lemma OwnBoardHolds(s: Server, boards: seq<Board>, database: Id, existing: map<string, Id>)
    requires boards != [] && DistinctSpecs(boards[|boards| - 1].cards)
    requires Holds(s.cards, existing) && Snapshot(existing, s.cards) && s.dashboards.Valid()
    ensures var board := boards[|boards| - 1];
            var placed := UpsertCards(s.cards, board.cards, database, existing);
            var t := UpsertDashboard(s.(cards := placed.cards), board, placed.ids);
            BoardHolds(t, boards, board, existing, database)
  {
    hide Shelf.Index, Frame, Holds, IdsKept, UpsertCards, UpsertDashboard, HoldsDefinition;
    var board := boards[|boards| - 1];
    var placed := UpsertCards(s.cards, board.cards, database, existing);
    CardsHold(s.cards, board.cards, database, existing);
    UpsertDashboardLaw(s.(cards := placed.cards), board, placed.ids);
    var t := UpsertDashboard(s.(cards := placed.cards), board, placed.ids);
    forall k | 0 <= k < |board.cards| ensures CardHolds(t, boards, board, k, existing, database) {
      SpecOfOwn(board.cards, k);
      assert CardAt(t, board, k) == Some(placed.ids[k]);
    }
  }

  lemma DescribesStays(s: Server, t: Server, names: set<string>, b: Board)
    requires Describes(s, b) && Frame(s.dashboards, t.dashboards, names) && b.name !in names
    ensures Describes(t, b)
  {
    hide Shelf.Index, Frame;
    FrameItem(s.dashboards, t.dashboards, names, b.name);
    FrameLookup(s.dashboards, t.dashboards, names, b.name);
  }

  /** The last board rewrites the cards of the boards before it only where the snapshot had them. */
  lemma EarlierCardHolds(s: Server, mid: Server, boards: seq<Board>, b: Board, k: nat, database: Id,
                         existing: map<string, Id>)
    requires boards != [] && WellNamed(boards) && b in boards[..|boards| - 1] && k < |b.cards|
    requires Holds(mid.cards, existing) && Snapshot(existing, mid.cards) && mid.dashboards.Valid()
    requires Traced(s, mid, b, existing)
    requires CardHolds(mid, boards[..|boards| - 1], b, k, existing, database)
    ensures var board := boards[|boards| - 1];
            var placed := UpsertCards(mid.cards, board.cards, database, existing);
            HoldsDefinition(placed.cards, CardAt(mid, b, k).value, HeldSpec(boards, b, k, existing), database)
  {
    hide Holds, IdsKept, UpsertCards, HoldsDefinition, PriorDashcards;
    var n := |boards| - 1;
    var init, board, name, id := boards[..n], boards[n], b.cards[k].name, CardAt(mid, b, k).value;
    var placed := UpsertCards(mid.cards, board.cards, database, existing);
    CardsHold(mid.cards, board.cards, database, existing);
    StaleCards(mid.cards, board.cards, database, existing);
    SpecOfIs(board.cards, name);
    assert FoundOrNew(existing, s.cards.next, name, id);
    HeldName(init, b, k, existing);
    HoldsName(mid.cards, id, HeldSpec(init, b, k, existing), database);
    if name in existing && name in SpecNames(board.cards) {
      var j := SpecNameFrom(board.cards, name);
      SpecOfOwn(board.cards, j);
      assert FoundOrNew(existing, mid.cards.next, board.cards[j].name, placed.ids[j]);
      assert placed.ids[j] == id;
    } else {
      assert placed.cards.items[id] == mid.cards.items[id];
      SameCardHolds(mid.cards, placed.cards, id, HeldSpec(init, b, k, existing), database);
    }
  }

  lemma HeldName(boards: seq<Board>, b: Board, k: nat, existing: map<string, Id>)
    requires k < |b.cards|
    ensures HeldSpec(boards, b, k, existing).name == b.cards[k].name
  {
    LastSpecIs(boards, b.cards[k].name);
  }

  lemma HoldsName(cards: Shelf<CardBody>, id: Id, spec: CardSpec, database: Id)
    requires HoldsDefinition(cards, id, spec, database)
    ensures id in cards.items && cards.items[id].name == spec.name
  {
  }

  lemma {:induction false} BoardsHold(s: Server, boards: seq<Board>, database: Id, existing: map<string, Id>)
    requires Holds(s.cards, existing) && Snapshot(existing, s.cards) && s.dashboards.Valid() && WellNamed(boards)
    ensures var t := ConvergeBoards(s, boards, database, existing);
            forall b :: b in boards ==> BoardHolds(t, boards, b, existing, database)
  {
    hide Shelf.Index, Frame, Holds, Grown, Traced, ShownByName, ShownApart, UpsertCards, UpsertDashboard;
    hide HoldsDefinition, Describes, CardAt, HeldSpec;
    if boards != [] {
      var init, board := boards[..|boards| - 1], boards[|boards| - 1];
      var mid, t := ConvergeBoards(s, init, database, existing), ConvergeBoards(s, boards, database, existing);
      BoardsHold(s, init, database, existing);
      StaleBoards(s, init, database, existing);
      StaleBoard(mid, board, database, existing);
      OwnBoardHolds(mid, boards, database, existing);
      var placed := UpsertCards(mid.cards, board.cards, database, existing);
      KeepsCards(mid.(cards := placed.cards), board, placed.ids);
      forall b | b in init ensures BoardHolds(t, boards, b, existing, database) {
        assert BoardHolds(mid, init, b, existing, database);
        BoardNameIn(init, b);
        DescribesStays(mid, t, {board.name}, b);
        forall k | 0 <= k < |b.cards| ensures CardHolds(t, boards, b, k, existing, database) {
          EarlierCardHolds(s, mid, boards, b, k, database, existing);
          SameCardAt(mid, t, init, board, b, k);
        }
      }
    }
  }

  /**
   After a run over any boards, each definition is shown as a card that holds it field by
   field; where the server had a card of its name, that card holds the last such definition.
   */
  lemma ShownDefinitionsHold(s: Server, boards: seq<Board>, details: Connection)
    requires Valid(s) && WellNamed(boards)
    ensures var t := Converge(s, boards, details);
            exists database ::
              Connects(t, details, database) &&
              forall b :: b in boards ==> BoardHolds(t, boards, b, s.cards.Index(), database)
  {
    hide Shelf.Index, Holds, ConvergeBoards, EnsureMartsDatabase, OnlyMarts, MartsDatabase, BoardHolds;
    hide ShownApart, Grown, Frame, Traced;
    var e := EnsureMartsDatabase(s, details);
    EnsureLaw(s, details);
    UntouchedByMarts(s, e.server, e.id);
    CardIndexIsSnapshot(e.server.cards);
    IndexHolds(e.server.cards);
    StaleBoards(e.server, boards, e.id, e.server.cards.Index());
    BoardsHold(e.server, boards, e.id, e.server.cards.Index());
    var t := Converge(s, boards, details);
    SameDatabases(e.server, t, details, e.id);
    assert Connects(t, details, e.id);
  }
}
