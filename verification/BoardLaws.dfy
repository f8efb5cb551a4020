/**
 What converging the boards does: every board is live afterwards, nothing is deleted and
 nothing unnamed is touched, every id is kept, a second run changes nothing at all, and
 exactly when the read-back is green.
 */
module BoardLaws {
  import opened Base
  import opened MetabaseServer
  import opened MetabaseBoards

  // ------------------------------------------------------ distinct definitions ---

  function SpecNames(specs: seq<CardSpec>): set<string> {
    if specs == [] then {} else SpecNames(specs[..|specs| - 1]) + {specs[|specs| - 1].name}
  }

  predicate DistinctSpecs(specs: seq<CardSpec>) {
    specs == [] ||
    (specs[|specs| - 1].name !in SpecNames(specs[..|specs| - 1]) && DistinctSpecs(specs[..|specs| - 1]))
  }

  function CardNames(boards: seq<Board>): set<string> {
    if boards == [] then {} else CardNames(boards[..|boards| - 1]) + SpecNames(boards[|boards| - 1].cards)
  }

  function BoardNames(boards: seq<Board>): set<string> {
    if boards == [] then {} else BoardNames(boards[..|boards| - 1]) + {boards[|boards| - 1].name}
  }

  /** The boards have distinct names, and so have the cards of each of them. */
  predicate WellNamed(boards: seq<Board>) {
    boards == [] ||
    var init, last := boards[..|boards| - 1], boards[|boards| - 1];
    WellNamed(init) && DistinctSpecs(last.cards) && last.name !in BoardNames(init)
  }

  /** Every card name that two of the boards use is one the index finds. */
  ghost predicate SharedAreLive(index: map<string, Id>, boards: seq<Board>) {
    forall i, j, name ::
      (0 <= i < j < |boards| && name in SpecNames(boards[i].cards) && name in SpecNames(boards[j].cards)) ==>
        name in index
  }

  /** No two cards of all the boards share a name, and no two boards do. */
  ghost predicate Distinct(boards: seq<Board>) {
    WellNamed(boards) && SharedAreLive(map[], boards)
  }

  lemma {:induction false} NameIn(specs: seq<CardSpec>, k: nat)
    requires k < |specs|
    ensures specs[k].name in SpecNames(specs)
  {
    if k < |specs| - 1 { NameIn(specs[..|specs| - 1], k); }
  }

  lemma {:induction false} NamesDiffer(specs: seq<CardSpec>, j: nat, k: nat)
    requires DistinctSpecs(specs) && j < k < |specs|
    ensures specs[j].name != specs[k].name
  {
    if k < |specs| - 1 { NamesDiffer(specs[..|specs| - 1], j, k); } else { NameIn(specs[..|specs| - 1], j); }
  }

  lemma {:induction false} BoardNameIn(boards: seq<Board>, b: Board)
    requires b in boards
    ensures b.name in BoardNames(boards) && SpecNames(b.cards) <= CardNames(boards)
  {
    if b != boards[|boards| - 1] { BoardNameIn(boards[..|boards| - 1], b); }
  }

  lemma {:induction false} CardNameFrom(boards: seq<Board>, name: string) returns (i: nat)
    requires name in CardNames(boards)
    ensures i < |boards| && name in SpecNames(boards[i].cards)
  {
    var n := |boards| - 1;
    if name in SpecNames(boards[n].cards) {
      i := n;
    } else {
      i := CardNameFrom(boards[..n], name);
    }
  }

  lemma {:induction false} SpecNameFrom(specs: seq<CardSpec>, name: string) returns (k: nat)
    requires name in SpecNames(specs)
    ensures k < |specs| && specs[k].name == name
  {
    var n := |specs| - 1;
    if specs[n].name == name {
      k := n;
    } else {
      k := SpecNameFrom(specs[..n], name);
    }
  }

  /** What the last board shares with the boards before it is live. */
  lemma SharedWithLast(index: map<string, Id>, boards: seq<Board>)
    requires boards != [] && SharedAreLive(index, boards)
    ensures var init, last := boards[..|boards| - 1], boards[|boards| - 1];
            && SharedAreLive(index, init)
            && forall name :: name in SpecNames(last.cards) && name in CardNames(init) ==> name in index
  {
    var n := |boards| - 1;
    var init, last := boards[..n], boards[n];
    forall name | name in SpecNames(last.cards) && name in CardNames(init) ensures name in index {
      var i := CardNameFrom(init, name);
      assert name in SpecNames(boards[i].cards) && name in SpecNames(boards[n].cards);
    }
    forall i, j, name | 0 <= i < j < |init| && name in SpecNames(init[i].cards) && name in SpecNames(init[j].cards)
      ensures name in index
    {
      assert name in SpecNames(boards[i].cards) && name in SpecNames(boards[j].cards);
    }
  }

  // -------------------------------------------------------- the last definition ---

  function SpecOf(specs: seq<CardSpec>, name: string): Option<CardSpec> {
    if specs == [] then None
    else if specs[|specs| - 1].name == name then Some(specs[|specs| - 1])
    else SpecOf(specs[..|specs| - 1], name)
  }

  /** The definition of a card name that is written last. */
  function LastSpec(boards: seq<Board>, name: string): Option<CardSpec> {
    if boards == [] then None
    else
      var found := SpecOf(boards[|boards| - 1].cards, name);
      if found.Some? then found else LastSpec(boards[..|boards| - 1], name)
  }

  lemma {:induction false} SpecOfIs(specs: seq<CardSpec>, name: string)
    ensures SpecOf(specs, name).Some? <==> name in SpecNames(specs)
    ensures SpecOf(specs, name).Some? ==> SpecOf(specs, name).value in specs && SpecOf(specs, name).value.name == name
  {
    if specs != [] { SpecOfIs(specs[..|specs| - 1], name); }
  }

  lemma {:induction false} SpecOfOwn(specs: seq<CardSpec>, k: nat)
    requires DistinctSpecs(specs) && k < |specs|
    ensures SpecOf(specs, specs[k].name) == Some(specs[k])
  {
    var n := |specs| - 1;
    if k < n {
      NamesDiffer(specs, k, n);
      SpecOfOwn(specs[..n], k);
    }
  }

  lemma {:induction false} LastSpecIs(boards: seq<Board>, name: string)
    ensures LastSpec(boards, name).Some? <==> name in CardNames(boards)
    ensures LastSpec(boards, name).Some? ==> LastSpec(boards, name).value.name == name
  {
    if boards != [] {
      SpecOfIs(boards[|boards| - 1].cards, name);
      LastSpecIs(boards[..|boards| - 1], name);
    }
  }

  /** Where no name is shared, a card's last definition is its own. */
  lemma {:induction false} LastSpecIsOwn(boards: seq<Board>, b: Board, k: nat)
    requires Distinct(boards) && b in boards && k < |b.cards|
    ensures LastSpec(boards, b.cards[k].name) == Some(b.cards[k])
  {
    var n := |boards| - 1;
    var init, last, name := boards[..n], boards[n], b.cards[k].name;
    SharedWithLast(map[], boards);
    NameIn(b.cards, k);
    if b in init {
      BoardNameIn(init, b);
      SpecOfIs(last.cards, name);
      LastSpecIsOwn(init, b, k);
    } else {
      SpecOfOwn(b.cards, k);
    }
  }

  // ------------------------------------------------------------------- cards ---

  /** The card a definition asks for, under the id its name finds. */
  ghost predicate CardIsLive(cards: Shelf<CardBody>, spec: CardSpec, database: Id) {
    && spec.name in cards.Index() && cards.Index()[spec.name] in cards.items
    && cards.items[cards.Index()[spec.name]] == Item(spec.name, false, CardPayload(spec, database))
  }

  ghost predicate CardsAreLive(cards: Shelf<CardBody>, specs: seq<CardSpec>, database: Id) {
    forall k :: 0 <= k < |specs| ==> CardIsLive(cards, specs[k], database)
  }

  ghost predicate IdsFound(cards: Shelf<CardBody>, specs: seq<CardSpec>, ids: seq<Id>) {
    |ids| == |specs| && forall k :: 0 <= k < |specs| ==> Lookup(cards.Index(), specs[k].name) == Some(ids[k])
  }

  ghost predicate Agrees(existing: map<string, Id>, cards: Shelf<CardBody>, names: set<string>) {
    forall name :: name in names ==> Lookup(existing, name) == Lookup(cards.Index(), name)
  }

  /** Cards of other names stay live under their ids. */
  lemma CardsStayLive(a: Shelf<CardBody>, b: Shelf<CardBody>, names: set<string>, specs: seq<CardSpec>, ids: seq<Id>,
                      database: Id)
    requires Frame(a, b, names) && names !! SpecNames(specs)
    requires CardsAreLive(a, specs, database) && IdsFound(a, specs, ids)
    ensures CardsAreLive(b, specs, database) && IdsFound(b, specs, ids)
  {
    hide Shelf.Index, Frame;
    forall k | 0 <= k < |specs|
      ensures CardIsLive(b, specs[k], database) && Lookup(b.Index(), specs[k].name) == Some(ids[k])
    {
      NameIn(specs, k);
      assert CardIsLive(a, specs[k], database);
      FrameItem(a, b, names, specs[k].name);
      FrameLookup(a, b, names, specs[k].name);
    }
  }

  lemma {:induction false} UpsertCardsLaw(cards: Shelf<CardBody>, specs: seq<CardSpec>, database: Id,
                                          existing: map<string, Id>)
    requires cards.Valid() && Snapshot(existing, cards) && DistinctSpecs(specs)
    requires Agrees(existing, cards, SpecNames(specs))
    ensures var p := UpsertCards(cards, specs, database, existing);
            && p.cards.Valid() && Frame(cards, p.cards, SpecNames(specs))
            && CardsAreLive(p.cards, specs, database) && IdsFound(p.cards, specs, p.ids)
  {
    hide Shelf.Index, Frame, CardsAreLive, IdsFound;
    if specs == [] {
      FrameSame(cards);
      NoCards(cards, database);
    } else {
      var init, spec := specs[..|specs| - 1], specs[|specs| - 1];
      UpsertCardsLaw(cards, init, database, existing);
      var before := UpsertCards(cards, init, database, existing);
      FrameLookup(cards, before.cards, SpecNames(init), spec.name);
      UpsertLaw(before.cards, spec.name, CardPayload(spec, database));
      var u := Upsert(before.cards, Lookup(existing, spec.name), spec.name, CardPayload(spec, database));
      FrameThen(cards, before.cards, u.shelf, SpecNames(init), {spec.name});
      CardsStayLive(before.cards, u.shelf, {spec.name}, init, before.ids, database);
      assert CardIsLive(u.shelf, spec, database);
      OneMoreCard(u.shelf, specs, before.ids, u.id, database);
    }
  }

  lemma NoCards(cards: Shelf<CardBody>, database: Id)
    ensures CardsAreLive(cards, [], database) && IdsFound(cards, [], [])
  {
  }

  lemma OneMoreCard(cards: Shelf<CardBody>, specs: seq<CardSpec>, ids: seq<Id>, id: Id, database: Id)
    requires specs != []
    requires var init := specs[..|specs| - 1];
             CardsAreLive(cards, init, database) && IdsFound(cards, init, ids)
    requires var spec := specs[|specs| - 1];
             CardIsLive(cards, spec, database) && Lookup(cards.Index(), spec.name) == Some(id)
    ensures CardsAreLive(cards, specs, database) && IdsFound(cards, specs, ids + [id])
  {
    hide Shelf.Index;
    var init := specs[..|specs| - 1];
    forall k | 0 <= k < |specs|
      ensures CardIsLive(cards, specs[k], database) && Lookup(cards.Index(), specs[k].name) == Some((ids + [id])[k])
    {
      if k < |init| { assert init[k] == specs[k] && CardIsLive(cards, init[k], database); }
    }
  }

  // -------------------------------------------------------------- dashboards ---

  /** The dashcards a board asks for, one for each of its cards and no other. */
  ghost predicate Shows(dashcards: seq<Dashcard>, specs: seq<CardSpec>, ids: seq<Id>) {
    && |dashcards| == |specs| == |ids|
    && forall k :: 0 <= k < |specs| ==>
         dashcards[k].card == ids[k] && dashcards[k].place == specs[k].place && dashcards[k].settings == ""
  }

  /** A placement that had a dashcard keeps its id; any other id is fresh. */
  ghost predicate IdsKept(before: seq<Dashcard>, after: seq<Dashcard>, next: Id) {
    forall k :: 0 <= k < |after| ==>
      if after[k].card in ByCard(before) then after[k].id == ByCard(before)[after[k].card] else after[k].id >= next
  }

  lemma {:induction false} SettleLaw(wanted: seq<Wanted>, next: Id)
    ensures var r := Settle(wanted, next);
            forall k :: 0 <= k < |wanted| ==>
              && r.dashcards[k].card == wanted[k].card && r.dashcards[k].place == wanted[k].place
              && r.dashcards[k].settings == ""
              && (if wanted[k].id < 0 then r.dashcards[k].id >= next else r.dashcards[k].id == wanted[k].id)
  {
    if wanted != [] { SettleLaw(wanted[..|wanted| - 1], next); }
  }

  /** The dashboard a board asks for, under the id its name finds. */
  ghost predicate DashboardIsLive(s: Server, board: Board, ids: seq<Id>) {
    && board.name in s.dashboards.Index()
    && s.dashboards.Index()[board.name] in s.dashboards.items
    && var item := s.dashboards.items[s.dashboards.Index()[board.name]];
       item.name == board.name && !item.archived && item.body.description == board.description &&
       Shows(item.body.dashcards, board.cards, ids)
  }

  lemma UpsertDashboardLaw(s: Server, board: Board, ids: seq<Id>)
    requires |ids| == |board.cards| && s.dashboards.Valid()
    ensures var t := UpsertDashboard(s, board, ids);
            && t.dashboards.Valid() && Frame(s.dashboards, t.dashboards, {board.name})
            && t.cards == s.cards && t.databases == s.databases && s.nextDashcard <= t.nextDashcard
            && DashboardIsLive(t, board, ids)
            && IdsKept(PriorDashcards(s, board.name), PriorDashcards(t, board.name), s.nextDashcard)
  {
    hide Shelf.Index, Frame;
    var wanted := WantedDashcards(ByCard(PriorDashcards(s, board.name)), board.cards, ids);
    var settled := Settle(wanted, s.nextDashcard);
    SettleLaw(wanted, s.nextDashcard);
    UpsertLaw(s.dashboards, board.name, DashboardBody(board.description, settled.dashcards));
  }

  // ------------------------------------------------------------------ boards ---

  /** The dashboard of a board shows its cards, each under the id its name finds. */
  ghost predicate BoardIsShown(s: Server, board: Board) {
    exists ids :: IdsFound(s.cards, board.cards, ids) && DashboardIsLive(s, board, ids)
  }

  ghost predicate BoardsAreShown(s: Server, boards: seq<Board>) {
    forall b :: b in boards ==> BoardIsShown(s, b)
  }

  /** Every card name holds what was written to it last. */
  ghost predicate LastCardsAreLive(cards: Shelf<CardBody>, boards: seq<Board>, database: Id) {
    forall name :: LastSpec(boards, name).Some? ==> CardIsLive(cards, LastSpec(boards, name).value, database)
  }

  /** What converging boards leaves alone. */
  ghost predicate OnlyBoards(s: Server, t: Server, boards: seq<Board>) {
    && t.databases == s.databases && s.nextDashcard <= t.nextDashcard
    && t.cards.Valid() && t.dashboards.Valid()
    && Frame(s.cards, t.cards, CardNames(boards)) && Frame(s.dashboards, t.dashboards, BoardNames(boards))
  }

  ghost predicate DashcardIdsKept(s: Server, t: Server, boards: seq<Board>) {
    forall b :: b in boards ==> IdsKept(PriorDashcards(s, b.name), PriorDashcards(t, b.name), s.nextDashcard)
  }

  lemma PriorStays(s: Server, t: Server, names: set<string>, name: string)
    requires Frame(s.dashboards, t.dashboards, names) && name !in names
    ensures PriorDashcards(t, name) == PriorDashcards(s, name)
  {
    hide Shelf.Index, Frame;
    FrameLookup(s.dashboards, t.dashboards, names, name);
    if name in s.dashboards.Index() { FrameItem(s.dashboards, t.dashboards, names, name); }
  }

  lemma KeptIndex<T>(a: Shelf<T>, b: Shelf<T>, names: set<string>, name: string)
    requires Frame(a, b, names) && name in a.Index()
    ensures name in b.Index() && b.Index()[name] == a.Index()[name]
  {
    hide Shelf.Index, Kept, Created;
  }

  lemma IdsStay(a: Shelf<CardBody>, b: Shelf<CardBody>, names: set<string>, specs: seq<CardSpec>, ids: seq<Id>)
    requires Frame(a, b, names) && IdsFound(a, specs, ids)
    ensures IdsFound(b, specs, ids)
  {
    hide Shelf.Index, Frame;
    forall k | 0 <= k < |specs| ensures Lookup(b.Index(), specs[k].name) == Some(ids[k]) {
      KeptIndex(a, b, names, specs[k].name);
    }
  }

  lemma DashboardStays(s: Server, t: Server, boards: set<string>, b: Board, ids: seq<Id>)
    requires Frame(s.dashboards, t.dashboards, boards) && b.name !in boards && DashboardIsLive(s, b, ids)
    ensures DashboardIsLive(t, b, ids)
  {
    hide Shelf.Index, Frame, Shows;
    FrameItem(s.dashboards, t.dashboards, boards, b.name);
    FrameLookup(s.dashboards, t.dashboards, boards, b.name);
  }

  /** A later board leaves an earlier one shown, whatever cards they share. */
  lemma BoardStaysShown(s: Server, t: Server, cards: set<string>, boards: set<string>, b: Board)
    requires Frame(s.cards, t.cards, cards) && Frame(s.dashboards, t.dashboards, boards)
    requires b.name !in boards && BoardIsShown(s, b)
    ensures BoardIsShown(t, b)
  {
    hide Frame, IdsFound, DashboardIsLive;
    var ids :| IdsFound(s.cards, b.cards, ids) && DashboardIsLive(s, b, ids);
    IdsStay(s.cards, t.cards, cards, b.cards, ids);
    DashboardStays(s, t, boards, b, ids);
  }

  lemma OneBoard(board: Board)
    ensures CardNames([board]) == SpecNames(board.cards) && BoardNames([board]) == {board.name}
  {
    assert [board][..0] == [];
  }

  /** One board, on top of what the boards before it did. */
  lemma ConvergeBoardLaw(s: Server, board: Board, database: Id, existing: map<string, Id>)
    requires s.cards.Valid() && s.dashboards.Valid() && Snapshot(existing, s.cards) && DistinctSpecs(board.cards)
    requires Agrees(existing, s.cards, SpecNames(board.cards))
    ensures var placed := UpsertCards(s.cards, board.cards, database, existing);
            var t := UpsertDashboard(s.(cards := placed.cards), board, placed.ids);
            && OnlyBoards(s, t, [board])
            && CardsAreLive(t.cards, board.cards, database) && BoardIsShown(t, board)
            && IdsKept(PriorDashcards(s, board.name), PriorDashcards(t, board.name), s.nextDashcard)
  {
    hide Shelf.Index, Frame, CardsAreLive, IdsFound, DashboardIsLive, IdsKept, UpsertCards, UpsertDashboard;
    OneBoard(board);
    var placed := UpsertCards(s.cards, board.cards, database, existing);
    UpsertCardsLaw(s.cards, board.cards, database, existing);
    var mid := s.(cards := placed.cards);
    UpsertDashboardLaw(mid, board, placed.ids);
    assert PriorDashcards(mid, board.name) == PriorDashcards(s, board.name);
  }

  /** The snapshot still tells the truth about names that are live in it or new to the boards. */
  lemma AgreesAfter(a: Shelf<CardBody>, b: Shelf<CardBody>, names: set<string>, others: set<string>)
    requires Frame(a, b, names) && forall name :: name in others && name in names ==> name in a.Index()
    ensures Agrees(a.Index(), b, others)
  {
    hide Shelf.Index, Frame;
    forall name | name in others ensures Lookup(a.Index(), name) == Lookup(b.Index(), name) {
      if name in a.Index() { KeptIndex(a, b, names, name); } else { FrameLookup(a, b, names, name); }
    }
  }

  lemma LastCardsStay(a: Shelf<CardBody>, b: Shelf<CardBody>, boards: seq<Board>, database: Id)
    requires boards != [] && LastCardsAreLive(a, boards[..|boards| - 1], database)
    requires var last := boards[|boards| - 1];
             Frame(a, b, SpecNames(last.cards)) && CardsAreLive(b, last.cards, database)
    ensures LastCardsAreLive(b, boards, database)
  {
    hide Shelf.Index, Frame;
    var init, last := boards[..|boards| - 1], boards[|boards| - 1];
    forall name | LastSpec(boards, name).Some? ensures CardIsLive(b, LastSpec(boards, name).value, database) {
      SpecOfIs(last.cards, name);
      if SpecOf(last.cards, name).Some? {
        var k :| 0 <= k < |last.cards| && last.cards[k] == SpecOf(last.cards, name).value;
        assert CardIsLive(b, last.cards[k], database);
      } else {
        LastSpecIs(init, name);
        assert CardIsLive(a, LastSpec(init, name).value, database);
        FrameItem(a, b, SpecNames(last.cards), name);
        FrameLookup(a, b, SpecNames(last.cards), name);
      }
    }
  }

  /** Both loops, for boards that share no card name but such as are live already. */
  lemma {:induction false} ConvergeBoardsLaw(s: Server, boards: seq<Board>, database: Id)
    requires s.cards.Valid() && s.dashboards.Valid() && Snapshot(s.cards.Index(), s.cards)
    requires WellNamed(boards) && SharedAreLive(s.cards.Index(), boards)
    ensures var t := ConvergeBoards(s, boards, database, s.cards.Index());
            && OnlyBoards(s, t, boards) && BoardsAreShown(t, boards) && LastCardsAreLive(t.cards, boards, database)
            && DashcardIdsKept(s, t, boards)
  {
    hide Shelf.Index, Frame, UpsertCards, UpsertDashboard, BoardIsShown, LastCardsAreLive, IdsKept, SharedAreLive;
    if boards == [] {
      FrameSame(s.cards);
      FrameSame(s.dashboards);
      NothingLast(s.cards, database);
    } else {
      var init, board := boards[..|boards| - 1], boards[|boards| - 1];
      var existing := s.cards.Index();
      SharedWithLast(existing, boards);
      ConvergeBoardsLaw(s, init, database);
      var mid := ConvergeBoards(s, init, database, existing);
      AgreesAfter(s.cards, mid.cards, CardNames(init), SpecNames(board.cards));
      ConvergeBoardLaw(mid, board, database, existing);
      OneMoreBoard(s, mid, ConvergeBoards(s, boards, database, existing), boards, database);
    }
  }

  lemma NothingLast(cards: Shelf<CardBody>, database: Id)
    ensures LastCardsAreLive(cards, [], database)
  {
  }

  lemma OneMoreBoard(s: Server, mid: Server, t: Server, boards: seq<Board>, database: Id)
    requires boards != [] && WellNamed(boards) && s.cards.Valid() && s.dashboards.Valid()
    requires var init := boards[..|boards| - 1];
             && OnlyBoards(s, mid, init) && BoardsAreShown(mid, init) && LastCardsAreLive(mid.cards, init, database)
             && DashcardIdsKept(s, mid, init)
    requires var board := boards[|boards| - 1];
             && OnlyBoards(mid, t, [board]) && CardsAreLive(t.cards, board.cards, database) && BoardIsShown(t, board)
             && IdsKept(PriorDashcards(mid, board.name), PriorDashcards(t, board.name), mid.nextDashcard)
    ensures OnlyBoards(s, t, boards) && BoardsAreShown(t, boards) && LastCardsAreLive(t.cards, boards, database)
    ensures DashcardIdsKept(s, t, boards)
  {
    hide Shelf.Index, Frame, BoardIsShown, IdsKept, PriorDashcards, LastCardsAreLive, CardsAreLive;
    var init, board := boards[..|boards| - 1], boards[|boards| - 1];
    assert boards == init + [board];
    OneBoard(board);
    FrameThen(s.cards, mid.cards, t.cards, CardNames(init), SpecNames(board.cards));
    FrameThen(s.dashboards, mid.dashboards, t.dashboards, BoardNames(init), {board.name});
    LastCardsStay(mid.cards, t.cards, boards, database);
    PriorStays(s, mid, BoardNames(init), board.name);
    KeptThen(s, mid, t, board);
    forall b | b in init
      ensures BoardIsShown(t, b) && IdsKept(PriorDashcards(s, b.name), PriorDashcards(t, b.name), s.nextDashcard)
    {
      BoardNameIn(init, b);
      BoardStaysShown(mid, t, SpecNames(board.cards), {board.name}, b);
      PriorStays(mid, t, {board.name}, b.name);
    }
  }

  lemma KeptThen(s: Server, mid: Server, t: Server, board: Board)
    requires s.nextDashcard <= mid.nextDashcard
    requires PriorDashcards(mid, board.name) == PriorDashcards(s, board.name)
    requires IdsKept(PriorDashcards(mid, board.name), PriorDashcards(t, board.name), mid.nextDashcard)
    ensures IdsKept(PriorDashcards(s, board.name), PriorDashcards(t, board.name), s.nextDashcard)
  {
  }
}
