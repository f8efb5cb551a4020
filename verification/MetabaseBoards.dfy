/**
 scripts/metabase_boards.py against that server: converging the boards by name and reading
 the instance back, as functions: what each request loop leaves on the server.
 */
module MetabaseBoards {
  import opened Base
  import opened MetabaseServer

  const MARTS_DB_NAME := "marts"

  datatype Connection = Connection(engine: string, host: string, port: nat, dbname: string, user: string,
                                   password: string)

  datatype CardBody = CardBody(display: string, sql: string, database: Option<Id>, settings: string,
                               collection: Option<Id>)

  datatype Place = Place(row: int, col: int, sizeX: int, sizeY: int)

  datatype Dashcard = Dashcard(id: Id, card: Id, place: Place, settings: string)

  datatype DashboardBody = DashboardBody(description: string, dashcards: seq<Dashcard>)

  datatype Server = Server(
    databases: Shelf<Connection>, cards: Shelf<CardBody>, dashboards: Shelf<DashboardBody>, nextDashcard: Id)

  /** A board definition: the cards, where they go, and the dashboard that holds them. */
  datatype CardSpec = CardSpec(name: string, display: string, sql: string, settings: string, place: Place)

  datatype Board = Board(name: string, description: string, cards: seq<CardSpec>)

  ghost predicate Valid(s: Server) {
    && s.databases.Valid() && s.cards.Valid() && s.dashboards.Valid()
    && (forall i :: i in s.databases.items ==> !s.databases.items[i].archived)
  }

  // -------------------------------------------------------------- database ---

  datatype Ensured = Ensured(server: Server, id: Id)

  function MartsDatabase(s: Server): Option<Id> {
    FirstUpTo(s.databases.Names(), MARTS_DB_NAME, s.databases.next)
  }

  lemma MartsDatabaseExists(s: Server)
    ensures match MartsDatabase(s)
            case Some(i) => i in s.databases.items && s.databases.items[i].name == MARTS_DB_NAME
            case None => MARTS_DB_NAME !in s.databases.Index()
  {
    hide FirstUpTo, IndexUpTo;
    FirstIsFirst(s.databases.Names(), s.databases.next, MARTS_DB_NAME);
    IndexIsLast(s.databases.Names(), s.databases.next, MARTS_DB_NAME);
  }

  /** `ensure_marts_database`: the first one of that name is converged, or one is created. */
  function EnsureMartsDatabase(s: Server, details: Connection): Ensured {
    MartsDatabaseExists(s);
    var u := Upsert(s.databases, MartsDatabase(s), MARTS_DB_NAME, details);
    Ensured(s.(databases := u.shelf), u.id)
  }

  // ----------------------------------------------------------------- cards ---

  /** `card_payload`. */
  function CardPayload(spec: CardSpec, database: Id): CardBody {
    CardBody(spec.display, spec.sql, Some(database), spec.settings, None)
  }

  /** The index read once, before any card is written. */
  predicate Snapshot(existing: map<string, Id>, cards: Shelf<CardBody>) {
    forall name :: name in existing ==> existing[name] in cards.items
  }

  datatype Placed = Placed(cards: Shelf<CardBody>, ids: seq<Id>)

  /** `upsert_cards`: every card of the board, looked up in the snapshot. */
  function UpsertCards(cards: Shelf<CardBody>, specs: seq<CardSpec>, database: Id,
                       existing: map<string, Id>): (p: Placed)
    requires Snapshot(existing, cards)
    ensures |p.ids| == |specs| && Snapshot(existing, p.cards)
  {
    if specs == [] then Placed(cards, [])
    else
      var before := UpsertCards(cards, specs[..|specs| - 1], database, existing);
      var spec := specs[|specs| - 1];
      var u := Upsert(before.cards, Lookup(existing, spec.name), spec.name, CardPayload(spec, database));
      Placed(u.shelf, before.ids + [u.id])
  }

  // ------------------------------------------------------------ dashboards ---

  /** `{dc["card_id"]: dc for dc in live["dashcards"]}`, as the ids it holds. */
  function ByCard(dashcards: seq<Dashcard>): map<Id, Id> {
    if dashcards == [] then map[]
    else
      var last := dashcards[|dashcards| - 1];
      ByCard(dashcards[..|dashcards| - 1])[last.card := last.id]
  }

  /** A dashcard as requested: a prior id, or a negative one for a new placement. */
  datatype Wanted = Wanted(id: int, card: Id, place: Place)

  function WantedAt(prior: map<Id, Id>, spec: CardSpec, card: Id, index: nat): Wanted {
    Wanted(if card in prior then prior[card] else -(index + 1), card, spec.place)
  }

  function WantedDashcards(prior: map<Id, Id>, specs: seq<CardSpec>, ids: seq<Id>): (w: seq<Wanted>)
    requires |ids| == |specs|
    ensures |w| == |specs| && forall k :: 0 <= k < |w| ==> w[k] == WantedAt(prior, specs[k], ids[k], k)
  {
    seq(|specs|, k requires 0 <= k < |specs| && |ids| == |specs| => WantedAt(prior, specs[k], ids[k], k))
  }

  datatype Settled = Settled(dashcards: seq<Dashcard>, next: Id)

  /** What the server makes of a PUT of dashcards: the whole set, with fresh ids for the new. */
  function Settle(wanted: seq<Wanted>, next: Id): (r: Settled)
    ensures |r.dashcards| == |wanted| && next <= r.next
  {
    if wanted == [] then Settled([], next)
    else
      var before := Settle(wanted[..|wanted| - 1], next);
      var last := wanted[|wanted| - 1];
      if last.id < 0
      then Settled(before.dashcards + [Dashcard(before.next, last.card, last.place, "")], before.next + 1)
      else Settled(before.dashcards + [Dashcard(last.id, last.card, last.place, "")], before.next)
  }

  function PriorDashcards(s: Server, name: string): seq<Dashcard> {
    var index := s.dashboards.Index();
    if name in index && index[name] in s.dashboards.items then s.dashboards.items[index[name]].body.dashcards else []
  }

  /** `upsert_dashboard`: the dashboard by name, then its whole set of dashcards. */
  function UpsertDashboard(s: Server, board: Board, ids: seq<Id>): Server
    requires |ids| == |board.cards|
  {
    var found := FoundDashboard(s, board.name);
    var settled := Settle(WantedDashcards(ByCard(PriorDashcards(s, board.name)), board.cards, ids), s.nextDashcard);
    var u := Upsert(s.dashboards, found, board.name, DashboardBody(board.description, settled.dashcards));
    s.(dashboards := u.shelf, nextDashcard := settled.next)
  }

  function FoundDashboard(s: Server, name: string): (found: Option<Id>)
    ensures found == Lookup(s.dashboards.Index(), name)
    ensures found.Some? ==> found.value in s.dashboards.items
  {
    assert name in s.dashboards.Index() ==> s.dashboards.Index()[name] in s.dashboards.items by {
      if name in s.dashboards.Index() { IndexBears(s.dashboards, name); }
    }
    Lookup(s.dashboards.Index(), name)
  }

  // --------------------------------------------------------------- converge ---

  function ConvergeBoards(s: Server, boards: seq<Board>, database: Id, existing: map<string, Id>): (t: Server)
    requires Snapshot(existing, s.cards)
    ensures Snapshot(existing, t.cards)
  {
    if boards == [] then s
    else
      var before := ConvergeBoards(s, boards[..|boards| - 1], database, existing);
      var board := boards[|boards| - 1];
      var placed := UpsertCards(before.cards, board.cards, database, existing);
      UpsertDashboard(before.(cards := placed.cards), board, placed.ids)
  }

  lemma CardIndexIsSnapshot(cards: Shelf<CardBody>)
    ensures Snapshot(cards.Index(), cards)
  {
    hide Shelf.Index;
    forall name | name in cards.Index() ensures cards.Index()[name] in cards.items {
      IndexBears(cards, name);
    }
  }

  /** `converge`: the database, the snapshot of the cards, every board. */
  function Converge(s: Server, boards: seq<Board>, details: Connection): Server {
    var e := EnsureMartsDatabase(s, details);
    CardIndexIsSnapshot(e.server.cards);
    ConvergeBoards(e.server, boards, e.id, e.server.cards.Index())
  }

  // ----------------------------------------------------------------- verify ---

  /** Reading the first dashcard of a dashboard that has none. */
  datatype Crash = NoFirstCard(board: string)

  predicate OccursAt(text: string, part: string, i: nat) {
    i + |part| <= |text| && text[i..i + |part|] == part
  }

  predicate Contains(text: string, part: string) {
    exists i: nat :: i <= |text| && OccursAt(text, part, i)
  }

  predicate ClaimsModelQuality(name: string) {
    Contains(name, "KPI-09") || Contains(name, "KPI-10")
  }

  predicate WrongDatabase(s: Server, dc: Dashcard, marts: Id) {
    dc.card in s.cards.items && s.cards.items[dc.card].body.database !in {Some(marts), None}
  }

  predicate Offends(s: Server, dc: Dashcard) {
    dc.card in s.cards.items && ClaimsModelQuality(s.cards.items[dc.card].name)
  }

  function Failure(failed: bool): nat {
    if failed then 1 else 0
  }

  /** One turn of the loop of `verify`; `answering` are the cards whose query returns rows. */
  function VerifyBoard(s: Server, board: Board, marts: Id, answering: set<Id>): Result<nat, Crash> {
    if board.name !in s.dashboards.Index() then Ok(1)
    else
      var dashcards := PriorDashcards(s, board.name);
      if |dashcards| != |board.cards| then Ok(1)
      else if dashcards == [] || dashcards[0].card !in s.cards.items then Err(NoFirstCard(board.name))
      else
        Ok(Failure(exists k :: 0 <= k < |dashcards| && WrongDatabase(s, dashcards[k], marts)) +
           Failure(exists k :: 0 <= k < |dashcards| && Offends(s, dashcards[k])) +
           Failure(dashcards[0].card !in answering))
  }

  function VerifyBoards(s: Server, boards: seq<Board>, marts: Id, answering: set<Id>): Result<nat, Crash> {
    if boards == [] then Ok(0)
    else
      var before := VerifyBoards(s, boards[..|boards| - 1], marts, answering);
      if before.Err? then before
      else
        var last := VerifyBoard(s, boards[|boards| - 1], marts, answering);
        if last.Err? then last else Ok(before.value + last.value)
  }

  /** `verify`: the number of failures. */
  function Verify(s: Server, boards: seq<Board>, answering: set<Id>): Result<nat, Crash> {
    if MARTS_DB_NAME !in s.databases.Index() then Ok(1)
    else VerifyBoards(s, boards, s.databases.Index()[MARTS_DB_NAME], answering)
  }
}
