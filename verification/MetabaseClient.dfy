/**
 The client of scripts/metabase_boards.py: each method is a loop of requests against the live
 server, proved to leave on it what the function of the same name says.
 */
module MetabaseClient {
  import opened Base
  import opened MetabaseServer
  import opened MetabaseBoards

  /** The client: every method is a loop of requests against the live server. */
  class Client {
    var server: Server

    constructor (live: Server)
      ensures server == live
    {
      server := live;
    }

    method EnsureMartsDatabase(details: Connection) returns (id: Id)
      modifies this
      ensures Ensured(server, id) == MetabaseBoards.EnsureMartsDatabase(old(server), details)
    {
      var databases := server.databases;
      var i := 0;
      while i < databases.next
        invariant i <= databases.next && server == old(server)
        invariant FirstUpTo(databases.Names(), MARTS_DB_NAME, i) == None
      {
        if i in databases.items && !databases.items[i].archived && databases.items[i].name == MARTS_DB_NAME {
          FirstStays(databases.Names(), MARTS_DB_NAME, i, databases.next);
          server := server.(databases := databases.Put(i, MARTS_DB_NAME, details));
          return i;
        }
        i := i + 1;
      }
      id := databases.next;
      server := server.(databases := databases.Post(MARTS_DB_NAME, details));
    }

    method UpsertCards(board: Board, database: Id, existing: map<string, Id>) returns (ids: seq<Id>)
      requires Snapshot(existing, server.cards)
      modifies this
      ensures var placed := MetabaseBoards.UpsertCards(old(server).cards, board.cards, database, existing);
              ids == placed.ids && server == old(server).(cards := placed.cards)
    {
      hide Shelf.Index, Shelf.Names, IndexUpTo, CardPayload;
      ids := [];
      ghost var before := server.cards;
      for k := 0 to |board.cards|
        invariant Snapshot(existing, before)
        invariant var placed := MetabaseBoards.UpsertCards(before, board.cards[..k], database, existing);
                  ids == placed.ids && server == old(server).(cards := placed.cards)
      {
        var spec := board.cards[k];
        assert board.cards[..k + 1][..k] == board.cards[..k];
        var payload := CardPayload(spec, database);
        if spec.name in existing {
          server := server.(cards := server.cards.Put(existing[spec.name], spec.name, payload));
          ids := ids + [existing[spec.name]];
        } else {
          ids := ids + [server.cards.next];
          server := server.(cards := server.cards.Post(spec.name, payload));
        }
      }
      assert board.cards[..|board.cards|] == board.cards;
    }

    /** The dashboard is written first, as it was with the new description, and then its dashcards. */
    method UpsertDashboard(board: Board, ids: seq<Id>) returns (id: Id)
      requires |ids| == |board.cards|
      modifies this
      ensures server == MetabaseBoards.UpsertDashboard(old(server), board, ids)
      ensures old(server).dashboards.Valid() ==> Lookup(server.dashboards.Index(), board.name) == Some(id)
    {
      hide IndexUpTo;
      var found := FoundDashboard(server, board.name);
      ghost var start := server;
      var live := PriorDashcards(server, board.name);
      if found.Some? {
        id := found.value;
        server := server.(dashboards := server.dashboards.Put(id, board.name, DashboardBody(board.description, live)));
      } else {
        id := server.dashboards.next;
        server := server.(dashboards := server.dashboards.Post(board.name, DashboardBody(board.description, live)));
      }
      var prior := ByCard(live);
      var dashcards: seq<Wanted> := [];
      for index := 0 to |board.cards|
        invariant |dashcards| == index
        invariant forall k :: 0 <= k < index ==> dashcards[k] == WantedAt(prior, board.cards[k], ids[k], k)
      {
        var card := ids[index];
        var wanted := if card in prior then prior[card] else -(index + 1);
        dashcards := dashcards + [Wanted(wanted, card, board.cards[index].place)];
      }
      assert dashcards == WantedDashcards(prior, board.cards, ids);
      var settled := Settle(dashcards, server.nextDashcard);
      var body := DashboardBody(board.description, settled.dashcards);
      server := server.(dashboards := server.dashboards.Put(id, board.name, body), nextDashcard := settled.next);
      assert server.dashboards.items == Upsert(start.dashboards, found, board.name, body).shelf.items;
      if start.dashboards.Valid() { UpsertLaw(start.dashboards, board.name, body); }
    }

    method Converge(boards: seq<Board>, details: Connection)
      modifies this
      ensures server == MetabaseBoards.Converge(old(server), boards, details)
    {
      hide Shelf.Index, MetabaseBoards.UpsertDashboard, MetabaseBoards.UpsertCards, MetabaseBoards.EnsureMartsDatabase;
      var database := EnsureMartsDatabase(details);
      var existing := server.cards.Index();
      CardIndexIsSnapshot(server.cards);
      ghost var start := server;
      for k := 0 to |boards|
        invariant Snapshot(existing, start.cards)
        invariant server == ConvergeBoards(start, boards[..k], database, existing)
      {
        assert boards[..k + 1][..k] == boards[..k];
        var ids := UpsertCards(boards[k], database, existing);
        var _ := UpsertDashboard(boards[k], ids);
      }
      assert boards[..|boards|] == boards;
    }

    /** Read-only: nothing is modified. */
    method Verify(boards: seq<Board>, answering: set<Id>) returns (failures: Result<nat, Crash>)
      ensures failures == MetabaseBoards.Verify(server, boards, answering)
    {
      hide Shelf.Index, VerifyBoard;
      var databases := server.databases.Index();
      if MARTS_DB_NAME !in databases {
        return Ok(1);
      }
      var marts := databases[MARTS_DB_NAME];
      var count := 0;
      for k := 0 to |boards|
        invariant VerifyBoards(server, boards[..k], marts, answering) == Ok(count)
      {
        assert boards[..k + 1][..k] == boards[..k];
        var turn := VerifyBoard(server, boards[k], marts, answering);
        if turn.Err? {
          CrashStays(server, boards, marts, answering, k + 1);
          return turn;
        }
        count := count + turn.value;
      }
      assert boards[..|boards|] == boards;
      return Ok(count);
    }
  }

  lemma {:induction false} FirstStays(names: map<Id, string>, name: string, i: Id, n: nat)
    requires i < n && FirstUpTo(names, name, i) == None && Bears(names, i, name)
    ensures FirstUpTo(names, name, n) == Some(i)
    decreases n
  {
    if i < n - 1 { FirstStays(names, name, i, n - 1); }
  }

  lemma {:induction false} CrashStays(s: Server, boards: seq<Board>, marts: Id, answering: set<Id>, n: nat)
    requires n <= |boards| && VerifyBoards(s, boards[..n], marts, answering).Err?
    ensures VerifyBoards(s, boards, marts, answering) == VerifyBoards(s, boards[..n], marts, answering)
    decreases |boards|
  {
    if n < |boards| {
      var init := boards[..|boards| - 1];
      assert init[..n] == boards[..n];
      CrashStays(s, init, marts, answering, n);
    } else {
      assert boards[..n] == boards;
    }
  }
}
